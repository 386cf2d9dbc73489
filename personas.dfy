/** The persona population of the network view and the segment constants it
    is drawn from: four regions of India and their colours. */
module Personas {
  import opened Text
  import opened Draws
  import opened Graph
  import opened NodeSelection

  /** The number of personas the view generates. */
  const PersonaCount: nat := 988

  /** The segments a persona is assigned from, in the order of line 105. */
  const Regions: seq<string> := ["North India", "South India", "East India", "West India"]

  /** SEGMENT_COLORS (lines 10-15). */
  const SegmentColors: map<string, string> :=
    map["North India" := "#FF5733", "South India" := "#33FF57",
        "East India" := "#3357FF", "West India" := "#F1C40F"]

  /** The id template `persona-${i}`. */
  function PersonaId(i: nat): (id: string)
    ensures |id| > 8 && id[..8] == "persona-"
  {
    "persona-" + Dec(i)
  }

  /** Different indices give different persona ids. */
  lemma PersonaIdInjective(i: nat, j: nat)
    requires i != j
    ensures PersonaId(i) != PersonaId(j)
  {
    DecInjective(i, j);
    assert PersonaId(i)[8..] == Dec(i);
    assert PersonaId(j)[8..] == Dec(j);
  }

  /** generatePersonas (lines 103-124): 988 personas, the i-th with id
      "persona-i" and a segment drawn from the four regions. Each iteration
      draws three numbers: the mock template (not modelled), the segment and
      the size (not modelled). */
  method GeneratePersonas(rng: Rng, t0: nat) returns (personas: seq<Persona>, t: nat)
    ensures |personas| == PersonaCount
    ensures forall i :: 0 <= i < |personas| ==>
              personas[i].id == PersonaId(i) && personas[i].segment in Regions
    ensures UniquePersonaIds(personas)
    ensures t == t0 + 3 * PersonaCount
  {
    personas := [];
    t := t0;
    for i := 0 to PersonaCount
      invariant |personas| == i
      invariant forall k :: 0 <= k < i ==>
                  personas[k].id == PersonaId(k) && personas[k].segment in Regions
      invariant UniquePersonaIds(personas)
      invariant t == t0 + 3 * i
    {
      var segment := Regions[Below(rng, t + 1, |Regions|)];
      forall k | 0 <= k < i
        ensures personas[k].id != PersonaId(i)
      {
        PersonaIdInjective(k, i);
      }
      personas := personas + [Persona(PersonaId(i), segment)];
      t := t + 3;
    }
  }

  /** Every region has its own colour, never the grey fallback, so the nodes
      of different regions are drawn in different colours. */
  lemma RegionColors()
    ensures forall k :: 0 <= k < |Regions| ==>
              ColorOf(SegmentColors, Regions[k]) == SegmentColors[Regions[k]] != FallbackColor
    ensures forall j, k :: 0 <= j < k < |Regions| ==>
              ColorOf(SegmentColors, Regions[j]) != ColorOf(SegmentColors, Regions[k])
  {
  }
}
