/** toggleSegment of the network view: the list of active segment ids is
    either the single sentinel "all" or a non-empty list of segment ids. */
module SegmentToggle {
  import opened NodeSelection

  /** The entries of s other than x, in order (Array.prototype.filter). */
  function Without(s: seq<string>, x: string): (r: seq<string>)
    ensures |r| <= |s|
    ensures forall y :: y in r <==> y in s && y != x
  {
    if s == [] then [] else (if s[0] == x then [] else [s[0]]) + Without(s[1..], x)
  }

  /** Filtering keeps order: it distributes over concatenation. */
  lemma {:induction false} WithoutAppend(a: seq<string>, b: seq<string>, x: string)
    ensures Without(a + b, x) == Without(a, x) + Without(b, x)
  {
    if a == [] {
      assert a + b == b;
    } else {
      assert (a + b)[0] == a[0] && (a + b)[1..] == a[1..] + b;
      WithoutAppend(a[1..], b, x);
    }
  }

  /** Filtering out an absent entry changes nothing. */
  lemma {:induction false} WithoutAbsent(s: seq<string>, x: string)
    requires x !in s
    ensures Without(s, x) == s
  {
    if s != [] {
      assert s[0] in s;
      assert forall y :: y in s[1..] ==> y in s;
      WithoutAbsent(s[1..], x);
    }
  }

  /** The lists the filter bar can show: just "all", or a non-empty list
      without "all". */
  predicate WellFormed(active: seq<string>) {
    active == [AllSegments] || (active != [] && AllSegments !in active)
  }

  /** toggleSegment (lines 174-186): "all" resets to ["all"]; an active id
      is removed (falling back to ["all"] when nothing is left); an inactive
      id is appended after dropping "all". */
  function ToggleSegment(prev: seq<string>, id: string): (next: seq<string>)
    ensures next != []
    ensures id == AllSegments ==> next == [AllSegments]
  {
    if id == AllSegments then [AllSegments]
    else if id in prev then
      var rest := Without(prev, id);
      if rest == [] then [AllSegments] else rest
    else Without(prev, AllSegments) + [id]
  }

  /** Toggling off an active id of a well formed list: every occurrence
      goes and the other entries stay; only when none is left does the list
      become ["all"]. */
  lemma ToggleOff(prev: seq<string>, id: string)
    requires WellFormed(prev) && id != AllSegments && id in prev
    ensures var next := ToggleSegment(prev, id);
            id !in next &&
            (next == [AllSegments] <==> forall y :: y in prev ==> y == id) &&
            (next != [AllSegments] ==> forall y :: y in next <==> y in prev && y != id)
  {
    var rest := Without(prev, id);
    if rest != [] {
      var y := rest[0];
      assert y in rest;
      assert AllSegments !in prev;
    }
  }

  /** Toggling on an inactive id appends it at the end, after the previous
      entries in their order, with "all" dropped. */
  lemma ToggleOn(prev: seq<string>, id: string)
    requires id != AllSegments && id !in prev
    ensures var next := ToggleSegment(prev, id);
            AllSegments !in next && next[|next| - 1] == id &&
            next[..|next| - 1] == Without(prev, AllSegments) &&
            forall y :: y in next <==> (y in prev && y != AllSegments) || y == id
  {
    var next := ToggleSegment(prev, id);
    assert next[..|next| - 1] == Without(prev, AllSegments);
  }

  /** Toggling keeps the active list well formed. */
  lemma ToggleWellFormed(prev: seq<string>, id: string)
    requires WellFormed(prev)
    ensures WellFormed(ToggleSegment(prev, id))
  {
    if id != AllSegments && id in prev {
      assert prev != [AllSegments];
      ToggleOff(prev, id);
    } else if id != AllSegments {
      ToggleOn(prev, id);
    }
  }

  /** Toggling an inactive segment on and then off again restores a well
      formed list exactly, order included. */
  lemma ToggleTwice(prev: seq<string>, id: string)
    requires WellFormed(prev) && id != AllSegments && id !in prev
    ensures ToggleSegment(ToggleSegment(prev, id), id) == prev
  {
    var mid := ToggleSegment(prev, id);
    var kept := Without(prev, AllSegments);
    assert mid == kept + [id];
    WithoutAppend(kept, [id], id);
    assert Without([id], id) == [];
    if prev == [AllSegments] {
      assert kept == [];
    } else {
      WithoutAbsent(prev, AllSegments);
      WithoutAbsent(prev, id);
    }
  }
}
