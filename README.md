# Persona network graph: a Dafny model

This project models the persona network of a product-testing web app.

- **Personas.** The app generates 988 personas and spreads them over four regions of India.
- **Graph.** It draws the personas as a force-directed graph, one colour per region.
- **Segment filter.** A filter bar switches segments on and off.
- **Blink animation.** During a simulation, a random subset of up to twenty nodes blinks.
- **Reply text.** The app asks a language model for a reply and splits it into a "Wave Insights" section and a "Wave Actions" section.

The model covers the following parts of the app:

- the enhanced graph builder `generateEnhancedGraph`, step by step:
  - node selection (`NodeSelection`);
  - grouping by segment (`SegmentGroups`);
  - a random spanning tree per group (`SpanningTrees`);
  - a ring of cross-segment links (`SegmentRing`);
  - random extra links (`Enrichment`);
  - the whole builder (`EnhancedGraph`).
- the view's own helpers:
  - the persona generator (`Personas`);
  - the legacy graph builder (`LegacyGraph`);
  - the segment toggle (`SegmentToggle`);
  - `hexToRGBA` and the `parseInt(s, 16)` it relies on (`HexColors`);
  - one tick of the blink animation (`Blink`);
  - the reply reformatting and how the result card splits it back apart (`WaveInsights`).

Shared pieces:

- `Graph` holds the data model: personas, nodes, links and reachability.
- `Text` holds the string operations the source calls: `trim`, `split`, `join`, `includes`, `toLowerCase`, `replace` and decimal printing.
- `Draws` models `Math.random()`.

**Randomness.** Randomness is a parameter `rng: nat -> nat`. The builders thread a draw counter `t`, and a pick from `n` items is `rng(t) % n`. Since `rng` is arbitrary, a property proved for every `rng` holds for every sequence of random choices. A probability `p` becomes `rng(t) % 10 < 10p`.

**Ordering.** JavaScript `Set`s and object keys keep insertion order. The model keeps them as sequences in that order.

**Building step by step.** The builders work by appending to arrays one element at a time. They are therefore methods with loops, each proved against a specification function or a stated invariant.

**Main property.** The main theorem is on `EnhancedGraph.GenerateEnhancedGraph`: whatever the random draws, every selected node reaches every other along the links. It follows from two facts:

1. the spanning trees connect every group;
2. the ring chains the groups' roots (`RootsChained`, `RingConnects`).

The extra links come after these and cannot break that (`ConnectedAfter`).

**Duplicate links.** The tree links and the enrichment links never repeat an unordered pair and are never self-loops:

- the tree links because each joins a connected id to a not yet connected one;
- the enrichment links because of the `existingConnections` set.

The ring step makes no such check. With one segment, its link stays inside that segment and can be a self-loop (`RingSelfLoop`). With two single-node segments, its two links join the same pair (`RingRepeatsPair`). So the model proves no duplicate-freedom for the whole link list; the ring slice is only described by `RingJoins`.

## Model

| member | source | states |
|---|---|---|
| NodeSelection.SegmentIdOf | src/app/components/graphGenerator.js:11 | the segment id of a two-word name is both words lower-cased and joined by '-' in place of the first space ("North India" gives "north-india") |
| NodeSelection.SegmentId | src/app/components/graphGenerator.js:11 | the id has as many characters as the segment name, and a name without a space is simply lower-cased |
| NodeSelection.ColorOf | src/app/components/graphGenerator.js:18 | a node's colour is the segment's colour when the map has a non-empty one, and "#999999" otherwise; never empty |
| NodeSelection.Kept | src/app/components/graphGenerator.js:10-12 | the filter keeps no more personas than it is given, and only selected ones |
| NodeSelection.Selection | src/app/components/graphGenerator.js:10-28 | the node list is no longer than the persona list |
| NodeSelection.KeptMembers | src/app/components/graphGenerator.js:10-12 | a persona survives the filter exactly when it is one of the personas and "all" or its segment id is active |
| NodeSelection.KeptAll | src/app/components/graphGenerator.js:12 | with "all" active every persona is kept, in order |
| NodeSelection.KeptUnique | src/app/components/graphGenerator.js:10-28 | filtering keeps persona ids unique |
| NodeSelection.SelectionNodes | src/app/components/graphGenerator.js:13-26 | node i carries the id and segment of the i-th kept persona; color and originalColor are both its segment's colour; node ids are unique |
| NodeSelection.SelectionMembers | src/app/components/graphGenerator.js:10-28 | a persona's node is among the nodes exactly when the persona is selected |
| NodeSelection.SelectNodes | src/app/components/graphGenerator.js:10-28 | the pushing loop yields exactly the selection, in persona order |
| SegmentGroups.OfSegmentMembers | src/app/components/graphGenerator.js:32-38 | a node is in a segment's group exactly when it is one of the nodes and has that segment |
| SegmentGroups.OfSegment | src/app/components/graphGenerator.js:32-38 | a segment's group is no longer than the node list |
| SegmentGroups.SegmentsOf | src/app/components/graphGenerator.js:34-36 | there are no more keys than nodes |
| SegmentGroups.SegmentsOfMembers | src/app/components/graphGenerator.js:34-36 | a segment is a key exactly when its group is non-empty |
| SegmentGroups.SegmentsDistinct | src/app/components/graphGenerator.js:34-36 | no key is created twice |
| SegmentGroups.GroupsPartition | src/app/components/graphGenerator.js:31-38 | the group sizes add up to the node count, so every node lands in exactly one group |
| SegmentGroups.GroupIdsDisjoint | src/app/components/graphGenerator.js:31-38 | with unique node ids, two groups share no id |
| SegmentGroups.GroupBySegment | src/app/components/graphGenerator.js:31-38 | the loop builds a dictionary whose keys are the segments in order of first occurrence and whose entries are exactly each segment's nodes in node order |
| SpanningTrees.TreeEndpoints | src/app/components/graphGenerator.js:48-69 | every tree link joins two ids reached from the root |
| SpanningTrees.TreeLinksNew | src/app/components/graphGenerator.js:48-69 | no tree link is a self-loop or repeats an unordered pair, because each joins a connected id to an unconnected one |
| SpanningTrees.TreeReaches | src/app/components/graphGenerator.js:44-69 | every id the tree reached is linked to the root by a walk along tree links |
| SpanningTrees.GrowingStart | src/app/components/graphGenerator.js:44-45 | the initial connected set {first id} and unconnected set (the other ids) meet the loop invariant |
| SpanningTrees.GrowingStep | src/app/components/graphGenerator.js:50-69 | linking any connected id to any unconnected id and moving the target keeps the invariant |
| SpanningTrees.SpanningTree | src/app/components/graphGenerator.js:42-71 | a group of n nodes gets n - 1 solid links in tree order; the ids reached are exactly the group's ids; an empty group gets none |
| SegmentRing.AddRing | src/app/components/graphGenerator.js:75-95 | at most one dashed link per segment; when every group is non-empty, link i joins a node of segment i to a node of segment i + 1 mod k |
| EnhancedGraph.TreeCrossFree | src/app/components/graphGenerator.js:41-72 | a tree inside one group repeats no pair of the trees of earlier groups |
| EnhancedGraph.TreesSpan | src/app/components/graphGenerator.js:41-72 | after a group's tree is added, every group so far is spanned from its first node |
| EnhancedGraph.TreeStep | src/app/components/graphGenerator.js:41-72 | appending one group's tree keeps every link a new pair inside a group, spans the groups so far and keeps one link fewer than nodes per group |
| EnhancedGraph.AddTrees | src/app/components/graphGenerator.js:41-72 | step 3 adds n - k solid links (n nodes, k segments) between node ids, with no self-loop or repeated pair, and every group is spanned |
| EnhancedGraph.AddTree | src/app/components/graphGenerator.js:42-71 | one round of step 3 takes the trees-so-far invariant from j groups to j + 1 |
| EnhancedGraph.RootsChained | src/app/components/graphGenerator.js:75-95 | through the trees and ring links 0..i-1, the first segment's root reaches the root of segment i |
| EnhancedGraph.RingConnects | src/app/components/graphGenerator.js:74-95 | trees plus ring connect any two nodes |
| EnhancedGraph.Ring | src/app/components/graphGenerator.js:74-95 | in the builder every group is non-empty, so the ring has exactly one dashed link per segment, from segment i's group to segment i + 1's |
| EnhancedGraph.RingSelfLoop | src/app/components/graphGenerator.js:76-93 | with one node, and so one segment, the only ring link joins the node to itself |
| EnhancedGraph.RingRepeatsPair | src/app/components/graphGenerator.js:76-93 | with two single-node segments, the two ring links join the same pair |
| EnhancedGraph.TwoRing | src/app/components/graphGenerator.js:76-93 | a ring over two segments has link 0 from the first group to the second and link 1 back |
| EnhancedGraph.ConnectedAfter | src/app/components/graphGenerator.js:97-176 | links appended after the trees and the ring leave every pair of nodes connected |
| EnhancedGraph.GenerateEnhancedGraph | src/app/components/graphGenerator.js:5-179 | whatever the random draws: the nodes are the selection; every link ends at node ids; there are between n and 8n links; the first n - k links are solid, with no self-loop or repeated pair; the next k are the ring; every later link was a new pair when added, starts at the node whose round added it, and no node adds more than 7; every node reaches every other |
| EnhancedGraph.Assembled | src/app/components/graphGenerator.js:41-176 | the facts about the tree, ring and enrichment slices add up to the whole graph's: node-id endpoints, n to 8n links, the solid new-pair prefix, the ring slice, at most 7 later links per node, and every node reaching every other |
| Enrichment.ExtraConnections | src/app/components/graphGenerator.js:100-110 | every tenth node gets 4 to 6 extra links; every third of the others gets 2 or 3; the rest get at most 1 |
| Enrichment.BudgetAttainable | src/app/components/graphGenerator.js:100-110 | every budget in those ranges comes from some draw, so the ranges are exact |
| Enrichment.NeighbourOf | src/app/components/graphGenerator.js:115-124 | the other end of any link touching the node is in existingConnections |
| Enrichment.Neighbours | src/app/components/graphGenerator.js:115-124 | every id in existingConnections is joined to the node by one of the links |
| Enrichment.WithoutId | src/app/components/graphGenerator.js:112 | sameSegmentNodes is the group minus the node; it is strictly shorter when the node is in it |
| Enrichment.NotIn | src/app/components/graphGenerator.js:129 | availableNodes is exactly the candidates whose id is not yet connected |
| Enrichment.OtherSegments | src/app/components/graphGenerator.js:152 | otherSegments is exactly the segments other than the node's |
| Enrichment.FreshLink | src/app/components/graphGenerator.js:126-147 | a target that is not the node, not an existing neighbour and not already picked gives a new pair, whatever the link type |
| Enrichment.IntraLinks | src/app/components/graphGenerator.js:126-147 | at most min(budget, group size - 1) same-segment links from the node, each a new pair; the tracked set is the old neighbours plus the new targets |
| Enrichment.IntraStep | src/app/components/graphGenerator.js:129-146 | one same-segment link to a member that is neither a neighbour nor a target so far keeps the added links new pairs from the node into its group |
| Enrichment.CrossLink | src/app/components/graphGenerator.js:149-175 | at most one dashed link from the node, to an unconnected node of another segment |
| Enrichment.CrossNew | src/app/components/graphGenerator.js:149-175 | the cross-segment link, whose target is outside the node's segment and not linked to it yet, is a new pair after the same-segment links |
| Enrichment.EnrichNode | src/app/components/graphGenerator.js:98-176 | each node's extra links start at the node and are new pairs; the same-segment ones stay within the budget and the segment, the cross one leaves it |
| Enrichment.Enrich | src/app/components/graphGenerator.js:98-176 | step 5 keeps the earlier links as they are and adds new pairs between node ids; each added link starts at the node whose round added it, the rounds come in node order, and no node adds more than 7 |
| Enrichment.EnrichedStep | src/app/components/graphGenerator.js:98-176 | one node's round, with at most 6 same-segment links and 1 cross link from that node, keeps the rounds-so-far invariant: earlier links untouched, new pairs, node ids, at most 7 per node in node order |
| Graph.AllNewNoDuplicates | src/app/components/graphGenerator.js:114-124 | links that were each new when appended contain no self-loop and no unordered pair twice |
| Graph.PerNodeAppend | src/app/components/graphGenerator.js:98-176 | appending at most `most` links from node i after the links of nodes before i keeps each node's count within `most` and the owners in node order |
| Personas.PersonaIdInjective | src/app/components/InitialView.jsx:117 | different indices give different ids `persona-i` |
| Personas.GeneratePersonas | src/app/components/InitialView.jsx:103-124 | 988 personas; the i-th has id `persona-i` and one of the four regions as segment; ids are unique; three draws per persona |
| Personas.RegionColors | src/app/components/InitialView.jsx:10-15 | each region has its own colour, never the grey fallback, and no two regions share one |
| LegacyGraph.Others | src/app/components/InitialView.jsx:152 | the fallback pool is exactly the nodes with another id |
| LegacyGraph.SameSegmentOthers | src/app/components/InitialView.jsx:147-149 | the preferred pool is exactly the other nodes of the same segment |
| LegacyGraph.FreshTarget | src/app/components/InitialView.jsx:156-165 | a target that is not the node and not yet linked to it, in either orientation, gives a new pair |
| LegacyGraph.LinkAttempt | src/app/components/InitialView.jsx:145-166 | one attempt adds at most one link, from the current node, and keeps every link a new pair between node ids |
| LegacyGraph.NodeAttempts | src/app/components/InitialView.jsx:144-167 | one node's round adds at most three links, all from that node, keeping earlier links and every link a new pair between node ids |
| LegacyGraph.GenerateGraph | src/app/components/InitialView.jsx:127-171 | the nodes are the selection; each link starts at the node whose round added it, the rounds come in node order and no node adds more than three; links end at node ids; no self-loop and no unordered pair twice |
| SegmentToggle.Without | src/app/components/InitialView.jsx:179 | the filter keeps exactly the other entries |
| SegmentToggle.ToggleSegment | src/app/components/InitialView.jsx:174-186 | the result is never empty; toggling "all" gives ["all"] |
| SegmentToggle.ToggleOff | src/app/components/InitialView.jsx:178-180 | toggling an active id removes it and keeps the others; it gives ["all"] exactly when nothing else was active |
| SegmentToggle.ToggleOn | src/app/components/InitialView.jsx:181-183 | toggling an inactive id appends it after the old entries in order, with "all" dropped |
| SegmentToggle.ToggleWellFormed | src/app/components/InitialView.jsx:174-186 | the list stays either ["all"] or a non-empty list without "all" |
| SegmentToggle.ToggleTwice | src/app/components/InitialView.jsx:174-186 | toggling an inactive id on and off again restores the list exactly |
| HexColors.Components | src/app/components/InitialView.jsx:50-60 | the components are undefined exactly when the digits (without '#') number neither 3 nor 6, and then all three are |
| HexColors.ParseInt16 | src/app/components/InitialView.jsx:53-59 | parseInt gives a number or NaN, never undefined, and NaN for an empty or blank string |
| HexColors.RgbaText | src/app/components/InitialView.jsx:61 | the text opens with "rgba(" and closes with the alpha and ")" |
| HexColors.HexToRGBA | src/app/components/InitialView.jsx:49-62 | whatever the input, the result opens with "rgba(" and closes with the alpha and ")" |
| HexColors.ParsePair | src/app/components/InitialView.jsx:57-59 | two hex digits parse to 16·first + second, in 0..255 |
| HexColors.ParsePairBounds | src/app/components/InitialView.jsx:53-59 | any two characters parse to NaN or to a number in -15..255 |
| HexColors.ParseDoubled | src/app/components/InitialView.jsx:53-55 | a doubled hex digit parses to 17 times the digit |
| HexColors.ShortForm | src/app/components/InitialView.jsx:52-55 | "#xyz" gives components 17·x, 17·y, 17·z |
| HexColors.LongForm | src/app/components/InitialView.jsx:56-59 | "#rrggbb" in either case gives components 16·r1 + r0, 16·g1 + g0, 16·b1 + b0 |
| HexColors.ParseDigits | src/app/components/InitialView.jsx:57-59 | two hex digits of either case parse to 16·first + second |
| HexColors.OtherLengths | src/app/components/InitialView.jsx:52-61 | any other length prints "rgba(undefined, undefined, undefined, alpha)" |
| HexColors.ValidHexInRange | src/app/components/InitialView.jsx:49-62 | a well formed 3- or 6-digit colour has every component a number in 0..255 |
| HexColors.Hex2RoundTrip | src/app/components/InitialView.jsx:57-59 | the two-digit hex form of a byte parses back to the byte |
| HexColors.RgbaComponents | src/app/components/InitialView.jsx:50-60 | "#rrggbb" written from three bytes parses back to the three bytes |
| HexColors.RgbaRoundTrip | src/app/components/InitialView.jsx:49-62 | "#rrggbb" written from three bytes prints back as "rgba(r, g, b, alpha)" in decimal |
| Blink.BlinkCount | src/app/components/InitialView.jsx:84 | the count is the node count capped at 20 |
| Blink.Blinked | src/app/components/InitialView.jsx:86-92 | k draws collect at most k ids |
| Blink.BlinkedBounds | src/app/components/InitialView.jsx:86-92 | k draws yield at most k ids, all node ids, and at least one when k > 0 |
| Blink.BlinkedDrawn | src/app/components/InitialView.jsx:87-91 | an id blinks exactly when one of the draws picked its node |
| Blink.BlinkTick | src/app/components/InitialView.jsx:83-93 | the loop collects exactly the ids of the min(n, 20) drawn nodes; none when there are no nodes |
| Blink.BlinkTickBounds | src/app/components/InitialView.jsx:83-93 | a tick of a non-empty graph blinks between 1 and min(n, 20) nodes, all of the graph |
| WaveInsights.NonBlank | src/app/components/InitialView.jsx:276 | the kept lines are exactly the lines whose trim is non-empty |
| WaveInsights.Cut | src/app/components/InitialView.jsx:277-278 | slice(0, -2) and slice(-2) split the list with the last min(n, 2) lines in the second part |
| WaveInsights.PartsCoverLines | src/app/components/InitialView.jsx:276-278 | with more than two lines, insights part + newline + actions part is all the lines, and the actions part is exactly two lines |
| WaveInsights.PartsAvoid | src/app/components/InitialView.jsx:276-278 | parts of a text free of a single-line phrase are free of it too |
| WaveInsights.FormatInsights | src/app/components/InitialView.jsx:274-280 | a reply mentioning either score phrase is kept unchanged |
| WaveInsights.RawReply | src/app/components/InitialView.jsx:274-280 | a reply with a score and no headings is kept and then shows as the whole reply trimmed, with the default advice for actions |
| WaveInsights.SplitSections | src/app/components/InitialView.jsx:279 | the template holds "Wave Actions" exactly once, between the insights and actions parts |
| WaveInsights.SplitInsightsSection | src/app/components/InitialView.jsx:378 | before "Wave Actions", the template holds "Wave Insights" once, at its start |
| WaveInsights.RenderedInsights | src/app/components/InitialView.jsx:378 | the insights panel text is trimmed at both ends, and a text without either heading shows as itself trimmed |
| WaveInsights.RenderInsightsSection | src/app/components/InitialView.jsx:378 | the insights panel of the template shows its insights part trimmed |
| WaveInsights.RenderedActions | src/app/components/InitialView.jsx:385-387 | without "Wave Actions" the actions panel shows the default advice; with it, the panel text is trimmed at both ends |
| WaveInsights.RenderActionsSection | src/app/components/InitialView.jsx:385-387 | the actions panel of the template shows its actions part trimmed |
| WaveInsights.FormatRenderRoundTrip | src/app/components/InitialView.jsx:274-280 | a reply without scores or headings, reformatted and then shown, gives all but its last two non-blank lines as insights and those two as actions |
| Draws.Below | src/app/components/graphGenerator.js:51 | a pick `Math.floor(Math.random() * n)` is an index below n (used for every such pick) |
| Draws.BelowAttainable | src/app/components/graphGenerator.js:51 | every index below n is a possible pick |
| Draws.Chance | src/app/components/graphGenerator.js:150 | `Math.random() < p` never holds for p = 0 and always for p = 1 (used for every such test) |
| Draws.ChanceEitherWay | src/app/components/graphGenerator.js:150 | for 0 < p < 1 both outcomes are possible |

## Left out

- **Language-model request.** The request (building the prompt, `fetch`, keys, credits, error toasts) is left out. It is I/O.
- **Scores.** The regular-expression scores and their random fallbacks (lines 270-273 of `InitialView.jsx`) are left out. So are the timestamp, the React state and effect hooks, the interval timer, the spring animation and all rendering other than the two panel texts.
- **Cosmetic attributes.** These are left out because they are floating point or cosmetic:
  - link value, strength and alpha;
  - node size, shape, pattern, pulse rate, alpha and highlight flag;
  - the persona's mock attribute template `MOCK_PERSONA_DATA`.
- **Object-valued link ends.** The force layout can replace a link's `source`/`target` string with a node object; `graphGenerator.js` lines 117-121 handle that case. The model keeps ids, which is all the builder itself creates.
- **NodeSelection.SegmentId:** lower-cases ASCII letters only. `toLowerCase` on other characters (full Unicode case mapping) is not modelled, and lengths are in characters, not UTF-16 code units.
- **NodeSelection.SegmentIdOf:** is proved for any two-word name rather than evaluated on the four region literals. Evaluating it on the literals is too costly for the verifier.
- **Object.keys ordering:** key order is modelled as insertion order. JavaScript would list integer-like segment names first; no segment name here is integer-like.
- **EnhancedGraph.GenerateEnhancedGraph:** requires unique persona ids. `generatePersonas` guarantees this (`Personas.GeneratePersonas`), but the builder does not check it. Duplicate ids would merge nodes in the layout.
- **EnhancedGraph.GenerateEnhancedGraph:** states no duplicate-freedom for the ring slice, because the source does not guarantee it (`RingSelfLoop`, `RingRepeatsPair`).
- **LegacyGraph.GenerateGraph:** the legacy links carry no type in the source. The model gives them kind Solid, the way the canvas draws an untyped link. Their random `value` is not modelled.
- **Blink.BlinkTick:** the guard of line 89 always holds, because a drawn index is below the node count. So the guard is not modelled as a branch.
- **HexColors.HexToRGBA:** `alpha` is taken as the text it prints as. Number-to-text conversion of floating-point alphas is not modelled.
- **HexColors.ParseInt16:** a result of -0 prints as 0 in JavaScript. The model gives the integer 0, which prints the same.
- **HexColors.Components:** the length tests of `InitialView.jsx` lines 52 and 56 count UTF-16 code units, but the model counts characters. A colour with a character outside the Basic Multilingual Plane differs: for "#😀a" JavaScript takes the 3-digit branch and prints "rgba(NaN, NaN, 170, alpha)", while the model prints three undefined components. The app only passes ASCII colours.
- **NodeSelection.ColorOf / SegmentGroups.GroupBySegment:** `SEGMENT_COLORS[persona.segment]` (`graphGenerator.js` line 18) and `segmentGroups[segment]` (lines 34-37) are plain-object lookups. For a segment named "constructor", "toString" or "__proto__" they find an inherited value: line 18 then gives a function as the colour, and line 37 throws a TypeError. The model's maps treat these names as ordinary keys. The app's segments are the four region names, so it never reaches either case.
- **Personas.RegionColors:** holds by evaluation of the constant map; its proof needs no steps.
