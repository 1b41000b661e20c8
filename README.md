# Drug-interaction graph and frequent-pattern miner over clinical trials

This project models the sequential core of a small clinical-trials data-mining tool in Dafny. The tool has three parts.

- **The line serialisers of `TrialReader`.** Each trial contributes lines `intervention~effect!tag!phase` to the graph corpus, with tag `e` for an adverse event and `c` for a treated condition. It also contributes a row `name!name!...!` of its intervention names to the frequent-pattern corpus. `getPhase` reduces the trial's phase text to one character.
- **`TrialGraph`.** It reads the graph corpus into a graph of drug nodes (`TrialNode`) and effect nodes (`EffectNode`). Drug–effect edges (`TrialEdge`) accumulate `+phase` for a condition line and `-phase` for any other line. Each effect node keeps the list of its edges. `pruneEffectNodes` then clears the edge map. For every pair of edges sharing an effect node, the edge between the two drugs is fetched or created and gains `interConnectWeight` of the pair. Finally the effect nodes are dropped.
- **`FPMiner`.** It finds the distinct names of the frequent-pattern rows. It keeps the names whose support (case-insensitive occurrences, repeats included) reaches `minSupport` (default 50). It then reports `"s1, s2"` for every pair `i < j` of those names that occurs together in at least `minSupport` rows.

Modules:

- `JavaStrings`
  - The Java string and integer operations the source relies on: `compareToIgnoreCase` with an ASCII case fold, `split` with a one-character separator and the default limit, and `Integer.parseInt`.
- `Accumulation`
  - Generic sequences of weight contributions `(key, delta)` and their totals per key.
  - The permutation lemma behind order independence.
- `GraphModel`
  - Nodes, edges and their Java equality and ordering.
  - The canonical orientation of `new TrialEdge(a, b)`.
  - `interConnectWeight`, and the parsing half of `stringToNodes`.
- `GraphSpec`
  - The graph invariants: edges filed under their key, and well-formed effect lists.
  - What an operation adds to the weights, stated as contributions.
  - What loading and pruning contribute in total, and in closed form per edge.
- `GraphOps`
  - Every graph operation as a function from state to state, with the lemmas that say what it does.
  - The TrialEdge objects live in an arena (`seq<Edge>`). The edge map and the effect nodes' lists hold slot numbers into it, so a `weight +=` through one is seen through the other.
- `TrialGraph`
  - The class `TrialGraph`, with fields for the node map, the edge map, the TrialEdge objects and the involved-edge lists.
  - Its methods perform the source's steps in place, loops included.
  - Each method ends in the state the corresponding `GraphOps` function computes.
- `FPMiner`
  - The counting loops as methods over the corpus, each proved equal to a pure count function.
  - Lemmas on those functions.
- `TrialReader`
  - `generateDatabaseStrings` and `generateFPString` as loops proved equal to pure functions.
  - `getPhase`.
  - The round trips of both line formats through the parsers that read them.

Inputs that come from outside the core are parameters:
- **HashMap and HashSet iteration order.** This is a sequence that lists the set exactly once.
- **The corpus.** This is a sequence of lines.
- **The XML-extracted lists.** These are sequences of strings, plus the text of the `phase` element.

## Model

| member | source | states |
|---|---|---|
| JavaStrings.CompareAntisymmetric | TrialGraph.java:252-254 | compareToIgnoreCase(a, b) is the negation of compareToIgnoreCase(b, a) |
| JavaStrings.CompareReflexive | TrialGraph.java:252-254 | every name compares equal to itself ignoring case |
| JavaStrings.CompareZeroIffFoldEqual | TrialGraph.java:252-254 | a comparison is zero exactly when the case-folded names are equal |
| JavaStrings.Pieces | TrialGraph.java:136-138 | the pieces between separators: at least one piece, and no piece holds the separator |
| JavaStrings.StripTrailingEmpty | FPMiner.java:47 | split's removal of trailing empty strings: a prefix of the input, ending in a non-empty element, with only empty strings dropped |
| JavaStrings.Split | TrialGraph.java:136-138 | no element holds the separator; a string without the separator splits into itself |
| JavaStrings.PiecesOfJoin | TrialGraph.java:136-138 | a separator-free piece in front of a separator splits off as the first piece |
| JavaStrings.PiecesWithoutSeparator | TrialGraph.java:136-138 | a separator-free string is one piece |
| JavaStrings.ParseInt | TrialGraph.java:147 | Integer.parseInt: a result is always a 32-bit int, and a string of digits within range parses to its decimal value |
| JavaStrings.ParseOneChar | TrialGraph.java:147 | a one-character phase parses exactly when it is a digit, to that digit |
| JavaStrings.Fold | TrialGraph.java:253 | case folding keeps the length |
| GraphModel.NodeEqualsReflexive | TrialGraph.java:256-265 | every node equals itself |
| GraphModel.NodeEqualsIgnoresCase | TrialGraph.java:256-265 | two nodes of one kind are equal exactly when their names agree ignoring case |
| GraphModel.NewEdgeSpec | TrialGraph.java:324-336 | a new TrialEdge has weight 0, stores its endpoints so that node1 <= node2 ignoring case, and keeps the argument order on a tie |
| GraphModel.EdgeSymmetricIdentity | TrialGraph.java:350-360 | TrialEdge(a, b) equals TrialEdge(b, a); for names that differ ignoring case both are filed under one key |
| GraphModel.EdgeKeyMatch | TrialGraph.java:166-174 | two addEdge keys coincide exactly when the endpoint pairs agree up to order |
| GraphModel.EdgeKeyInjective | TrialGraph.java:151 | the key of a drug–effect edge determines the drug and the effect |
| GraphModel.EdgeCompareProperties | TrialGraph.java:339-347 | edge comparison is antisymmetric, and a zero comparison of like-kinded edges means equal edges |
| GraphModel.SameOtherEqual | TrialGraph.java:350-360 | two edges of one effect node with the same drug endpoint are equal edges |
| GraphModel.InterConnectWeightBounds | TrialGraph.java:196-203 | for strictly opposite signs: \|w1\|+\|w2\|, positive and above either magnitude; otherwise: the mean, between w1 and w2 |
| GraphModel.InterConnectWeightSymmetric | TrialGraph.java:196-203 | the interconnect weight does not depend on the order of the two edges |
| GraphModel.ParseLineFields | TrialGraph.java:136-147 | a parsed line has a drug without '~', an effect without '!', and a 32-bit phase |
| GraphModel.NoTildeNoParse | TrialGraph.java:136-137 | a line without '~' never parses, since firstSplit[1] throws |
| GraphModel.DeltaSign | TrialGraph.java:140-148 | the weight change is +phase for tag "c" and -phase for every other tag |
| GraphSpec.DrugsOf | TrialGraph.java:104-115 | one drug endpoint per listed edge |
| GraphSpec.DrugsOfIndex | TrialGraph.java:104-115 | the k-th drug is the non-effect endpoint of the k-th listed edge |
| GraphSpec.DistinctDrugsPairwise | TrialGraph.java:289-297 | the set semantics of the effect lists, stated pairwise: no two listed drugs are equal ignoring case |
| GraphSpec.EffectListAppend | TrialGraph.java:289-297 | appending an edge whose drug differs from every listed drug keeps the list well formed |
| GraphSpec.LinkedEdgeEquals | TrialGraph.java:350-360 | two edges of one effect node are equal exactly when their drugs are equal ignoring case |
| GraphSpec.LinksAllKept | TrialGraph.java:99-100 | creating and reweighting drug–drug edges leaves every listed drug–effect edge as it was |
| GraphSpec.ListedKept | TrialGraph.java:99-100 | so an effect list reads the same edges before and after such updates |
| GraphSpec.LinksAllEnds | TrialGraph.java:152 | weight updates never move an edge's endpoints |
| GraphSpec.AddsCompose | TrialGraph.java:43-52 | contributions made one after the other add up to their concatenation |
| GraphSpec.LineFacts | TrialGraph.java:140-152 | one line adds its ±phase to its own drug–effect edge, and to no other edge |
| GraphSpec.LoadedEdgeWeight | TrialGraph.java:43-52 | loading gives edge(d, x) the sum over the lines of what each adds to it; the keys filed are those of the lines that parse |
| GraphSpec.LoadOrderIndependent | TrialGraph.java:43-52 | any permutation of the corpus files the same keys and gives every key the same total weight |
| GraphSpec.Listed | TrialGraph.java:99-100 | the edges the effect list holds, position by position |
| GraphSpec.DrugWeightAt | TrialGraph.java:289-297 | on a list whose drugs are distinct, the weight read for drug a is the weight of the one listed edge to a |
| GraphSpec.PairTotal | TrialGraph.java:101-117 | a pair of an effect node's edges with different drugs adds interConnectWeight to edge(a, b) exactly when its two drugs are a and b, in either order, and nothing otherwise |
| GraphSpec.InterConnectExtend | TrialGraph.java:97-120 | one more listed edge adds to interConnect's total exactly its pairs with every earlier edge |
| GraphSpec.LastPairs | TrialGraph.java:98-118 | those pairs add to edge(a, b) only when the new edge's drug is one of a ≠ b and the other is listed, and then add the interconnect weight of the two edges |
| GraphSpec.InterConnectTotal | TrialGraph.java:94-121 | interConnect of an effect node whose listed drugs are distinct adds to edge(a, b) the interconnect weight of its edges to a and to b when a ≠ b are both listed, and 0 otherwise |
| GraphSpec.EffectListEdges | TrialGraph.java:289-297 | the edges of a well-formed list all link the effect node, and their drugs are pairwise different ignoring case |
| GraphSpec.PruneTotal | TrialGraph.java:72-86 | the prune loop adds to edge(a, b) the sum over the visited effect nodes of what each node's interconnect adds |
| GraphSpec.PlainOfMembers | TrialGraph.java:79-84 | the collected node map holds exactly the plain nodes of the iteration |
| GraphSpec.RowJoinsDrugs | TrialGraph.java:98-118 | the inner loop links two distinct drugs of the graph, never a drug to itself |
| GraphSpec.GridJoinsDrugs | TrialGraph.java:97-120 | so does the outer loop |
| GraphSpec.PruneJoinsDrugs | TrialGraph.java:72-86 | every edge pruning creates joins two distinct drugs of the graph |
| GraphSpec.NoEffectNoContributions | TrialGraph.java:79-84 | without effect nodes pruning adds nothing |
| GraphSpec.PrunedGraph | TrialGraph.java:66-88 | after pruning: only the plain nodes remain, the graph is well formed, every edge joins two distinct drugs, and a graph without effect nodes keeps its nodes and has no edges |
| GraphOps.ValidCoherent | TrialGraph.java:282 | every effect node of a loaded graph has a list whose edges exist |
| GraphOps.EmptyGraph | TrialGraph.java:24-28 | the new graph is valid, with no nodes and no edges |
| GraphOps.AddNodeSpec | TrialGraph.java:180-187 | addNode: a present node leaves the graph as it was; otherwise exactly that node joins, a new effect node with an empty list, and the edges are untouched |
| GraphOps.AddNodeValid | TrialGraph.java:180-187 | addNode keeps the graph valid |
| GraphOps.AddEdgeSpec | TrialGraph.java:166-174 | addEdge: the key of (a, b) maps to the returned edge, which has that key; a present edge is returned with the graph unchanged; otherwise exactly one edge of weight 0 is appended and filed; no weight changes |
| GraphOps.AddEdgeTwice | TrialGraph.java:166-174 | addEdge(a, b) then addEdge(b, a) returns the same edge and changes nothing the second time; the first call filed at most one key |
| GraphOps.AddEdgeValid | TrialGraph.java:166-174 | addEdge keeps the graph valid |
| GraphOps.AddWeightSpec | TrialGraph.java:152 | `weight +=` on a filed edge raises the weight under its key by w and no other weight, moves no endpoint, and on a drug–drug edge leaves every drug–effect edge unchanged |
| GraphOps.AddWeightValid | TrialGraph.java:152 | a weight update keeps the graph valid |
| GraphOps.AddInvolvedEdgeSpec | TrialGraph.java:289-297 | addInvolvedEdge returns true, and appends, exactly when no listed edge equals the edge; nothing else changes |
| GraphOps.AddInvolvedEdgeDrugs | TrialGraph.java:289-297 | for an edge of the node itself: it is added exactly when no listed drug equals its drug ignoring case |
| GraphOps.AddInvolvedEdgeValid | TrialGraph.java:289-297 | registering a filed edge of the node keeps every list a set of distinct drugs of the graph |
| GraphOps.ObserveEdgeSpec | TrialGraph.java:149-152 | the steps before addInvolvedEdge add both nodes, file edge(drug, effect) and give it the one contribution (key, ±phase) |
| GraphOps.ObserveEdgeInvolved | TrialGraph.java:149-152 | those steps leave the lists as they were, with an empty list for a new effect node |
| GraphOps.ObserveEdgeCoherent | TrialGraph.java:149-152 | those steps keep the graph coherent and give the effect node a list |
| GraphOps.Observe | TrialGraph.java:149-153 | observing a parsed line keeps the graph coherent |
| GraphOps.ObserveSpec | TrialGraph.java:149-153 | a parsed line adds both its nodes, files its key, and adds ±phase to edge(drug, effect) and to no other edge |
| GraphOps.ObserveLists | TrialGraph.java:153 | the line's edge joins the effect node's list unless a listed drug equals the drug ignoring case; no other list changes |
| GraphOps.ListUpdate | TrialGraph.java:153 | the list update stated on the states before and after addInvolvedEdge |
| GraphOps.ObserveValid | TrialGraph.java:149-153 | observing a line keeps the graph valid |
| GraphOps.ObserveEdgeValid | TrialGraph.java:149-152 | so do the steps before addInvolvedEdge |
| GraphOps.StringToNodes | TrialGraph.java:134-160 | stringToNodes keeps the graph coherent |
| GraphOps.StringToNodesSpec | TrialGraph.java:134-160 | a malformed line (no '~', fewer than three fields, a phase that is not an int) leaves the graph unchanged; a parsed line adds its nodes and its one contribution |
| GraphOps.StringToNodesValid | TrialGraph.java:134-160 | stringToNodes keeps the graph valid |
| GraphOps.Load | TrialGraph.java:43-52 | the reader loop keeps the graph coherent |
| GraphOps.LoadSpec | TrialGraph.java:43-52 | loading adds the nodes the lines name and raises every weight by the total its lines contribute |
| GraphOps.LoadValid | TrialGraph.java:43-52 | loading keeps the graph valid |
| GraphOps.LoadedGraphWeight | TrialGraph.java:43-52 | after loading into the empty graph, edge(d, x) weighs the sum over the lines of their ±phase for d and x; an edge exists exactly for the keys of the lines that parse |
| GraphOps.ConnectPair | TrialGraph.java:101-117 | one pair keeps the nodes and the lists |
| GraphOps.ConnectPairSpec | TrialGraph.java:101-117 | one pair of an effect node's edges adds interConnectWeight to the edge between their drugs, or nothing for equal edges; no drug–effect edge changes |
| GraphOps.ConnectRow | TrialGraph.java:98-119 | the inner loop keeps the nodes and the lists |
| GraphOps.ConnectRowSpec | TrialGraph.java:98-119 | the inner loop adds the contributions of the pairs (i, j) in order, and changes no drug–effect edge |
| GraphOps.ConnectGrid | TrialGraph.java:97-120 | the outer loop keeps the nodes and the lists |
| GraphOps.ConnectGridSpec | TrialGraph.java:97-120 | the outer loop adds the contributions of every pair i < j in loop order, and changes no drug–effect edge |
| GraphOps.ConnectRowReads | TrialGraph.java:99-100 | inside the inner loop, the list still reads the edges it held on entry |
| GraphOps.ConnectGridReads | TrialGraph.java:97-100 | before each row, the list still reads the edges it held on entry |
| GraphOps.InterConnect | TrialGraph.java:94-121 | interConnect keeps the nodes and the lists |
| GraphOps.InterConnectSpec | TrialGraph.java:94-121 | interConnect adds interConnectWeight(w(A, E), w(B, E)) to edge(A, B) for every pair of distinct listed edges, and changes no drug–effect edge |
| GraphOps.VisitNodes | TrialGraph.java:72-86 | the prune loop keeps the nodes and the lists |
| GraphOps.VisitNodesSpec | TrialGraph.java:72-86 | the prune loop adds the interconnections of each effect node in iteration order |
| GraphOps.EnumeratedResolvable | TrialGraph.java:72-80 | every effect node the loop meets has a list to walk |
| GraphOps.PruneSpec | TrialGraph.java:66-88 | after pruning: the nodes are exactly the former plain nodes; there are no lists; every weight is the total the interconnect loops contribute under its key, which PrunedWeight gives in closed form; every edge joins two distinct drugs; a graph without effect nodes keeps its nodes and has no edges |
| GraphOps.ListedWeight | TrialGraph.java:149-153 | the edge an effect node lists for drug a is the edge filed under the key of addEdge(a, node), so its weight is that key's weight |
| GraphOps.PrunedWeight | TrialGraph.java:66-121 | after pruning, edge(a, b) weighs the sum, over the effect nodes E whose lists hold edges to both a and b (a ≠ b), of interConnectWeight(w(a, E), w(b, E)) with the weights before pruning |
| GraphOps.PruneTwice | TrialGraph.java:68 | a second prune keeps the nodes and leaves the edge map empty |
| TrialGraph.TrialGraph.constructor | TrialGraph.java:24-28 | the new graph is empty |
| TrialGraph.TrialGraph.AddNode | TrialGraph.java:180-187 | the new state is the get-or-create of AddNodeSpec |
| TrialGraph.TrialGraph.AddEdge | TrialGraph.java:166-174 | the new state and returned edge are those of AddEdgeSpec |
| TrialGraph.TrialGraph.AddWeight | TrialGraph.java:152 | the new state is that of AddWeightSpec |
| TrialGraph.TrialGraph.AddInvolvedEdge | TrialGraph.java:289-297 | the contains-loop finds an equal edge exactly as AddInvolvedEdgeSpec states; the new list and result follow |
| TrialGraph.TrialGraph.StringToNodes | TrialGraph.java:134-160 | the new state is that of StringToNodesSpec |
| TrialGraph.TrialGraph.AddNodeCoherent | TrialGraph.java:149-150 | the graph between the two addNode calls is coherent |
| TrialGraph.TrialGraph.LoadGraph | TrialGraph.java:37-59 | the reader loop ends in the state of LoadSpec |
| TrialGraph.TrialGraph.InterConnect | TrialGraph.java:94-121 | the loops, reading the list at each step, end in the state of InterConnectSpec |
| TrialGraph.TrialGraph.ConnectRow | TrialGraph.java:98-119 | the inner loop ends in the state of ConnectRowSpec |
| TrialGraph.TrialGraph.ConnectPair | TrialGraph.java:99-117 | one pair of listed edges gives the state of ConnectPairSpec |
| TrialGraph.TrialGraph.PruneEffectNodes | TrialGraph.java:66-88 | clearing, the loop and the node-map swap end in the state of PruneSpec |
| TrialGraph.TrialGraph.VisitNodes | TrialGraph.java:72-86 | the loop ends in the state of VisitNodesSpec, having collected exactly the plain nodes |
| TrialGraph.TrialGraph.PruneLinked | TrialGraph.java:79-80 | every effect node of a loaded graph lists edges to drugs |
| FPMiner.SetOfMembers | FPMiner.java:100-104 | the HashSet of a row holds exactly the row's names |
| FPMiner.DistinctTokensMembers | FPMiner.java:46-50 | the candidates are exactly the names that occur in some row, compared exactly |
| FPMiner.OccursCounted | FPMiner.java:68-75 | a name occurring in a row counts at least once towards its support |
| FPMiner.FrequentOneMembers | FPMiner.java:64-79 | a name is a 1-pattern exactly when it is a candidate whose support reaches minSupport |
| FPMiner.FrequentOneDistinct | FPMiner.java:64-79 | the 1-patterns of a duplicate-free enumeration are duplicate-free, and no more numerous |
| FPMiner.MinedOnePatterns | FPMiner.java:27-28 | the 1-patterns of the candidates are distinct candidates with enough support |
| FPMiner.PairSupportBounds | FPMiner.java:99-107 | pair support is at most the number of rows and at most the support of either name, and it is symmetric |
| FPMiner.PairRowMembers | FPMiner.java:92-113 | the inner loop reports exactly the frequent pairs (i, k), i < k, with different names |
| FPMiner.PairGridMembers | FPMiner.java:91-115 | both loops report exactly the frequent pairs below row i |
| FPMiner.FrequentTwoMembers | FPMiner.java:91-115 | "s1, s2" is reported exactly for positions i < j with different names and at least minSupport rows holding both; the diagonal is never reported |
| FPMiner.FrequentTwoOfDistinct | FPMiner.java:96 | on distinct 1-patterns, every pair i < j with enough supporting rows is reported |
| FPMiner.FrequentTwoSupport | FPMiner.java:109-111 | a reported pair has support of at least minSupport, and at most each name's support and the number of rows |
| FPMiner.RowSet | FPMiner.java:100-104 | the loop of set.add builds the set of the row's names |
| FPMiner.GetDistinctDrugs | FPMiner.java:40-59 | the nested loops collect the candidate set |
| FPMiner.CountSupport | FPMiner.java:65-75 | the counting loops compute the support of one candidate |
| FPMiner.GetFrequentOnePatterns | FPMiner.java:61-86 | the loop returns the 1-patterns in enumeration order |
| FPMiner.CountPairSupport | FPMiner.java:97-108 | the row loop counts the rows whose set holds both names |
| FPMiner.GetFrequentTwoPatterns | FPMiner.java:88-121 | the nested loops return the 2-patterns in (i, j) order |
| FPMiner.MineFrequentPatterns | FPMiner.java:24-38 | the pipeline returns the 2-patterns of the 1-patterns of the iteration of the candidate set |
| TrialReader.GetPhase | TrialReader.java:167-175 | the result is one character: the last of a seven-character text, otherwise "0" |
| TrialReader.TaggedLines | TrialReader.java:83-93 | one line per effect name |
| TrialReader.TaggedLinesShape | TrialReader.java:83-93 | line k is intervention~name_k!tag!phase |
| TrialReader.InterventionLines | TrialReader.java:83-104 | one line per event and per condition |
| TrialReader.InterventionLinesShape | TrialReader.java:83-104 | an intervention's event lines come first, in event order, then its condition lines |
| TrialReader.DatabaseStringsLength | TrialReader.java:82-105 | a trial gives \|interventions\| * (\|events\| + \|conditions\|) lines |
| TrialReader.DatabaseStringsAt | TrialReader.java:82-105 | intervention-major order: line a*w + k is line k of intervention a's block |
| TrialReader.DatabaseLineAt | TrialReader.java:84-103 | line a*w + b is i~e!e!phase for an event b, and i~c!c!phase for a condition b - \|events\| |
| TrialReader.TildeSplit | TrialGraph.java:136 | such a line splits on '~' into the intervention and the rest |
| TrialReader.FieldSplit | TrialGraph.java:138 | the rest splits on '!' into effect, tag and phase |
| TrialReader.GraphLineRoundTrip | TrialReader.java:84-103 | a generated line splits back, as stringToNodes splits it, into intervention, effect, tag and phase text, and parses exactly when the phase text is an int |
| TrialReader.PhaseLineParse | TrialReader.java:169-174 | a line with getPhase's character parses exactly when that character is a digit, with that digit as the phase |
| TrialReader.DatabaseLinesParse | TrialReader.java:82-106 | every line of a trial parses back to its intervention and effect, as an event (-phase) or a condition (+phase), or not at all when the phase character is not a digit |
| TrialReader.GenerateDatabaseStrings | TrialReader.java:75-107 | the nested loops build exactly the trial's lines |
| TrialReader.FPStringAppend | TrialReader.java:156-158 | one more name appends name + "!" to the row |
| TrialReader.FPStringLength | TrialReader.java:156-159 | the row holds every name and one '!' each, so it is empty exactly when there are no interventions |
| TrialReader.FPStringPieces | TrialReader.java:156-159 | the pieces of a row of '!'-free names are the names and one empty tail |
| TrialReader.FPRowRoundTrip | TrialReader.java:156-159 | a written row of non-empty, '!'-free names splits back, as the miner splits it, into the names |
| TrialReader.GenerateFPString | TrialReader.java:152-160 | the loop builds exactly the row |

## Left out

- Hash-bucket behaviour. Lookups are exact-key maps. A node is keyed by its exact name and its kind, and an edge by its stored endpoint pair.
  - `TrialNode.hashCode` is case-sensitive while `equals` ignores case (TrialGraph.java:268-270). Case variants of one node name therefore meet only when their hashes share a bucket. The model keeps them apart.
  - `TrialEdge.hashCode` is the exact name of `node1` alone (TrialGraph.java:368-369). Edges with the same `node1` whose `node2` names differ only in case, such as (Aspirin, headache) and (Aspirin, Headache), always share a bucket, so the source always merges them into one edge. The model keeps them as two edges under two keys.
- A name used both as a drug and as an effect. The model keeps the drug node and the effect node apart, and the source does not always do so.
  - The source's merge is one-way and depends on line order. `TrialNode.equals` accepts an EffectNode (TrialGraph.java:257-258), but `EffectNode.equals` rejects a TrialNode (TrialGraph.java:304-305). So only `addNode` of a drug can return an effect node already in its bucket (TrialGraph.java:180-187).
  - Example corpus `X~Y!c!1`, `Y~Z!c!2`, `W~Z!c!3`. On the second line the drug Y becomes the effect node Y. Z then lists edge(Y, Z) and edge(W, Z). interConnect takes Z as the endpoint of the first edge (TrialGraph.java:104-114). The source's prune therefore leaves edge(W, Z) of weight 2.5, which points at a dropped effect node. The model builds edge(W, Y) instead.
  - GraphOps.LoadedGraphWeight, GraphOps.PruneSpec, GraphOps.PrunedWeight and GraphSpec.PruneJoinsDrugs therefore describe the source only for corpora in which no name, ignoring case, is both a drug and an effect. The source's post-prune edge to an effect node is not modelled.
- JavaStrings.ParseInt: accepts only the ASCII digits '0'..'9'. `Integer.parseInt` (TrialGraph.java:147) also accepts every other Unicode decimal digit, so a line such as `a~b!c!٣` (U+0663) has phase 3 in the source but is a malformed no-op here. JavaStrings.ParseOneChar, TrialReader.PhaseLineParse and TrialReader.DatabaseLinesParse inherit this restriction.
- `addNode` returns a node, which the model does not return: a node is its value, so the returned node is always the argument.
- The `occurrences` field of TrialEdge (TrialGraph.java:322, 326) is never read.
- Weights are exact reals, not IEEE doubles. `TrialEdge.toString` number formatting is not modelled.
- HashMap/HashSet iteration order is an arbitrary duplicate-free sequence parameter, for `pruneEffectNodes` and for the candidate set of the miner.
- All file I/O, directory listing and exception printing are left out. This covers `loadGraph`'s reader and the file rereads of FPMiner (including the unused reader at FPMiner.java:26), `printGraphToFile`, `generateIndirectDatabase` and `generateFPDatabase`. Their files are sequences of lines here.
- Progress logging, timing and the `main` methods are left out, including the top/bottom-50 report with `EdgeWeightComparator`.
- The XML extraction is not part of this model. This is XMLReader.java and the DOM helpers of TrialReader: `getMeshInterventionNames`, `getEventTitles`, `getMeshTreatedConditions`, `getInterventionNames`, `getTreatedConditions`, and the DOM lookup of `getPhase`. Their results are parameters.
- `compareToIgnoreCase` folds ASCII letters only; Java's Unicode case mapping is not modelled.
- GraphOps.ConnectPair: the function does no `weight +=` when addEdge returns a slot outside the arena. ConnectPairSpec shows this never happens on a graph whose edge map is filed, which every caller has. The guard only keeps the function total.
- GraphOps.InterConnect: reads the effect node's list once, on entry, whereas the source rereads it at each step. The class method TrialGraph.InterConnect does reread at each step. ConnectRowReads and ConnectGridReads prove the two agree, because no drug–effect edge changes while the loops run.
