/**
 * The operations of TrialGraph as functions from one graph state to the
 * next.  Each function does what the corresponding Java method does to the
 * node map, the edge map, the edge objects and the effect nodes' lists;
 * the lemma after it says what that means for the shape of the graph and
 * for its weights.  The class in TrialGraph performs the same steps in place.
 */
module GraphOps {
  import opened JavaStrings
  import opened Accumulation
  import opened GraphModel
  import opened GraphSpec

  /** The state of a TrialGraph: node map, edge map, edge objects, involved-edge lists. */
  datatype Graph = Graph(nodes: set<Node>, edges: map<EdgeKey, nat>, arena: seq<Edge>, involved: map<Node, seq<nat>>)

  /**
   * What the operations need in order to be defined: every filed slot holds
   * its edge, every effect node has a list, and every listed slot exists.
   */
  ghost predicate Coherent(g: Graph)
  {
    && EdgesFiled(g.edges, g.arena)
    && (forall n | n in g.nodes && n.kind == Effect :: n in g.involved)
    && (forall n | n in g.involved :: IndicesIn(g.involved[n], g.arena))
  }

  /** A loaded graph: shaped, and every listed edge is the one the edge map holds for its key. */
  ghost predicate Valid(g: Graph)
  {
    Shaped(g.nodes, g.edges, g.arena, g.involved) && ListsIndexed(g.edges, g.arena, g.involved)
  }

  lemma ValidCoherent(g: Graph)
    requires Valid(g)
    ensures Coherent(g)
  {
    forall n | n in g.involved
      ensures IndicesIn(g.involved[n], g.arena)
    {
      assert EffectList(n, g.involved[n], g.arena, g.nodes);
    }
  }

  /** The graph before loadGraph. */
  function EmptyGraph(): (g: Graph)
    ensures Valid(g) && g.nodes == {} && g.edges == map[]
  {
    Graph({}, map[], [], map[])
  }

  // ---------------------------------------------------------------------
  // addNode, addEdge, the weight update, addInvolvedEdge

  /** addNode: get-or-create; a new effect node starts with an empty list. */
  function AddNode(g: Graph, node: Node): Graph
  {
    if node in g.nodes then g
    else g.(nodes := g.nodes + {node}, involved := if node.kind == Plain then g.involved else g.involved[node := []])
  }

  /**
   * The node is present afterwards and nothing else joins; edges are
   * untouched and an existing effect node keeps its list.
   */
  lemma AddNodeSpec(g: Graph, node: Node)
    ensures var r := AddNode(g, node);
            && r.nodes == g.nodes + {node} && r.edges == g.edges && r.arena == g.arena
            && (node in g.nodes ==> r == g)
            && (node !in g.nodes && node.kind == Plain ==> r.involved == g.involved)
            && (node !in g.nodes && node.kind == Effect ==> r.involved == g.involved[node := []])
  {
  }

  lemma AddNodeValid(g: Graph, node: Node)
    requires Valid(g)
    ensures Valid(AddNode(g, node))
  {
    if node !in g.nodes {
      AddNodeShaped(g, node);
      AddNodeIndexed(g, node);
    }
  }

  lemma AddNodeShaped(g: Graph, node: Node)
    requires Shaped(g.nodes, g.edges, g.arena, g.involved) && node !in g.nodes
    ensures var r := AddNode(g, node); Shaped(r.nodes, r.edges, r.arena, r.involved)
  {
    var r := AddNode(g, node);
    WellLinkedGrows(g.involved, r.involved, g.arena, g.nodes, r.nodes);
  }

  lemma AddNodeIndexed(g: Graph, node: Node)
    requires ListsIndexed(g.edges, g.arena, g.involved) && node !in g.nodes
    requires forall n | n in g.involved :: n in g.nodes
    ensures var r := AddNode(g, node); ListsIndexed(r.edges, r.arena, r.involved)
  {
  }

  /**
   * addEdge: get-or-create under the key of `new TrialEdge(a, b)`.  An
   * existing edge is returned; otherwise the new edge is filed.
   */
  function AddEdge(g: Graph, a: Node, b: Node): (Graph, nat)
  {
    var newEdge := NewEdge(a, b);
    var key := KeyOf(newEdge);
    if key in g.edges then (g, g.edges[key])
    else (g.(edges := g.edges[key := |g.arena|], arena := g.arena + [newEdge]), |g.arena|)
  }

  /**
   * The returned slot holds an edge under the key of (a, b) and is filed
   * there; an existing edge is reused, otherwise one fresh edge of weight 0
   * is appended.  No weight changes.
   */
  lemma AddEdgeSpec(g: Graph, a: Node, b: Node)
    requires EdgesFiled(g.edges, g.arena)
    ensures var (r, idx) := AddEdge(g, a, b);
            && r.nodes == g.nodes && r.involved == g.involved
            && idx < |r.arena| && KeyOf(r.arena[idx]) == EdgeKeyOf(a, b)
            && r.edges == g.edges[EdgeKeyOf(a, b) := idx]
            && (EdgeKeyOf(a, b) in g.edges ==> r == g && idx == g.edges[EdgeKeyOf(a, b)])
            && (EdgeKeyOf(a, b) !in g.edges ==> idx == |g.arena| && r.arena == g.arena + [NewEdge(a, b)])
            && EdgesFiled(r.edges, r.arena)
            && (forall k :: WeightOf(r.edges, r.arena, k) == WeightOf(g.edges, g.arena, k))
            && Kept(g.arena, r.arena)
  {
  }

  lemma AddEdgeValid(g: Graph, a: Node, b: Node)
    requires Valid(g)
    ensures Valid(AddEdge(g, a, b).0)
  {
    var (r, idx) := AddEdge(g, a, b);
    if EdgeKeyOf(a, b) !in g.edges {
      WellLinkedKept(g.involved, g.arena, r.arena, g.nodes);
    }
  }

  /**
   * addEdge(a, b) then addEdge(b, a) returns the same edge the second time
   * and leaves the graph as the first call left it, which filed at most one
   * new key.
   */
  lemma AddEdgeTwice(g: Graph, a: Node, b: Node)
    requires EdgesFiled(g.edges, g.arena) && NodeCompare(a, b) != 0
    ensures var (g1, i1) := AddEdge(g, a, b);
            var (g2, i2) := AddEdge(g1, b, a);
            && g2 == g1 && i2 == i1
            && g1.edges.Keys == g.edges.Keys + {EdgeKeyOf(a, b)}
  {
    EdgeSymmetricIdentity(a, b);
    AddEdgeSpec(g, a, b);
  }

  /** `edge.weight += w` on the edge in slot `idx`. */
  function AddWeight(g: Graph, idx: nat, w: real): Graph
    requires idx < |g.arena|
  {
    g.(arena := g.arena[idx := g.arena[idx].(weight := g.arena[idx].weight + w)])
  }

  /**
   * On a filed slot only the weight under its key grows, by w; endpoints
   * never change, and an edge between plain nodes leaves every
   * drug–effect edge as it was.
   */
  lemma AddWeightSpec(g: Graph, idx: nat, w: real)
    requires idx < |g.arena| && EdgesFiled(g.edges, g.arena)
    requires KeyOf(g.arena[idx]) in g.edges && g.edges[KeyOf(g.arena[idx])] == idx
    ensures var r := AddWeight(g, idx, w);
            && r.nodes == g.nodes && r.edges == g.edges && r.involved == g.involved
            && |r.arena| == |g.arena| && KeyOf(r.arena[idx]) == KeyOf(g.arena[idx])
            && EdgesFiled(r.edges, r.arena)
            && (forall k :: WeightOf(r.edges, r.arena, k) == WeightOf(g.edges, g.arena, k) + (if k == KeyOf(g.arena[idx]) then w else 0.0))
            && SameEnds(g.arena, r.arena)
            && (!HasEffectEnd(g.arena[idx]) ==> Kept(g.arena, r.arena))
  {
  }

  lemma AddWeightValid(g: Graph, idx: nat, w: real)
    requires idx < |g.arena| && Valid(g)
    ensures Valid(AddWeight(g, idx, w))
  {
    WellLinkedKept(g.involved, g.arena, AddWeight(g, idx, w).arena, g.nodes);
  }

  /** EffectNode.addInvolvedEdge: append unless an equal edge is listed already. */
  function AddInvolvedEdge(g: Graph, n: Node, idx: nat): (Graph, bool)
    requires n in g.involved && IndicesIn(g.involved[n], g.arena) && idx < |g.arena|
  {
    var list := g.involved[n];
    if exists j | 0 <= j < |list| :: EdgeEquals(g.arena[idx], g.arena[list[j]]) then (g, false)
    else (g.(involved := g.involved[n := list + [idx]]), true)
  }

  /**
   * The list is a set under TrialEdge.equals: the edge is appended, and
   * true returned, exactly when no listed edge equals it; nothing else
   * changes.
   */
  lemma AddInvolvedEdgeSpec(g: Graph, n: Node, idx: nat)
    requires n in g.involved && IndicesIn(g.involved[n], g.arena) && idx < |g.arena|
    ensures var (r, added) := AddInvolvedEdge(g, n, idx);
            var list := g.involved[n];
            && r.nodes == g.nodes && r.edges == g.edges && r.arena == g.arena
            && (added <==> forall j | 0 <= j < |list| :: !EdgeEquals(g.arena[idx], g.arena[list[j]]))
            && r.involved == g.involved[n := if added then list + [idx] else list]
  {
  }

  /**
   * For an edge of the effect node itself, the edge is added exactly when
   * no listed drug equals its drug ignoring case.
   */
  lemma AddInvolvedEdgeDrugs(g: Graph, n: Node, idx: nat)
    requires n in g.involved && idx < |g.arena|
    requires LinksTo(g.arena[idx], n) && LinksAll(n, g.involved[n], g.arena)
    ensures AddInvolvedEdge(g, n, idx).1 <==>
              forall j | 0 <= j < |g.involved[n]| :: NodeCompare(Other(g.arena[g.involved[n][j]]), Other(g.arena[idx])) != 0
  {
    var list := g.involved[n];
    forall j | 0 <= j < |list|
      ensures EdgeEquals(g.arena[idx], g.arena[list[j]]) <==> NodeCompare(Other(g.arena[list[j]]), Other(g.arena[idx])) == 0
    {
      LinkedEdgeEquals(g.arena[idx], g.arena[list[j]], n);
      CompareAntisymmetric(Other(g.arena[idx]).name, Other(g.arena[list[j]]).name);
    }
  }

  /** Adding a filed edge of the node, to a drug of the graph, keeps the graph valid. */
  lemma AddInvolvedEdgeValid(g: Graph, n: Node, idx: nat)
    requires Valid(g) && n in g.involved && idx < |g.arena|
    requires LinksTo(g.arena[idx], n) && Other(g.arena[idx]) in g.nodes
    requires KeyOf(g.arena[idx]) in g.edges && g.edges[KeyOf(g.arena[idx])] == idx
    requires KeyOf(g.arena[idx]) == EdgeKeyOf(Other(g.arena[idx]), n)
    ensures IndicesIn(g.involved[n], g.arena) && Valid(AddInvolvedEdge(g, n, idx).0)
  {
    var list := g.involved[n];
    assert EffectList(n, list, g.arena, g.nodes);
    assert LinksAll(n, list, g.arena);
    if AddInvolvedEdge(g, n, idx).1 {
      AddInvolvedEdgeDrugs(g, n, idx);
      EffectListAppend(n, list, idx, g.arena, g.nodes);
      WellLinkedUpdate(g.involved, n, list + [idx], g.arena, g.nodes);
      ListsIndexedAppend(g.edges, g.arena, g.involved, n, idx);
    }
  }

  // ---------------------------------------------------------------------
  // stringToNodes and the reader loop of loadGraph

  /** The effect node's list before an observation of it: addNode creates a new node with an empty list. */
  function ListOf(g: Graph, effect: Node): seq<nat>
  {
    if effect in g.nodes && effect in g.involved then g.involved[effect] else []
  }

  /** The state of an observation before addInvolvedEdge, and the slot of its edge. */
  function ObserveEdge(g: Graph, p: Parsed): (Graph, nat)
    requires Coherent(g)
  {
    var effectNode, drugNode := Node(p.effect, Effect), Node(p.drug, Plain);
    var g1 := AddNode(g, effectNode);
    var g2 := AddNode(g1, drugNode);
    AddNodeSpec(g, effectNode);
    AddNodeSpec(g1, drugNode);
    var (g3, newEdge) := AddEdge(g2, drugNode, effectNode);
    AddEdgeSpec(g2, drugNode, effectNode);
    (AddWeight(g3, newEdge, Delta(p)), newEdge)
  }

  /**
   * Before addInvolvedEdge, an observation has added both nodes, filed
   * edge(drug, effect) and added the line's delta to it, and left the lists
   * as they were (a new effect node's list empty).
   */
  lemma ObserveEdgeSpec(g: Graph, p: Parsed)
    requires Coherent(g)
    ensures var (h, e) := ObserveEdge(g, p);
            var effect, drug := Node(p.effect, Effect), Node(p.drug, Plain);
            && h.nodes == g.nodes + {drug, effect}
            && e < |h.arena| && LinksTo(h.arena[e], effect) && Other(h.arena[e]) == drug
            && KeyOf(h.arena[e]) == ObservationKey(p) && ObservationKey(p) in h.edges && h.edges[ObservationKey(p)] == e
            && EdgesFiled(h.edges, h.arena) && SameEnds(g.arena, h.arena)
            && Adds(g.edges, g.arena, h.edges, h.arena, [Contribution(ObservationKey(p), Delta(p))])
  {
    var effect, drug := Node(p.effect, Effect), Node(p.drug, Plain);
    var g1 := AddNode(g, effect);
    var g2 := AddNode(g1, drug);
    AddNodeSpec(g, effect);
    AddNodeSpec(g1, drug);
    var (g3, e) := AddEdge(g2, drug, effect);
    AddEdgeSpec(g2, drug, effect);
    AddWeightSpec(g3, e, Delta(p));
    var h := AddWeight(g3, e, Delta(p));
    AddsStep(g2.edges, g2.arena, g3.edges, g3.arena, h.edges, h.arena, ObservationKey(p), Delta(p));
    assert h.arena[e].node1 == g3.arena[e].node1 && h.arena[e].node2 == g3.arena[e].node2;
  }

  /** Before addInvolvedEdge the lists are as they were, a new effect node's list empty. */
  lemma ObserveEdgeInvolved(g: Graph, p: Parsed)
    requires Coherent(g)
    ensures ObserveEdge(g, p).0.involved == g.involved[Node(p.effect, Effect) := ListOf(g, Node(p.effect, Effect))]
  {
    var effect, drug := Node(p.effect, Effect), Node(p.drug, Plain);
    AddNodeSpec(g, effect);
    AddNodeSpec(AddNode(g, effect), drug);
  }

  /** The steps before addInvolvedEdge keep the graph coherent, with a list for the effect node. */
  lemma ObserveEdgeCoherent(g: Graph, p: Parsed)
    requires Coherent(g)
    ensures var (h, e) := ObserveEdge(g, p);
            Coherent(h) && Node(p.effect, Effect) in h.involved && e < |h.arena|
  {
    var effect := Node(p.effect, Effect);
    ObserveEdgeSpec(g, p);
    ObserveEdgeInvolved(g, p);
    var (h, e) := ObserveEdge(g, p);
    forall n | n in h.involved
      ensures IndicesIn(h.involved[n], h.arena)
    {
      if n != effect {
        assert h.involved[n] == g.involved[n];
      }
    }
  }

  /** The graph half of stringToNodes for a parsed line: the steps above, then addInvolvedEdge. */
  function Observe(g: Graph, p: Parsed): (r: Graph)
    requires Coherent(g)
    ensures Coherent(r)
  {
    ObserveEdgeCoherent(g, p);
    var (h, newEdge) := ObserveEdge(g, p);
    AddInvolvedEdgeSpec(h, Node(p.effect, Effect), newEdge);
    AddInvolvedEdge(h, Node(p.effect, Effect), newEdge).0
  }

  /**
   * Observing a parsed line: both nodes are present afterwards; the weight
   * of edge(drug, effect) grows by the line's delta and no other weight
   * changes.
   */
  lemma ObserveSpec(g: Graph, p: Parsed)
    requires Coherent(g)
    ensures var r := Observe(g, p);
            && r.nodes == g.nodes + {Node(p.drug, Plain), Node(p.effect, Effect)}
            && ObservationKey(p) in r.edges
            && Adds(g.edges, g.arena, r.edges, r.arena, [Contribution(ObservationKey(p), Delta(p))])
  {
    ObserveEdgeSpec(g, p);
    ObserveEdgeInvolved(g, p);
    ObserveEdgeCoherent(g, p);
    var (h, e) := ObserveEdge(g, p);
    AddInvolvedEdgeSpec(h, Node(p.effect, Effect), e);
  }

  /**
   * The edge of an observation joins the effect node's list unless a
   * listed drug equals the drug ignoring case; no other list changes.
   */
  lemma ObserveLists(g: Graph, p: Parsed)
    requires Coherent(g) && LinksAll(Node(p.effect, Effect), ListOf(g, Node(p.effect, Effect)), g.arena)
    ensures var r := Observe(g, p);
            var effect, drug := Node(p.effect, Effect), Node(p.drug, Plain);
            var before := ListOf(g, effect);
            && ObservationKey(p) in r.edges
            && r.involved == g.involved[effect := if forall j | 0 <= j < |before| :: NodeCompare(Other(g.arena[before[j]]), drug) != 0
                                                  then before + [r.edges[ObservationKey(p)]] else before]
  {
    var effect, drug := Node(p.effect, Effect), Node(p.drug, Plain);
    ObserveEdgeSpec(g, p);
    ObserveEdgeInvolved(g, p);
    ObserveEdgeCoherent(g, p);
    var (h, e) := ObserveEdge(g, p);
    LinksAllEnds(effect, ListOf(g, effect), g.arena, h.arena);
    AddInvolvedEdgeSpec(h, effect, e);
    AddInvolvedEdgeDrugs(h, effect, e);
    ListUpdate(g, h, e, AddInvolvedEdge(h, effect, e), effect, drug, ObservationKey(p));
  }

  /** The list update of an observation, stated on the states before and after addInvolvedEdge. */
  lemma ListUpdate(g: Graph, h: Graph, e: nat, ra: (Graph, bool), effect: Node, drug: Node, key: EdgeKey)
    requires h.involved == g.involved[effect := ListOf(g, effect)]
    requires e < |h.arena| && Other(h.arena[e]) == drug && key in h.edges && h.edges[key] == e
    requires IndicesIn(ListOf(g, effect), g.arena) && IndicesIn(ListOf(g, effect), h.arena)
    requires forall q | 0 <= q < |ListOf(g, effect)| :: Other(h.arena[ListOf(g, effect)[q]]) == Other(g.arena[ListOf(g, effect)[q]])
    requires ra.0.edges == h.edges
    requires ra.0.involved == h.involved[effect := if ra.1 then h.involved[effect] + [e] else h.involved[effect]]
    requires ra.1 <==> forall j | 0 <= j < |h.involved[effect]| :: NodeCompare(Other(h.arena[h.involved[effect][j]]), Other(h.arena[e])) != 0
    ensures var before := ListOf(g, effect);
            && key in ra.0.edges
            && ra.0.involved == g.involved[effect := if forall j | 0 <= j < |before| :: NodeCompare(Other(g.arena[before[j]]), drug) != 0
                                                     then before + [ra.0.edges[key]] else before]
  {
    var before := ListOf(g, effect);
    assert h.involved[effect] == before;
    assert ra.1 <==> forall j | 0 <= j < |before| :: NodeCompare(Other(g.arena[before[j]]), drug) != 0;
  }

  /** An observation keeps the graph valid. */
  lemma ObserveValid(g: Graph, p: Parsed)
    requires Valid(g)
    ensures Coherent(g) && Valid(Observe(g, p))
  {
    ValidCoherent(g);
    var effect, drug := Node(p.effect, Effect), Node(p.drug, Plain);
    ObserveEdgeValid(g, p);
    ObserveEdgeSpec(g, p);
    ObserveEdgeInvolved(g, p);
    ObserveEdgeCoherent(g, p);
    var (h, e) := ObserveEdge(g, p);
    assert drug in h.nodes;
    AddInvolvedEdgeValid(h, effect, e);
  }

  /** The steps before addInvolvedEdge keep the graph valid. */
  lemma ObserveEdgeValid(g: Graph, p: Parsed)
    requires Valid(g)
    ensures Coherent(g) && Valid(ObserveEdge(g, p).0)
  {
    ValidCoherent(g);
    var effect, drug := Node(p.effect, Effect), Node(p.drug, Plain);
    var g1 := AddNode(g, effect);
    AddNodeValid(g, effect);
    var g2 := AddNode(g1, drug);
    AddNodeValid(g1, drug);
    AddEdgeValid(g2, drug, effect);
    var (g3, e) := AddEdge(g2, drug, effect);
    AddNodeSpec(g, effect);
    AddNodeSpec(g1, drug);
    AddEdgeSpec(g2, drug, effect);
    AddWeightValid(g3, e, Delta(p));
  }

  /** stringToNodes: a line that does not parse changes nothing; one that parses is observed. */
  function StringToNodes(g: Graph, line: string): (r: Graph)
    requires Coherent(g)
    ensures Coherent(r)
  {
    match ParseLine(line)
    case None => g
    case Some(p) => Observe(g, p)
  }

  /**
   * A line that does not parse (every case in which the source catches an
   * exception) leaves the graph as it was; otherwise the line's nodes
   * join and its one contribution is made.
   */
  lemma StringToNodesSpec(g: Graph, line: string)
    requires Coherent(g)
    ensures var r := StringToNodes(g, line);
            && (ParseLine(line).None? ==> r == g)
            && r.nodes == g.nodes + LineNodes(line)
            && Adds(g.edges, g.arena, r.edges, r.arena, LineContribution(line))
  {
    match ParseLine(line)
    case None =>
      AddsNothing(g.edges, g.arena);
    case Some(p) =>
      ObserveSpec(g, p);
  }

  lemma StringToNodesValid(g: Graph, line: string)
    requires Valid(g)
    ensures Coherent(g) && Valid(StringToNodes(g, line))
  {
    ValidCoherent(g);
    match ParseLine(line)
    case None =>
    case Some(p) =>
      ObserveValid(g, p);
  }

  /** The reader loop of loadGraph: stringToNodes on every line in turn. */
  function Load(g: Graph, lines: seq<string>): (r: Graph)
    requires Coherent(g)
    ensures Coherent(r)
    decreases |lines|
  {
    if lines == [] then g
    else StringToNodes(Load(g, lines[..|lines| - 1]), lines[|lines| - 1])
  }

  /**
   * Loading adds the nodes the lines name and makes every weight grow by
   * the total its lines contribute.
   */
  lemma {:induction false} LoadSpec(g: Graph, lines: seq<string>)
    requires Coherent(g)
    ensures var r := Load(g, lines);
            && r.nodes == g.nodes + CorpusNodes(lines)
            && Adds(g.edges, g.arena, r.edges, r.arena, LineContributions(lines))
    decreases |lines|
  {
    if lines == [] {
      AddsNothing(g.edges, g.arena);
    } else {
      var init := lines[..|lines| - 1];
      LoadSpec(g, init);
      var h := Load(g, init);
      StringToNodesSpec(h, lines[|lines| - 1]);
      var r := StringToNodes(h, lines[|lines| - 1]);
      AddsCompose(g.edges, g.arena, h.edges, h.arena, r.edges, r.arena, LineContributions(init), LineContribution(lines[|lines| - 1]));
    }
  }

  /** Loading keeps the graph valid. */
  lemma {:induction false} LoadValid(g: Graph, lines: seq<string>)
    requires Valid(g)
    ensures Coherent(g) && Valid(Load(g, lines))
    decreases |lines|
  {
    ValidCoherent(g);
    if lines != [] {
      LoadValid(g, lines[..|lines| - 1]);
      StringToNodesValid(Load(g, lines[..|lines| - 1]), lines[|lines| - 1]);
    }
  }

  /**
   * After loading a corpus into the empty graph, the edge between drug d and
   * effect x weighs the sum over the lines of what each adds to it: +phase for
   * a condition line naming d and x, -phase for any other such line, 0 for
   * the rest; an edge exists exactly for the keys some parsed line names.
   */
  lemma LoadedGraphWeight(lines: seq<string>, d: string, x: string, k: EdgeKey)
    ensures var r := Load(EmptyGraph(), lines);
            && WeightOf(r.edges, r.arena, EdgeKeyOf(Node(d, Plain), Node(x, Effect))) == SumOf(lines, l => ObservedDelta(l, d, x))
            && (k in r.edges <==> exists l | l in lines :: LineTouches(l, k))
  {
    LoadSpec(EmptyGraph(), lines);
    LoadedEdgeWeight(lines, d, x, k);
  }

  // ---------------------------------------------------------------------
  // interConnect and pruneEffectNodes

  /** The list of effect node `n` can be walked: its slots exist. */
  predicate Walkable(g: Graph, n: Node)
  {
    n in g.involved && IndicesIn(g.involved[n], g.arena)
  }

  /** `r` is `g` after edges between drugs were created or reweighted: same nodes and lists, no slot lost. */
  predicate Extends(g: Graph, r: Graph)
  {
    r.nodes == g.nodes && r.involved == g.involved && |g.arena| <= |r.arena|
  }

  /**
   * The body of interConnect's inner loop for two listed edges: unless the
   * edges are equal, the edge between their drugs is fetched or created and
   * gains their interconnect weight.  On a filed edge map the slot addEdge
   * returns always exists (ConnectPairSpec); the guard keeps the function
   * total, so that the loops below need no invariant to be defined.
   */
  function ConnectPair(g: Graph, e1: Edge, e2: Edge): (r: Graph)
    ensures Extends(g, r)
  {
    if EdgeEquals(e1, e2) then g
    else
      var (g1, newEdge) := AddEdge(g, Other(e1), Other(e2));
      if newEdge < |g1.arena| then AddWeight(g1, newEdge, InterConnectWeight(e1.weight, e2.weight)) else g1
  }

  /**
   * A pair of edges of one effect node adds its one contribution, or
   * nothing for equal edges, and changes no drug–effect edge.
   */
  lemma ConnectPairSpec(g: Graph, n: Node, e1: Edge, e2: Edge)
    requires EdgesFiled(g.edges, g.arena) && LinksTo(e1, n) && LinksTo(e2, n)
    ensures var r := ConnectPair(g, e1, e2);
            && EdgesFiled(r.edges, r.arena) && Kept(g.arena, r.arena)
            && Adds(g.edges, g.arena, r.edges, r.arena, PairContribution(e1, e2))
  {
    if EdgeEquals(e1, e2) {
      AddsNothing(g.edges, g.arena);
    } else {
      var e1node, e2node := Other(e1), Other(e2);
      var (g1, newEdge) := AddEdge(g, e1node, e2node);
      AddEdgeSpec(g, e1node, e2node);
      var w := InterConnectWeight(e1.weight, e2.weight);
      AddWeightSpec(g1, newEdge, w);
      var r := AddWeight(g1, newEdge, w);
      KeptTransitive(g.arena, g1.arena, r.arena);
      AddsStep(g.edges, g.arena, g1.edges, g1.arena, r.edges, r.arena, EdgeKeyOf(e1node, e2node), w);
    }
  }

  /** interConnect's inner loop for position i of the listed edges `es`, up to (not including) position j. */
  function ConnectRow(g: Graph, es: seq<Edge>, i: nat, j: nat): (r: Graph)
    requires i < |es| && j <= |es|
    ensures Extends(g, r)
    decreases j
  {
    if j <= i + 1 then g else ConnectPair(ConnectRow(g, es, i, j - 1), es[i], es[j - 1])
  }

  lemma {:induction false} ConnectRowSpec(g: Graph, n: Node, es: seq<Edge>, i: nat, j: nat)
    requires EdgesFiled(g.edges, g.arena) && i < |es| && j <= |es| && Linked(n, es)
    ensures var r := ConnectRow(g, es, i, j);
            && EdgesFiled(r.edges, r.arena) && Kept(g.arena, r.arena)
            && Adds(g.edges, g.arena, r.edges, r.arena, RowTo(es, i, j))
    decreases j
  {
    if j <= i + 1 {
      AddsNothing(g.edges, g.arena);
    } else {
      ConnectRowSpec(g, n, es, i, j - 1);
      var h := ConnectRow(g, es, i, j - 1);
      ConnectPairSpec(h, n, es[i], es[j - 1]);
      var r := ConnectPair(h, es[i], es[j - 1]);
      assert r == ConnectRow(g, es, i, j);
      assert RowTo(es, i, j) == RowTo(es, i, j - 1) + PairContribution(es[i], es[j - 1]);
      KeptAddsCompose(g.edges, g.arena, h.edges, h.arena, r.edges, r.arena, RowTo(es, i, j - 1), PairContribution(es[i], es[j - 1]));
    }
  }

  /** interConnect's outer loop over the listed edges `es`, up to (not including) position i. */
  function ConnectGrid(g: Graph, es: seq<Edge>, i: nat): (r: Graph)
    requires i <= |es|
    ensures Extends(g, r)
    decreases i
  {
    if i == 0 then g else ConnectRow(ConnectGrid(g, es, i - 1), es, i - 1, |es|)
  }

  /** The outer loop over the listed edges `es` adds every pair below row i and changes no drug–effect edge. */
  lemma {:induction false} ConnectGridSpec(g: Graph, n: Node, es: seq<Edge>, i: nat)
    requires EdgesFiled(g.edges, g.arena) && i <= |es| && Linked(n, es)
    ensures var r := ConnectGrid(g, es, i);
            && EdgesFiled(r.edges, r.arena) && Kept(g.arena, r.arena)
            && Adds(g.edges, g.arena, r.edges, r.arena, GridTo(es, i))
    decreases i
  {
    if i == 0 {
      AddsNothing(g.edges, g.arena);
    } else {
      ConnectGridSpec(g, n, es, i - 1);
      var h := ConnectGrid(g, es, i - 1);
      ConnectRowSpec(h, n, es, i - 1, |es|);
      var r := ConnectRow(h, es, i - 1, |es|);
      assert r == ConnectGrid(g, es, i);
      assert GridTo(es, i) == GridTo(es, i - 1) + RowTo(es, i - 1, |es|);
      KeptAddsCompose(g.edges, g.arena, h.edges, h.arena, r.edges, r.arena, GridTo(es, i - 1), RowTo(es, i - 1, |es|));
    }
  }

  /**
   * Within interConnect's inner loop the listed edges at positions i and j
   * still read as they did on entry, and one more pair is one more step.
   */
  lemma ConnectRowReads(g: Graph, n: Node, i: nat, j: nat)
    requires EdgesFiled(g.edges, g.arena) && Walkable(g, n) && LinksAll(n, g.involved[n], g.arena)
    requires i < j < |g.involved[n]|
    ensures var es := Listed(g.arena, g.involved[n]);
            var h := ConnectRow(g, es, i, j);
            && EdgesFiled(h.edges, h.arena) && Walkable(h, n) && h.involved == g.involved
            && h.arena[g.involved[n][i]] == es[i] && h.arena[g.involved[n][j]] == es[j]
            && ConnectRow(g, es, i, j + 1) == ConnectPair(h, es[i], es[j])
  {
    var es := Listed(g.arena, g.involved[n]);
    ConnectRowSpec(g, n, es, i, j);
    LinksAllKept(n, g.involved[n], g.arena, ConnectRow(g, es, i, j).arena);
  }

  /**
   * Before row i of interConnect the list still reads the edges it held on
   * entry, and one more row is one more step.
   */
  lemma ConnectGridReads(g: Graph, n: Node, i: nat)
    requires EdgesFiled(g.edges, g.arena) && Walkable(g, n) && LinksAll(n, g.involved[n], g.arena)
    requires i < |g.involved[n]|
    ensures var es := Listed(g.arena, g.involved[n]);
            var h := ConnectGrid(g, es, i);
            && EdgesFiled(h.edges, h.arena) && Walkable(h, n) && h.involved == g.involved
            && LinksAll(n, g.involved[n], h.arena) && Listed(h.arena, g.involved[n]) == es
            && ConnectGrid(g, es, i + 1) == ConnectRow(h, es, i, |es|)
  {
    var es := Listed(g.arena, g.involved[n]);
    ConnectGridSpec(g, n, es, i);
    ListedKept(n, g.involved[n], g.arena, ConnectGrid(g, es, i).arena);
  }

  /**
   * interConnect: both loops over the effect node's list.  The listed edges
   * are read once; ConnectGridSpec shows that no drug–effect edge changes
   * while the loops run, so this is what reading them at each step gives.
   */
  function InterConnect(g: Graph, n: Node): (r: Graph)
    requires Walkable(g, n)
    ensures Extends(g, r)
  {
    var es := Listed(g.arena, g.involved[n]);
    ConnectGrid(g, es, |es|)
  }

  /**
   * interConnect adds interConnectWeight to the edge between the drugs of
   * every pair of listed edges that differ, in the order of the two loops,
   * and changes no drug–effect edge.
   */
  lemma InterConnectSpec(g: Graph, n: Node)
    requires EdgesFiled(g.edges, g.arena) && Walkable(g, n) && LinksAll(n, g.involved[n], g.arena)
    ensures var r := InterConnect(g, n);
            && EdgesFiled(r.edges, r.arena) && Kept(g.arena, r.arena)
            && Adds(g.edges, g.arena, r.edges, r.arena, InterConnectContributions(Listed(g.arena, g.involved[n])))
  {
    var es := Listed(g.arena, g.involved[n]);
    ConnectGridSpec(g, n, es, |es|);
  }

  /** The loop of pruneEffectNodes over the first p nodes of `order`: effect nodes are interconnected. */
  function VisitNodes(g: Graph, order: seq<Node>, p: nat): (r: Graph)
    requires Resolvable(order, g.involved, g.arena) && p <= |order|
    ensures Extends(g, r)
    decreases p
  {
    if p == 0 then g
    else
      var h := VisitNodes(g, order, p - 1);
      if order[p - 1].kind == Effect then InterConnect(h, order[p - 1]) else h
  }

  /** Every effect node of `order` has a list of edges linking it to drugs. */
  ghost predicate AllLinked(g: Graph, order: seq<Node>)
  {
    forall q | 0 <= q < |order| && order[q].kind == Effect :: order[q] in g.involved && LinksAll(order[q], g.involved[order[q]], g.arena)
  }

  lemma {:induction false} VisitNodesSpec(g: Graph, order: seq<Node>, p: nat)
    requires EdgesFiled(g.edges, g.arena) && Resolvable(order, g.involved, g.arena) && p <= |order| && AllLinked(g, order)
    ensures var r := VisitNodes(g, order, p);
            && EdgesFiled(r.edges, r.arena) && Kept(g.arena, r.arena)
            && Adds(g.edges, g.arena, r.edges, r.arena, PruneContributions(order, g.involved, g.arena, p))
    decreases p
  {
    if p == 0 {
      AddsNothing(g.edges, g.arena);
    } else {
      VisitNodesSpec(g, order, p - 1);
      var h := VisitNodes(g, order, p - 1);
      var n := order[p - 1];
      if n.kind == Effect {
        var idxs := g.involved[n];
        LinksAllKept(n, idxs, g.arena, h.arena);
        ListedKept(n, idxs, g.arena, h.arena);
        InterConnectSpec(h, n);
        var r := InterConnect(h, n);
        KeptTransitive(g.arena, h.arena, r.arena);
        PruneStep(order, g.involved, g.edges, g.arena, p - 1, h.edges, h.arena, r.edges, r.arena);
      } else {
        assert PruneContributions(order, g.involved, g.arena, p) == PruneContributions(order, g.involved, g.arena, p - 1);
      }
    }
  }

  /** The effect nodes of an enumeration of a coherent graph's nodes have walkable lists. */
  lemma EnumeratedResolvable(g: Graph, order: seq<Node>)
    requires Coherent(g) && Enumerates(order, g.nodes)
    ensures Resolvable(order, g.involved, g.arena)
  {
    forall q | 0 <= q < |order| && order[q].kind == Effect
      ensures order[q] in g.involved && IndicesIn(g.involved[order[q]], g.arena)
    {
      assert order[q] in g.nodes;
    }
  }

  /**
   * pruneEffectNodes, for the iteration order `order` of the node map:
   * clear the edge map, interconnect every effect node, keep exactly the
   * plain nodes.
   */
  function Prune(g: Graph, order: seq<Node>): (r: Graph)
    requires Coherent(g) && Enumerates(order, g.nodes)
  {
    EnumeratedResolvable(g, order);
    var h := VisitNodes(g.(edges := map[]), order, |order|);
    h.(nodes := PlainOf(order), involved := map[])
  }

  /**
   * After pruning the graph is valid; its nodes are exactly the plain
   * nodes; its edges are exactly the keys the interconnections touch, each
   * weighing what they add up to, and each joins two distinct drugs of the
   * graph; a graph without effect nodes keeps its nodes and loses its edges.
   */
  lemma PruneSpec(g: Graph, order: seq<Node>)
    requires Valid(g) && Enumerates(order, g.nodes)
    ensures Coherent(g) && Resolvable(order, g.involved, g.arena)
    ensures var r := Prune(g, order);
            && Valid(r)
            && (forall n :: n in r.nodes <==> n in g.nodes && n.kind == Plain)
            && r.involved == map[]
            && Adds(map[], g.arena, r.edges, r.arena, PruneContributions(order, g.involved, g.arena, |order|))
            && (forall k | k in r.edges :: DrugPair(k, r.nodes))
            && ((forall n | n in g.nodes :: n.kind == Plain) ==> r.nodes == g.nodes && r.edges == map[])
  {
    ValidCoherent(g);
    EnumeratedResolvable(g, order);
    var cleared := g.(edges := map[]);
    assert AllLinked(cleared, order) by {
      forall q | 0 <= q < |order| && order[q].kind == Effect
        ensures LinksAll(order[q], g.involved[order[q]], g.arena)
      {
        assert EffectList(order[q], g.involved[order[q]], g.arena, g.nodes);
      }
    }
    VisitNodesSpec(cleared, order, |order|);
    var h := VisitNodes(cleared, order, |order|);
    PrunedGraph(g.nodes, order, g.involved, g.arena, h.edges, h.arena, PlainOf(order));
  }

  /** The list of effect node n holds an edge to drug a. */
  predicate ListsDrug(g: Graph, n: Node, a: Node)
  {
    Walkable(g, n) && HasDrug(Listed(g.arena, g.involved[n]), a)
  }

  /** In a valid graph the listed edge to drug a is the edge filed under the key of addEdge(a, n). */
  lemma ListedWeight(g: Graph, n: Node, a: Node)
    requires Valid(g) && ListsDrug(g, n, a)
    ensures DrugWeight(Listed(g.arena, g.involved[n]), a) == WeightOf(g.edges, g.arena, EdgeKeyOf(a, n))
  {
    var idxs := g.involved[n];
    var es := Listed(g.arena, idxs);
    assert EffectList(n, idxs, g.arena, g.nodes);
    EffectListEdges(n, idxs, g.arena, g.nodes);
    var q :| 0 <= q < |es| && Other(es[q]) == a;
    DrugWeightAt(es, q);
    assert KeyOf(g.arena[idxs[q]]) == EdgeKeyOf(a, n);
  }

  /**
   * What interConnect of node n adds to edge(a, b): for an effect node whose
   * list holds edges to two different drugs a and b, the interconnect weight
   * of the weights of edge(a, n) and edge(b, n); nothing otherwise.
   */
  function LinkShare(g: Graph, a: Node, b: Node): Node -> real
  {
    (n: Node) =>
      if n.kind == Effect && a != b && ListsDrug(g, n, a) && ListsDrug(g, n, b)
      then InterConnectWeight(WeightOf(g.edges, g.arena, EdgeKeyOf(a, n)), WeightOf(g.edges, g.arena, EdgeKeyOf(b, n)))
      else 0.0
  }

  /**
   * The weight of edge(a, b) after pruning is the sum, over the effect nodes
   * whose lists hold edges to both a and b, of the interconnect weight of
   * those two edges' weights before pruning.
   */
  lemma PrunedWeight(g: Graph, order: seq<Node>, a: Node, b: Node)
    requires Valid(g) && Enumerates(order, g.nodes)
    ensures Coherent(g)
    ensures var r := Prune(g, order);
            WeightOf(r.edges, r.arena, EdgeKeyOf(a, b)) == SumOf(order, LinkShare(g, a, b))
  {
    PruneSpec(g, order);
    PruneTotal(order, g.involved, g.arena, g.nodes, |order|, a, b);
    assert order[..|order|] == order;
    forall n | n in order
      ensures ShareOf(g.involved, g.arena, a, b)(n) == LinkShare(g, a, b)(n)
    {
      if n.kind == Effect {
        assert n in g.nodes;
        assert EffectList(n, g.involved[n], g.arena, g.nodes);
        if a != b && ListsDrug(g, n, a) && ListsDrug(g, n, b) {
          ListedWeight(g, n, a);
          ListedWeight(g, n, b);
        }
      }
    }
    SumOfSameTerms(order, ShareOf(g.involved, g.arena, a, b), LinkShare(g, a, b));
  }

  /** A second prune keeps the nodes, all plain by now, and leaves the edge map empty. */
  lemma PruneTwice(g: Graph, order: seq<Node>, order2: seq<Node>)
    requires Valid(g) && Enumerates(order, g.nodes)
    ensures Coherent(g) && Valid(Prune(g, order)) && Coherent(Prune(g, order))
    ensures Enumerates(order2, Prune(g, order).nodes) ==>
              var r := Prune(Prune(g, order), order2);
              r.nodes == Prune(g, order).nodes && r.edges == map[]
  {
    PruneSpec(g, order);
    var h := Prune(g, order);
    ValidCoherent(h);
    if Enumerates(order2, h.nodes) {
      PruneSpec(h, order2);
    }
  }
}
