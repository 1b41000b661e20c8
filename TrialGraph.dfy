/**
 * TrialGraph as a class: the node map, the edge map, the TrialEdge objects
 * (an arena of slots shared by the edge map and the effect nodes' lists)
 * and the involved-edge lists, updated in place.  Every method performs the
 * source's steps on the fields and ends in the state the corresponding
 * function of GraphOps computes; what those states mean is proved there.
 */
module TrialGraph {
  import opened JavaStrings
  import opened GraphModel
  import opened GraphSpec
  import GraphOps

  class TrialGraph {
    /** The node map; a node is its own value. */
    var nodes: set<Node>
    /** The edge map, from key to the slot of the edge object. */
    var edges: map<EdgeKey, nat>
    /** Every TrialEdge object created so far. */
    var arena: seq<Edge>
    /** The involved-edge list of each EffectNode of the node map. */
    var involved: map<Node, seq<nat>>

    function State(): GraphOps.Graph
      reads this
    {
      GraphOps.Graph(nodes, edges, arena, involved)
    }

    constructor ()
      ensures State() == GraphOps.EmptyGraph()
    {
      nodes, edges, arena, involved := {}, map[], [], map[];
    }

    /** addNode: get-or-create; a new effect node comes with an empty list. */
    method AddNode(node: Node)
      modifies this
      ensures State() == GraphOps.AddNode(old(State()), node)
    {
      var alreadyContains := node in nodes;
      if !alreadyContains {
        nodes := nodes + {node};
        if node.kind == Effect {
          involved := involved[node := []];
        }
      }
    }

    /** addEdge: get-or-create under the key of `new TrialEdge(a, b)`; returns the slot of the edge. */
    method AddEdge(a: Node, b: Node) returns (idx: nat)
      modifies this
      ensures (State(), idx) == GraphOps.AddEdge(old(State()), a, b)
    {
      var newEdge := NewEdge(a, b);
      var alreadyContains := KeyOf(newEdge) in edges;
      if alreadyContains {
        idx := edges[KeyOf(newEdge)];
      } else {
        idx := |arena|;
        arena := arena + [newEdge];
        edges := edges[KeyOf(newEdge) := idx];
      }
    }

    /** `weight += w` on the edge object in slot idx. */
    method AddWeight(idx: nat, w: real)
      requires idx < |arena|
      modifies this
      ensures State() == GraphOps.AddWeight(old(State()), idx, w)
    {
      arena := arena[idx := arena[idx].(weight := arena[idx].weight + w)];
    }

    /** EffectNode.addInvolvedEdge: ArrayList.contains, then append if absent. */
    method AddInvolvedEdge(n: Node, idx: nat) returns (added: bool)
      requires n in involved && IndicesIn(involved[n], arena) && idx < |arena|
      modifies this
      ensures (State(), added) == GraphOps.AddInvolvedEdge(old(State()), n, idx)
    {
      var list := involved[n];
      var j := 0;
      while j < |list| && !EdgeEquals(arena[idx], arena[list[j]])
        invariant 0 <= j <= |list|
        invariant forall q | 0 <= q < j :: !EdgeEquals(arena[idx], arena[list[q]])
      {
        j := j + 1;
      }
      if j < |list| {
        added := false;
      } else {
        involved := involved[n := list + [idx]];
        added := true;
      }
    }

    /** stringToNodes: parse, then addNode, addNode, addEdge, the weight update and addInvolvedEdge. */
    method StringToNodes(line: string)
      requires GraphOps.Coherent(State())
      modifies this
      ensures State() == GraphOps.StringToNodes(old(State()), line)
    {
      match ParseLine(line) {
        case None =>
        case Some(p) =>
          ghost var g := State();
          GraphOps.ObserveEdgeCoherent(g, p);
          var effectNode, drugNode := Node(p.effect, Effect), Node(p.drug, Plain);
          AddNode(effectNode);
          AddNodeCoherent(g, effectNode);
          AddNode(drugNode);
          var newEdge := AddEdge(drugNode, effectNode);
          AddWeight(newEdge, Delta(p));
          assert (State(), newEdge) == GraphOps.ObserveEdge(g, p);
          var added := AddInvolvedEdge(effectNode, newEdge);
      }
    }

    /** The graph between the two addNode calls is still coherent. */
    static lemma AddNodeCoherent(g: GraphOps.Graph, node: Node)
      requires GraphOps.Coherent(g)
      ensures GraphOps.Coherent(GraphOps.AddNode(g, node))
    {
    }

    /** loadGraph's reader loop: stringToNodes on every line in turn. */
    method LoadGraph(lines: seq<string>)
      requires GraphOps.Coherent(State())
      modifies this
      ensures State() == GraphOps.Load(old(State()), lines)
    {
      ghost var g0 := State();
      var i := 0;
      while i < |lines|
        invariant 0 <= i <= |lines|
        invariant GraphOps.Coherent(State())
        invariant State() == GraphOps.Load(g0, lines[..i])
      {
        assert lines[..i + 1][..i] == lines[..i];
        StringToNodes(lines[i]);
        i := i + 1;
      }
      assert lines[..i] == lines;
    }

    /**
     * interConnect: for every pair i < j of the node's listed edges that are
     * not equal, the edge between their drugs is fetched or created and
     * gains their interconnect weight.  The listed edges are read from the
     * objects at each step; no drug–effect edge changes meanwhile, so they
     * are the edges the list held on entry.
     */
    method InterConnect(node: Node)
      requires EdgesFiled(edges, arena) && GraphOps.Walkable(State(), node) && LinksAll(node, involved[node], arena)
      modifies this
      ensures State() == GraphOps.InterConnect(old(State()), node)
    {
      ghost var g0 := State();
      ghost var es := Listed(arena, involved[node]);
      var i := 0;
      while i < |involved[node]|
        invariant involved == g0.involved && 0 <= i <= |es| == |involved[node]|
        invariant State() == GraphOps.ConnectGrid(g0, es, i)
      {
        GraphOps.ConnectGridReads(g0, node, i);
        ConnectRow(node, i, es);
        i := i + 1;
      }
    }

    /** The inner loop of interConnect for position i of the node's list. */
    method ConnectRow(node: Node, i: nat, ghost es: seq<Edge>)
      requires EdgesFiled(edges, arena) && GraphOps.Walkable(State(), node) && LinksAll(node, involved[node], arena)
      requires i < |involved[node]| && es == Listed(arena, involved[node])
      modifies this
      ensures State() == GraphOps.ConnectRow(old(State()), es, i, |es|)
    {
      ghost var g := State();
      var j := i + 1;
      while j < |involved[node]|
        invariant involved == g.involved && i + 1 <= j <= |es| == |involved[node]|
        invariant State() == GraphOps.ConnectRow(g, es, i, j)
      {
        GraphOps.ConnectRowReads(g, node, i, j);
        ConnectPair(node, i, j);
        j := j + 1;
      }
    }

    /** The body of interConnect's inner loop for the listed edges at positions i and j. */
    method ConnectPair(node: Node, i: nat, j: nat)
      requires EdgesFiled(edges, arena) && GraphOps.Walkable(State(), node) && i < |involved[node]| && j < |involved[node]|
      modifies this
      ensures State() == GraphOps.ConnectPair(old(State()), old(arena[involved[node][i]]), old(arena[involved[node][j]]))
    {
      var e1, e2 := arena[involved[node][i]], arena[involved[node][j]];
      if !EdgeEquals(e1, e2) {
        var e1node := if e1.node1.kind != Effect then e1.node1 else e1.node2;
        var e2node := if e2.node1.kind != Effect then e2.node1 else e2.node2;
        var newEdge := AddEdge(e1node, e2node);
        AddWeight(newEdge, InterConnectWeight(e1.weight, e2.weight));
      }
    }

    /**
     * pruneEffectNodes, visiting the node map in the iteration order
     * `order`: clear the edge map, interconnect each effect node, keep the
     * plain nodes.  The effect nodes, and their lists with them, are dropped.
     */
    method PruneEffectNodes(order: seq<Node>)
      requires GraphOps.Valid(State()) && Enumerates(order, nodes)
      modifies this
      ensures GraphOps.Coherent(old(State()))
      ensures State() == GraphOps.Prune(old(State()), order)
    {
      ghost var g := State();
      GraphOps.ValidCoherent(g);
      GraphOps.EnumeratedResolvable(g, order);
      PruneLinked(g, order);
      edges := map[];
      var newNodeList := VisitNodes(order);
      nodes := newNodeList;
      involved := map[];
    }

    /** The loop of pruneEffectNodes: interconnect the effect nodes, collect the plain ones. */
    method VisitNodes(order: seq<Node>) returns (newNodeList: set<Node>)
      requires EdgesFiled(edges, arena) && Resolvable(order, involved, arena) && GraphOps.AllLinked(State(), order)
      modifies this
      ensures State() == GraphOps.VisitNodes(old(State()), order, |order|)
      ensures newNodeList == PlainOf(order)
    {
      ghost var g := State();
      newNodeList := {};
      var p := 0;
      while p < |order|
        invariant 0 <= p <= |order|
        invariant State() == GraphOps.VisitNodes(g, order, p)
        invariant newNodeList == PlainOf(order[..p])
      {
        GraphOps.VisitNodesSpec(g, order, p);
        var n := order[p];
        if n.kind == Effect {
          LinksAllKept(n, g.involved[n], g.arena, arena);
          InterConnect(n);
        } else {
          newNodeList := newNodeList + {n};
        }
        assert order[..p + 1][..p] == order[..p];
        p := p + 1;
      }
      assert order[..p] == order;
    }

    /** Every effect node of a valid graph has a list of edges linking it to drugs. */
    static lemma PruneLinked(g: GraphOps.Graph, order: seq<Node>)
      requires GraphOps.Valid(g) && Enumerates(order, g.nodes)
      ensures GraphOps.AllLinked(g.(edges := map[]), order)
    {
      forall q | 0 <= q < |order| && order[q].kind == Effect
        ensures LinksAll(order[q], g.involved[order[q]], g.arena)
      {
        assert EffectList(order[q], g.involved[order[q]], g.arena, g.nodes);
      }
    }
  }
}
