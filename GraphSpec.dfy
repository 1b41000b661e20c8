/**
 * The graph state as values, and what the graph operations add to it.
 *
 * Every TrialEdge object lives in a slot of an arena (`seq<Edge>`); the
 * edge map and the involved-edge lists of the effect nodes hold slot
 * numbers, so a weight added through one is seen through the other, as
 * with the shared Java objects.  The weight changes an operation makes are
 * described as a sequence of contributions (key, delta) in the order the
 * source makes them.
 */
module GraphSpec {
  import opened JavaStrings
  import opened Accumulation
  import opened GraphModel

  predicate IndicesIn(idxs: seq<nat>, arena: seq<Edge>)
  {
    forall i | 0 <= i < |idxs| :: idxs[i] < |arena|
  }

  /** The drug endpoints of the edges a list of slots refers to. */
  function DrugsOf(arena: seq<Edge>, idxs: seq<nat>): (ds: seq<Node>)
    requires IndicesIn(idxs, arena)
    ensures |ds| == |idxs|
  {
    if idxs == [] then [] else DrugsOf(arena, idxs[..|idxs| - 1]) + [Other(arena[idxs[|idxs| - 1]])]
  }

  lemma {:induction false} DrugsOfIndex(arena: seq<Edge>, idxs: seq<nat>, i: nat)
    requires IndicesIn(idxs, arena) && i < |idxs|
    ensures DrugsOf(arena, idxs)[i] == Other(arena[idxs[i]])
  {
    if i < |idxs| - 1 {
      DrugsOfIndex(arena, idxs[..|idxs| - 1], i);
    }
  }

  /** Each drug of the sequence differs ignoring case from every drug before it. */
  predicate DistinctDrugs(ds: seq<Node>)
  {
    ds == [] || (DistinctDrugs(ds[..|ds| - 1]) && forall j | 0 <= j < |ds| - 1 :: NodeCompare(ds[j], ds[|ds| - 1]) != 0)
  }

  /** Equivalently: no two drugs of the sequence are equal ignoring case. */
  lemma {:induction false} DistinctDrugsPairwise(ds: seq<Node>)
    ensures DistinctDrugs(ds) <==> forall i, j | 0 <= i < j < |ds| :: NodeCompare(ds[i], ds[j]) != 0
  {
    if ds != [] {
      var init := ds[..|ds| - 1];
      DistinctDrugsPairwise(init);
      assert forall i | 0 <= i < |init| :: init[i] == ds[i];
    }
  }

  /**
   * The involved-edge list of effect node `n`: each edge joins `n` to a
   * plain node of the graph, and no two of those drugs are equal ignoring case.
   */
  ghost predicate EffectList(n: Node, idxs: seq<nat>, arena: seq<Edge>, nodes: set<Node>)
  {
    && IndicesIn(idxs, arena)
    && (forall i | 0 <= i < |idxs| :: LinksTo(arena[idxs[i]], n) && Other(arena[idxs[i]]) in nodes)
    && DistinctDrugs(DrugsOf(arena, idxs))
  }

  ghost predicate WellLinked(involved: map<Node, seq<nat>>, arena: seq<Edge>, nodes: set<Node>)
  {
    forall n | n in involved :: EffectList(n, involved[n], arena, nodes)
  }

  /** Appending an edge of `n` whose drug differs from every listed one keeps the list well formed. */
  lemma EffectListAppend(n: Node, idxs: seq<nat>, idx: nat, arena: seq<Edge>, nodes: set<Node>)
    requires EffectList(n, idxs, arena, nodes)
    requires idx < |arena| && LinksTo(arena[idx], n) && Other(arena[idx]) in nodes
    requires forall j | 0 <= j < |idxs| :: NodeCompare(Other(arena[idxs[j]]), Other(arena[idx])) != 0
    ensures EffectList(n, idxs + [idx], arena, nodes)
  {
    var l := idxs + [idx];
    assert l[..|idxs|] == idxs;
    assert forall j | 0 <= j < |idxs| :: l[j] == idxs[j];
    var ds := DrugsOf(arena, idxs);
    assert DrugsOf(arena, l) == ds + [Other(arena[idx])];
    assert (ds + [Other(arena[idx])])[..|ds|] == ds;
    forall j | 0 <= j < |idxs|
      ensures NodeCompare((ds + [Other(arena[idx])])[j], Other(arena[idx])) != 0
    {
      DrugsOfIndex(arena, idxs, j);
    }
  }

  lemma WellLinkedUpdate(involved: map<Node, seq<nat>>, n: Node, list: seq<nat>, arena: seq<Edge>, nodes: set<Node>)
    requires WellLinked(involved, arena, nodes) && EffectList(n, list, arena, nodes)
    ensures WellLinked(involved[n := list], arena, nodes)
  {
  }

  /**
   * The shape of a graph: every key of the edge map names its edge, the
   * effect nodes are exactly those with a list, and the lists are well formed.
   */
  ghost predicate Shaped(nodes: set<Node>, edges: map<EdgeKey, nat>, arena: seq<Edge>, involved: map<Node, seq<nat>>)
  {
    && EdgesFiled(edges, arena)
    && (forall n :: n in involved <==> n in nodes && n.kind == Effect)
    && WellLinked(involved, arena, nodes)
  }

  /**
   * Every edge of an involved-edge list is the one the edge map holds for
   * its key, and that key is the one addEdge(drug, effect) files it under.
   */
  ghost predicate ListsIndexed(edges: map<EdgeKey, nat>, arena: seq<Edge>, involved: map<Node, seq<nat>>)
  {
    forall n, i | n in involved && 0 <= i < |involved[n]| && involved[n][i] < |arena| ::
      && KeyOf(arena[involved[n][i]]) in edges && edges[KeyOf(arena[involved[n][i]])] == involved[n][i]
      && KeyOf(arena[involved[n][i]]) == EdgeKeyOf(Other(arena[involved[n][i]]), n)
  }

  lemma ListsIndexedAppend(edges: map<EdgeKey, nat>, arena: seq<Edge>, involved: map<Node, seq<nat>>, n: Node, idx: nat)
    requires ListsIndexed(edges, arena, involved) && n in involved
    requires idx < |arena| && KeyOf(arena[idx]) in edges && edges[KeyOf(arena[idx])] == idx
    requires KeyOf(arena[idx]) == EdgeKeyOf(Other(arena[idx]), n)
    ensures ListsIndexed(edges, arena, involved[n := involved[n] + [idx]])
  {
    var l := involved[n] + [idx];
    assert forall j | 0 <= j < |involved[n]| :: l[j] == involved[n][j];
  }

  predicate HasEffectEnd(e: Edge)
  {
    e.node1.kind == Effect || e.node2.kind == Effect
  }

  /**
   * `a1` is `a0` after creating edges and adding weight to edges between
   * plain nodes: endpoints never change and drug–effect edges are untouched.
   */
  ghost predicate Kept(a0: seq<Edge>, a1: seq<Edge>)
  {
    && |a0| <= |a1|
    && forall i | 0 <= i < |a0| ::
         && a1[i].node1 == a0[i].node1 && a1[i].node2 == a0[i].node2
         && (HasEffectEnd(a0[i]) ==> a1[i] == a0[i])
  }

  lemma KeptTransitive(a0: seq<Edge>, a1: seq<Edge>, a2: seq<Edge>)
    requires Kept(a0, a1) && Kept(a1, a2)
    ensures Kept(a0, a2)
  {
  }

  /** The drugs of a list depend only on the endpoints of its edges. */
  lemma {:induction false} DrugsOfKept(a0: seq<Edge>, a1: seq<Edge>, idxs: seq<nat>)
    requires IndicesIn(idxs, a0) && IndicesIn(idxs, a1)
    requires forall i | 0 <= i < |idxs| :: Other(a1[idxs[i]]) == Other(a0[idxs[i]])
    ensures DrugsOf(a1, idxs) == DrugsOf(a0, idxs)
  {
    if idxs != [] {
      DrugsOfKept(a0, a1, idxs[..|idxs| - 1]);
    }
  }

  /** Lists keep their shape when endpoints stay put. */
  lemma WellLinkedKept(involved: map<Node, seq<nat>>, a0: seq<Edge>, a1: seq<Edge>, nodes: set<Node>)
    requires WellLinked(involved, a0, nodes)
    requires |a0| <= |a1|
    requires forall i | 0 <= i < |a0| :: a1[i].node1 == a0[i].node1 && a1[i].node2 == a0[i].node2
    ensures WellLinked(involved, a1, nodes)
  {
    forall n | n in involved
      ensures EffectList(n, involved[n], a1, nodes)
    {
      var idxs := involved[n];
      forall i | 0 <= i < |idxs|
        ensures LinksTo(a1[idxs[i]], n) && Other(a1[idxs[i]]) == Other(a0[idxs[i]])
      {
      }
      DrugsOfKept(a0, a1, idxs);
    }
  }

  /** Adding a node, and the empty list of a new effect node, keeps the lists well formed. */
  lemma WellLinkedGrows(inv0: map<Node, seq<nat>>, inv1: map<Node, seq<nat>>, arena: seq<Edge>,
                        nodes0: set<Node>, nodes1: set<Node>)
    requires WellLinked(inv0, arena, nodes0)
    requires nodes0 <= nodes1
    requires forall n | n in inv1 :: (n in inv0 && inv1[n] == inv0[n]) || inv1[n] == []
    ensures WellLinked(inv1, arena, nodes1)
  {
  }

  /** Every slot of the list holds an edge between effect node `n` and a plain node. */
  predicate LinksAll(n: Node, idxs: seq<nat>, arena: seq<Edge>)
  {
    IndicesIn(idxs, arena) && forall q | 0 <= q < |idxs| :: LinksTo(arena[idxs[q]], n)
  }

  /** Such a list reads the same edges from a kept arena. */
  lemma LinksAllKept(n: Node, idxs: seq<nat>, a0: seq<Edge>, a1: seq<Edge>)
    requires LinksAll(n, idxs, a0) && Kept(a0, a1)
    ensures LinksAll(n, idxs, a1) && forall q | 0 <= q < |idxs| :: a1[idxs[q]] == a0[idxs[q]]
  {
    forall q | 0 <= q < |idxs|
      ensures a1[idxs[q]] == a0[idxs[q]]
    {
      assert HasEffectEnd(a0[idxs[q]]);
    }
  }

  /** The arena grew and no edge changed its endpoints (weights may have changed). */
  ghost predicate SameEnds(a0: seq<Edge>, a1: seq<Edge>)
  {
    |a0| <= |a1| && forall i | 0 <= i < |a0| :: a1[i].node1 == a0[i].node1 && a1[i].node2 == a0[i].node2
  }

  /** Such a list still links the same drugs after any weight update. */
  lemma LinksAllEnds(n: Node, idxs: seq<nat>, a0: seq<Edge>, a1: seq<Edge>)
    requires LinksAll(n, idxs, a0) && SameEnds(a0, a1)
    ensures LinksAll(n, idxs, a1) && forall q | 0 <= q < |idxs| :: Other(a1[idxs[q]]) == Other(a0[idxs[q]])
  {
    forall q | 0 <= q < |idxs|
      ensures LinksTo(a1[idxs[q]], n) && Other(a1[idxs[q]]) == Other(a0[idxs[q]])
    {
      assert idxs[q] < |a0|;
    }
  }

  /**
   * Two edges of one effect node are equal edges exactly when their drugs
   * are equal ignoring case, whichever edge is asked.
   */
  lemma LinkedEdgeEquals(e1: Edge, e2: Edge, n: Node)
    requires LinksTo(e1, n) && LinksTo(e2, n)
    ensures EdgeEquals(e1, e2) <==> NodeCompare(Other(e1), Other(e2)) == 0
  {
    NodeEqualsReflexive(n);
    CompareAntisymmetric(Other(e1).name, Other(e2).name);
  }

  /** Every key of the edge map names a slot holding an edge with that key. */
  ghost predicate EdgesFiled(edges: map<EdgeKey, nat>, arena: seq<Edge>)
  {
    forall k | k in edges :: edges[k] < |arena| && KeyOf(arena[edges[k]]) == k
  }

  /** The weight filed under `k`, or 0 when no edge is filed under it. */
  function WeightOf(edges: map<EdgeKey, nat>, arena: seq<Edge>, k: EdgeKey): real
  {
    if k in edges && edges[k] < |arena| then arena[edges[k]].weight else 0.0
  }

  /**
   * The edge map (e1, a1) is (e0, a0) after the contributions `cs`: the
   * touched keys are filed and every weight grew by its total.
   */
  ghost predicate Adds(e0: map<EdgeKey, nat>, a0: seq<Edge>, e1: map<EdgeKey, nat>, a1: seq<Edge>,
                       cs: seq<Contribution<EdgeKey>>)
  {
    && e1.Keys == e0.Keys + KeysOf(cs)
    && forall k :: WeightOf(e1, a1, k) == WeightOf(e0, a0, k) + Total(cs, k)
  }

  lemma AddsNothing(e: map<EdgeKey, nat>, a: seq<Edge>)
    ensures Adds(e, a, e, a, [])
  {
    assert KeysOf<EdgeKey>([]) == {};
  }

  /** Contributions made one after the other add up. */
  lemma AddsCompose(e0: map<EdgeKey, nat>, a0: seq<Edge>, e1: map<EdgeKey, nat>, a1: seq<Edge>,
                    e2: map<EdgeKey, nat>, a2: seq<Edge>, cs1: seq<Contribution<EdgeKey>>, cs2: seq<Contribution<EdgeKey>>)
    requires Adds(e0, a0, e1, a1, cs1) && Adds(e1, a1, e2, a2, cs2)
    ensures Adds(e0, a0, e2, a2, cs1 + cs2)
  {
    KeysOfConcat(cs1, cs2);
    forall k
      ensures WeightOf(e2, a2, k) == WeightOf(e0, a0, k) + Total(cs1 + cs2, k)
    {
      TotalConcat(cs1, cs2, k);
    }
  }

  /** Two runs of edge updates that keep the drug–effect edges compose. */
  lemma KeptAddsCompose(e0: map<EdgeKey, nat>, a0: seq<Edge>, e1: map<EdgeKey, nat>, a1: seq<Edge>,
                        e2: map<EdgeKey, nat>, a2: seq<Edge>, cs1: seq<Contribution<EdgeKey>>, cs2: seq<Contribution<EdgeKey>>)
    requires Kept(a0, a1) && Adds(e0, a0, e1, a1, cs1)
    requires Kept(a1, a2) && Adds(e1, a1, e2, a2, cs2)
    ensures Kept(a0, a2) && Adds(e0, a0, e2, a2, cs1 + cs2)
  {
    KeptTransitive(a0, a1, a2);
    AddsCompose(e0, a0, e1, a1, e2, a2, cs1, cs2);
  }

  /** Get-or-create of `key` followed by `weight += w` is the one contribution (key, w). */
  lemma AddsStep(e0: map<EdgeKey, nat>, a0: seq<Edge>, e1: map<EdgeKey, nat>, a1: seq<Edge>,
                 e2: map<EdgeKey, nat>, a2: seq<Edge>, key: EdgeKey, w: real)
    requires e1.Keys == e0.Keys + {key} && forall k :: WeightOf(e1, a1, k) == WeightOf(e0, a0, k)
    requires e2.Keys == e1.Keys && forall k :: WeightOf(e2, a2, k) == WeightOf(e1, a1, k) + (if k == key then w else 0.0)
    ensures Adds(e0, a0, e2, a2, [Contribution(key, w)])
  {
    var cs := [Contribution(key, w)];
    assert cs[..0] == [];
    assert KeysOf(cs) == {key};
  }

  // ---------------------------------------------------------------------
  // Loading: stringToNodes line by line

  /** The nodes a line of the graph corpus names, as stringToNodes creates them. */
  function LineNodes(line: string): set<Node>
  {
    match ParseLine(line)
    case None => {}
    case Some(p) => {Node(p.drug, Plain), Node(p.effect, Effect)}
  }

  function CorpusNodes(lines: seq<string>): set<Node>
  {
    if lines == [] then {} else CorpusNodes(lines[..|lines| - 1]) + LineNodes(lines[|lines| - 1])
  }

  /** The key stringToNodes files a parsed line under. */
  function ObservationKey(p: Parsed): EdgeKey
  {
    EdgeKeyOf(Node(p.drug, Plain), Node(p.effect, Effect))
  }

  /** The weight change stringToNodes makes for one line. */
  function LineContribution(line: string): seq<Contribution<EdgeKey>>
  {
    match ParseLine(line)
    case None => []
    case Some(p) => [Contribution(ObservationKey(p), Delta(p))]
  }

  /** The weight changes of loading a corpus, line after line. */
  function LineContributions(lines: seq<string>): seq<Contribution<EdgeKey>>
  {
    Collect(lines, LineContribution)
  }

  /** What one line adds to the edge between drug d and effect x. */
  function ObservedDelta(line: string, d: string, x: string): real
  {
    match ParseLine(line)
    case None => 0.0
    case Some(p) => if p.drug == d && p.effect == x then Delta(p) else 0.0
  }

  /** Whether a line files anything under `k`. */
  predicate LineTouches(line: string, k: EdgeKey)
  {
    ParseLine(line).Some? && ObservationKey(ParseLine(line).value) == k
  }

  lemma LineFacts(line: string, d: string, x: string, k: EdgeKey)
    ensures Total(LineContribution(line), EdgeKeyOf(Node(d, Plain), Node(x, Effect))) == ObservedDelta(line, d, x)
    ensures k in KeysOf(LineContribution(line)) <==> LineTouches(line, k)
  {
    match ParseLine(line)
    case None =>
      assert KeysOf<EdgeKey>([]) == {};
    case Some(p) =>
      var cs := [Contribution(ObservationKey(p), Delta(p))];
      assert cs[..0] == [];
      assert KeysOf(cs) == {ObservationKey(p)};
      EdgeKeyInjective(p.drug, p.effect, d, x);
  }

  /**
   * The weight built for the edge between drug d and effect x is the sum of
   * +phase over the condition lines and -phase over the other lines that
   * name exactly d and x; the keys filed are those of the lines that parse.
   */
  lemma LoadedEdgeWeight(lines: seq<string>, d: string, x: string, k: EdgeKey)
    ensures Total(LineContributions(lines), EdgeKeyOf(Node(d, Plain), Node(x, Effect)))
            == SumOf(lines, l => ObservedDelta(l, d, x))
    ensures k in KeysOf(LineContributions(lines)) <==> exists l | l in lines :: LineTouches(l, k)
  {
    var key := EdgeKeyOf(Node(d, Plain), Node(x, Effect));
    CollectTotal(lines, LineContribution, key);
    CollectKeys(lines, LineContribution, k);
    forall l
      ensures TotalOf(LineContribution, key)(l) == ObservedDelta(l, d, x)
      ensures k in KeysOf(LineContribution(l)) <==> LineTouches(l, k)
    {
      LineFacts(l, d, x, k);
    }
    SumOfSameTerms(lines, TotalOf(LineContribution, key), l => ObservedDelta(l, d, x));
  }

  /**
   * Loading is independent of line order: any permutation of the corpus
   * touches the same keys and adds the same total to each.
   */
  lemma LoadOrderIndependent(lines: seq<string>, shuffled: seq<string>, k: EdgeKey)
    requires multiset(lines) == multiset(shuffled)
    ensures Total(LineContributions(lines), k) == Total(LineContributions(shuffled), k)
    ensures k in KeysOf(LineContributions(lines)) <==> k in KeysOf(LineContributions(shuffled))
  {
    CollectPermutation(lines, shuffled, LineContribution, k);
  }

  // ---------------------------------------------------------------------
  // Pruning: interConnect over every effect node

  /** What interConnect adds for the pair (e1, e2) of one effect node's edges. */
  function PairContribution(e1: Edge, e2: Edge): seq<Contribution<EdgeKey>>
  {
    if EdgeEquals(e1, e2) then []
    else [Contribution(EdgeKeyOf(Other(e1), Other(e2)), InterConnectWeight(e1.weight, e2.weight))]
  }

  /** The edges the slots `idxs` hold. */
  function Listed(arena: seq<Edge>, idxs: seq<nat>): (es: seq<Edge>)
    requires IndicesIn(idxs, arena)
    ensures |es| == |idxs| && forall q | 0 <= q < |idxs| :: es[q] == arena[idxs[q]]
  {
    seq(|idxs|, q requires 0 <= q < |idxs| => arena[idxs[q]])
  }

  /** A list of an effect node reads the same edges from a kept arena. */
  lemma ListedKept(n: Node, idxs: seq<nat>, a0: seq<Edge>, a1: seq<Edge>)
    requires LinksAll(n, idxs, a0) && Kept(a0, a1)
    ensures IndicesIn(idxs, a1) && Listed(a1, idxs) == Listed(a0, idxs)
  {
    LinksAllKept(n, idxs, a0, a1);
  }

  /** Every edge of `es` joins the effect node `n` to a plain node. */
  predicate Linked(n: Node, es: seq<Edge>)
  {
    forall q | 0 <= q < |es| :: LinksTo(es[q], n)
  }

  /** The pairs (i, j') with i < j' < j of the edges `es`, in the order of the inner loop. */
  function RowTo(es: seq<Edge>, i: nat, j: nat): seq<Contribution<EdgeKey>>
    requires i < |es| && j <= |es|
  {
    if j <= i + 1 then [] else RowTo(es, i, j - 1) + PairContribution(es[i], es[j - 1])
  }

  /** All pairs whose first position is below i, in the order of the two loops. */
  function GridTo(es: seq<Edge>, i: nat): seq<Contribution<EdgeKey>>
    requires i <= |es|
  {
    if i == 0 then [] else GridTo(es, i - 1) + RowTo(es, i - 1, |es|)
  }

  /** Everything interConnect adds for an effect node whose listed edges are `es`. */
  function InterConnectContributions(es: seq<Edge>): seq<Contribution<EdgeKey>>
  {
    GridTo(es, |es|)
  }

  /** No two of the edges `es` have drugs that are equal ignoring case. */
  predicate DistinctOthers(es: seq<Edge>)
  {
    forall i, j | 0 <= i < j < |es| :: NodeCompare(Other(es[i]), Other(es[j])) != 0
  }

  /** One of the edges `es` has drug endpoint `a`. */
  predicate HasDrug(es: seq<Edge>, a: Node)
  {
    exists q | 0 <= q < |es| :: Other(es[q]) == a
  }

  /** The weight of the (last) edge of `es` whose drug endpoint is `a`, or 0 when there is none. */
  function DrugWeight(es: seq<Edge>, a: Node): real
  {
    if es == [] then 0.0
    else if Other(es[|es| - 1]) == a then es[|es| - 1].weight
    else DrugWeight(es[..|es| - 1], a)
  }

  /**
   * What interConnect of an effect node whose listed edges are `es` should
   * add to the edge between drugs a and b: the interconnect weight of a's
   * edge and b's edge when both are listed, nothing otherwise.
   */
  function NodeShare(es: seq<Edge>, a: Node, b: Node): real
  {
    if a != b && HasDrug(es, a) && HasDrug(es, b)
    then InterConnectWeight(DrugWeight(es, a), DrugWeight(es, b))
    else 0.0
  }

  /** On edges with distinct drugs, the weight of a's edge is the weight of the one edge to a. */
  lemma {:induction false} DrugWeightAt(es: seq<Edge>, q: nat)
    requires DistinctOthers(es) && q < |es|
    ensures HasDrug(es, Other(es[q])) && DrugWeight(es, Other(es[q])) == es[q].weight
  {
    var a := Other(es[q]);
    if q < |es| - 1 {
      var init := es[..|es| - 1];
      assert forall i | 0 <= i < |init| :: init[i] == es[i];
      CompareReflexive(a.name);
      assert Other(es[|es| - 1]) != a;
      DrugWeightAt(init, q);
    }
  }

  /** A pair of edges of one effect node with distinct drugs contributes to edge(a, b) exactly when its drugs are a and b. */
  lemma PairTotal(e1: Edge, e2: Edge, n: Node, a: Node, b: Node)
    requires LinksTo(e1, n) && LinksTo(e2, n) && NodeCompare(Other(e1), Other(e2)) != 0
    ensures Total(PairContribution(e1, e2), EdgeKeyOf(a, b))
            == if (Other(e1) == a && Other(e2) == b) || (Other(e1) == b && Other(e2) == a)
               then InterConnectWeight(e1.weight, e2.weight) else 0.0
  {
    LinkedEdgeEquals(e1, e2, n);
    EdgeKeyMatch(a, b, Other(e1), Other(e2));
    var cs := PairContribution(e1, e2);
    assert cs[..0] == [];
  }

  /**
   * Summing a term over the edges of `es` that have drug c: with distinct
   * drugs there is at most one, the edge DrugWeight reads.
   */
  lemma {:induction false} SumOfUnique(es: seq<Edge>, c: Node, h: real -> real)
    requires DistinctOthers(es)
    ensures SumOf(es, x => if Other(x) == c then h(x.weight) else 0.0)
            == if HasDrug(es, c) then h(DrugWeight(es, c)) else 0.0
  {
    if es != [] {
      var init, last := es[..|es| - 1], es[|es| - 1];
      assert forall i | 0 <= i < |init| :: init[i] == es[i];
      SumOfUnique(init, c, h);
      if Other(last) == c {
        forall q | 0 <= q < |init|
          ensures Other(init[q]) != c
        {
          CompareReflexive(c.name);
        }
      } else {
        assert HasDrug(es, c) ==> HasDrug(init, c);
      }
    }
  }

  /** What the pair of an edge with e adds to key k. */
  function PairsWith(e: Edge, k: EdgeKey): Edge -> real
  {
    x => Total(PairContribution(x, e), k)
  }

  /** The inner loop's pairs (i, j) for j before the end do not depend on the edges after the end. */
  lemma {:induction false} RowPrefix(es: seq<Edge>, e: Edge, i: nat, j: nat)
    requires i < |es| && j <= |es|
    ensures RowTo(es + [e], i, j) == RowTo(es, i, j)
    decreases j
  {
    if j > i + 1 {
      RowPrefix(es, e, i, j - 1);
      assert (es + [e])[i] == es[i] && (es + [e])[j - 1] == es[j - 1];
    }
  }

  /** Row i of `es + [e]` is row i of `es` followed by the pair of es[i] with e. */
  lemma RowExtend(es: seq<Edge>, e: Edge, i: nat, k: EdgeKey)
    requires i < |es|
    ensures Total(RowTo(es + [e], i, |es| + 1), k) == Total(RowTo(es, i, |es|), k) + PairsWith(e, k)(es[i])
  {
    var ext := es + [e];
    assert RowTo(ext, i, |es| + 1) == RowTo(ext, i, |es|) + PairContribution(es[i], e);
    RowPrefix(es, e, i, |es|);
    TotalConcat(RowTo(es, i, |es|), PairContribution(es[i], e), k);
  }

  /** The rows below i of `es + [e]` add, on top of those of `es`, the pairs of each edge with e. */
  lemma {:induction false} GridExtend(es: seq<Edge>, e: Edge, i: nat, k: EdgeKey)
    requires i <= |es|
    ensures Total(GridTo(es + [e], i), k)
            == Total(GridTo(es, i), k) + SumOf(es[..i], PairsWith(e, k))
    decreases i
  {
    var ext := es + [e];
    if i == 0 {
      assert GridTo(ext, 0) == [] && GridTo(es, 0) == [] && es[..0] == [];
      assert Total(GridTo(ext, 0), k) == 0.0 && Total(GridTo(es, 0), k) == 0.0;
      assert SumOf(es[..0], PairsWith(e, k)) == 0.0;
    } else {
      var front, row := GridTo(ext, i - 1), RowTo(ext, i - 1, |es| + 1);
      var front0, row0 := GridTo(es, i - 1), RowTo(es, i - 1, |es|);
      assert GridTo(ext, i) == front + row;
      assert GridTo(es, i) == front0 + row0;
      assert es[..i][..i - 1] == es[..i - 1] && es[..i][i - 1] == es[i - 1];
      assert SumOf(es[..i], PairsWith(e, k)) == SumOf(es[..i - 1], PairsWith(e, k)) + PairsWith(e, k)(es[i - 1]);
      TotalConcat(front, row, k);
      TotalConcat(front0, row0, k);
      GridExtend(es, e, i - 1, k);
      RowExtend(es, e, i - 1, k);
      assert Total(GridTo(ext, i), k) == Total(front, k) + Total(row, k);
      assert Total(front, k) == Total(front0, k) + SumOf(es[..i - 1], PairsWith(e, k));
      assert Total(row, k) == Total(row0, k) + PairsWith(e, k)(es[i - 1]);
    }
  }

  /** Listing one more edge e adds to interConnect the pairs of every earlier edge with e. */
  lemma InterConnectExtend(es: seq<Edge>, e: Edge, k: EdgeKey)
    ensures Total(InterConnectContributions(es + [e]), k)
            == Total(InterConnectContributions(es), k) + SumOf(es, PairsWith(e, k))
  {
    var ext := es + [e];
    assert GridTo(ext, |ext|) == GridTo(ext, |es|) + RowTo(ext, |es|, |ext|);
    assert RowTo(ext, |es|, |ext|) == [];
    assert GridTo(ext, |ext|) == GridTo(ext, |es|);
    GridExtend(es, e, |es|, k);
    assert es[..|es|] == es;
  }

  /** The pairs of a new last edge e contribute to edge(a, b) only when e's drug is one of a, b and the other is listed. */
  lemma LastPairs(es: seq<Edge>, e: Edge, n: Node, a: Node, b: Node)
    requires Linked(n, es) && LinksTo(e, n) && DistinctOthers(es)
    requires forall q | 0 <= q < |es| :: NodeCompare(Other(es[q]), Other(e)) != 0
    ensures SumOf(es, PairsWith(e, EdgeKeyOf(a, b)))
            == if a != b && Other(e) == a && HasDrug(es, b) then InterConnectWeight(DrugWeight(es, b), e.weight)
               else if a != b && Other(e) == b && HasDrug(es, a) then InterConnectWeight(DrugWeight(es, a), e.weight)
               else 0.0
  {
    var f := PairsWith(e, EdgeKeyOf(a, b));
    forall x | x in es
      ensures f(x) == if (Other(x) == a && Other(e) == b) || (Other(x) == b && Other(e) == a)
                      then InterConnectWeight(x.weight, e.weight) else 0.0
      ensures Other(x) != Other(e)
    {
      var q :| 0 <= q < |es| && es[q] == x;
      PairTotal(x, e, n, a, b);
      CompareReflexive(Other(x).name);
    }
    if a != b && (Other(e) == a || Other(e) == b) {
      var c := if Other(e) == a then b else a;
      var h := w => InterConnectWeight(w, e.weight);
      SumOfSameTerms(es, f, x => if Other(x) == c then h(x.weight) else 0.0);
      SumOfUnique(es, c, h);
    } else {
      SumOfZero(es, f);
    }
  }

  /**
   * interConnect of an effect node whose listed edges have distinct drugs
   * adds to edge(a, b) exactly the interconnect weight of a's edge and b's
   * edge when both are listed, and nothing otherwise.
   */
  lemma {:induction false} InterConnectTotal(n: Node, es: seq<Edge>, a: Node, b: Node)
    requires Linked(n, es) && DistinctOthers(es)
    ensures Total(InterConnectContributions(es), EdgeKeyOf(a, b)) == NodeShare(es, a, b)
  {
    if es == [] {
      assert InterConnectContributions(es) == [];
    } else {
      var init, e := es[..|es| - 1], es[|es| - 1];
      assert es == init + [e];
      assert forall i | 0 <= i < |init| :: init[i] == es[i];
      InterConnectTotal(n, init, a, b);
      InterConnectExtend(init, e, EdgeKeyOf(a, b));
      LastPairs(init, e, n, a, b);
      InterConnectWeightSymmetric(DrugWeight(init, a), e.weight);
      InterConnectWeightSymmetric(DrugWeight(init, b), e.weight);
      forall x | x in init
        ensures Other(x) != Other(e)
      {
        CompareReflexive(Other(e).name);
      }
      assert HasDrug(es, Other(e));
      forall c | c != Other(e)
        ensures HasDrug(es, c) == HasDrug(init, c) && DrugWeight(es, c) == DrugWeight(init, c)
      {
        if HasDrug(es, c) {
          var q :| 0 <= q < |es| && Other(es[q]) == c;
          assert q < |init| && Other(init[q]) == c;
        }
      }
      assert !HasDrug(init, Other(e));
    }
  }

  predicate Resolvable(order: seq<Node>, involved: map<Node, seq<nat>>, arena: seq<Edge>)
  {
    forall q | 0 <= q < |order| && order[q].kind == Effect :: order[q] in involved && IndicesIn(involved[order[q]], arena)
  }

  /** What pruning adds while visiting the first p nodes of `order`. */
  function PruneContributions(order: seq<Node>, involved: map<Node, seq<nat>>, arena: seq<Edge>, p: nat)
    : seq<Contribution<EdgeKey>>
    requires p <= |order| && Resolvable(order, involved, arena)
  {
    if p == 0 then []
    else
      var n := order[p - 1];
      PruneContributions(order, involved, arena, p - 1)
      + (if n.kind == Effect then InterConnectContributions(Listed(arena, involved[n])) else [])
  }

  /** Visiting an effect node extends what pruning has added by that node's interconnections. */
  lemma PruneStep(order: seq<Node>, involved: map<Node, seq<nat>>, e0: map<EdgeKey, nat>, a0: seq<Edge>, p: nat,
                  e1: map<EdgeKey, nat>, a1: seq<Edge>, e2: map<EdgeKey, nat>, a2: seq<Edge>)
    requires p < |order| && Resolvable(order, involved, a0) && order[p].kind == Effect
    requires IndicesIn(involved[order[p]], a1) && Listed(a1, involved[order[p]]) == Listed(a0, involved[order[p]])
    requires Adds(e0, a0, e1, a1, PruneContributions(order, involved, a0, p))
    requires Adds(e1, a1, e2, a2, InterConnectContributions(Listed(a1, involved[order[p]])))
    ensures Adds(e0, a0, e2, a2, PruneContributions(order, involved, a0, p + 1))
  {
    var es := Listed(a0, involved[order[p]]);
    AddsCompose(e0, a0, e1, a1, e2, a2, PruneContributions(order, involved, a0, p), InterConnectContributions(es));
  }

  /** The listed edges of an effect node: each links the node to a drug, and no two drugs are equal ignoring case. */
  lemma EffectListEdges(n: Node, idxs: seq<nat>, arena: seq<Edge>, nodes: set<Node>)
    requires EffectList(n, idxs, arena, nodes)
    ensures Linked(n, Listed(arena, idxs)) && DistinctOthers(Listed(arena, idxs))
  {
    var es := Listed(arena, idxs);
    DistinctDrugsPairwise(DrugsOf(arena, idxs));
    forall i, j | 0 <= i < j < |es|
      ensures NodeCompare(Other(es[i]), Other(es[j])) != 0
    {
      DrugsOfIndex(arena, idxs, i);
      DrugsOfIndex(arena, idxs, j);
    }
  }

  /** What visiting node n adds to edge(a, b): its interconnections if it is an effect node, else nothing. */
  function ShareOf(involved: map<Node, seq<nat>>, arena: seq<Edge>, a: Node, b: Node): Node -> real
  {
    (n: Node) => if n.kind == Effect && n in involved && IndicesIn(involved[n], arena)
         then NodeShare(Listed(arena, involved[n]), a, b) else 0.0
  }

  /**
   * Visiting the first p nodes of `order` adds to edge(a, b) the sum, over
   * the effect nodes among them, of what each one's interconnections add.
   */
  lemma {:induction false} PruneTotal(order: seq<Node>, involved: map<Node, seq<nat>>, arena: seq<Edge>,
                                      nodes: set<Node>, p: nat, a: Node, b: Node)
    requires p <= |order| && Resolvable(order, involved, arena)
    requires WellLinked(involved, arena, nodes)
    ensures Total(PruneContributions(order, involved, arena, p), EdgeKeyOf(a, b))
            == SumOf(order[..p], ShareOf(involved, arena, a, b))
  {
    var k := EdgeKeyOf(a, b);
    if p == 0 {
      assert order[..0] == [];
    } else {
      var n := order[p - 1];
      var front := PruneContributions(order, involved, arena, p - 1);
      var step := if n.kind == Effect then InterConnectContributions(Listed(arena, involved[n])) else [];
      assert PruneContributions(order, involved, arena, p) == front + step;
      assert order[..p][..p - 1] == order[..p - 1] && order[..p][p - 1] == n;
      assert SumOf(order[..p], ShareOf(involved, arena, a, b))
             == SumOf(order[..p - 1], ShareOf(involved, arena, a, b)) + ShareOf(involved, arena, a, b)(n);
      TotalConcat(front, step, k);
      PruneTotal(order, involved, arena, nodes, p - 1, a, b);
      if n.kind == Effect {
        assert EffectList(n, involved[n], arena, nodes);
        EffectListEdges(n, involved[n], arena, nodes);
        InterConnectTotal(n, Listed(arena, involved[n]), a, b);
      } else {
        assert Total(step, k) == 0.0;
      }
    }
  }

  /** The plain nodes of a sequence. */
  function PlainOf(s: seq<Node>): set<Node>
  {
    if s == [] then {} else PlainOf(s[..|s| - 1]) + (if s[|s| - 1].kind == Plain then {s[|s| - 1]} else {})
  }

  lemma {:induction false} PlainOfMembers(s: seq<Node>, x: Node)
    ensures x in PlainOf(s) <==> x in s && x.kind == Plain
  {
    if s != [] {
      PlainOfMembers(s[..|s| - 1], x);
      assert s == s[..|s| - 1] + [s[|s| - 1]];
    }
  }

  /** `order` lists every element of `s` exactly once (an iteration order of the node map). */
  predicate Enumerates(order: seq<Node>, s: set<Node>)
  {
    && (forall n | n in s :: n in order)
    && (forall q | 0 <= q < |order| :: order[q] in s)
    && (forall q, r | 0 <= q < r < |order| :: order[q] != order[r])
  }

  /** An edge key between two distinct plain nodes of `nodes`. */
  predicate DrugPair(k: EdgeKey, nodes: set<Node>)
  {
    k.0.kind == Plain && k.1.kind == Plain && k.0 in nodes && k.1 in nodes && k.0 != k.1
  }

  /** Every contribution joins two distinct drugs of `nodes`. */
  ghost predicate JoinsDrugs(cs: seq<Contribution<EdgeKey>>, nodes: set<Node>)
  {
    forall q | 0 <= q < |cs| :: DrugPair(cs[q].key, nodes)
  }

  lemma JoinsDrugsConcat(a: seq<Contribution<EdgeKey>>, b: seq<Contribution<EdgeKey>>, nodes: set<Node>)
    requires JoinsDrugs(a, nodes) && JoinsDrugs(b, nodes)
    ensures JoinsDrugs(a + b, nodes)
  {
    forall q | 0 <= q < |a + b|
      ensures DrugPair((a + b)[q].key, nodes)
    {
      if q >= |a| {
        assert (a + b)[q] == b[q - |a|];
      }
    }
  }

  lemma JoinsDrugsKeys(cs: seq<Contribution<EdgeKey>>, nodes: set<Node>)
    requires JoinsDrugs(cs, nodes)
    ensures forall k | k in KeysOf(cs) :: DrugPair(k, nodes)
  {
    forall k | k in KeysOf(cs)
      ensures DrugPair(k, nodes)
    {
      var c :| c in cs && c.key == k;
      var q :| 0 <= q < |cs| && cs[q] == c;
    }
  }

  /** Every edge of `es` joins the effect node `n` to a plain node of `nodes`. */
  predicate DrugEdges(n: Node, es: seq<Edge>, nodes: set<Node>)
  {
    forall q | 0 <= q < |es| :: LinksTo(es[q], n) && Other(es[q]) in nodes
  }

  /** interConnect links two drugs of the same effect node, never a drug to itself. */
  lemma {:induction false} RowJoinsDrugs(n: Node, es: seq<Edge>, i: nat, j: nat, nodes: set<Node>)
    requires DrugEdges(n, es, nodes) && i < |es| && j <= |es|
    ensures JoinsDrugs(RowTo(es, i, j), nodes)
  {
    if j > i + 1 {
      RowJoinsDrugs(n, es, i, j - 1, nodes);
      var e1, e2 := es[i], es[j - 1];
      if !EdgeEquals(e1, e2) {
        if Other(e1) == Other(e2) {
          SameOtherEqual(e1, e2, n);
        }
        assert DrugPair(EdgeKeyOf(Other(e1), Other(e2)), nodes);
      }
      JoinsDrugsConcat(RowTo(es, i, j - 1), PairContribution(e1, e2), nodes);
    }
  }

  lemma {:induction false} GridJoinsDrugs(n: Node, es: seq<Edge>, i: nat, nodes: set<Node>)
    requires DrugEdges(n, es, nodes) && i <= |es|
    ensures JoinsDrugs(GridTo(es, i), nodes)
  {
    if i > 0 {
      GridJoinsDrugs(n, es, i - 1, nodes);
      RowJoinsDrugs(n, es, i - 1, |es|, nodes);
      JoinsDrugsConcat(GridTo(es, i - 1), RowTo(es, i - 1, |es|), nodes);
    }
  }

  /** Pruning only ever links two distinct drugs of the graph. */
  lemma {:induction false} PruneJoinsDrugs(order: seq<Node>, involved: map<Node, seq<nat>>, arena: seq<Edge>,
                                           nodes: set<Node>, p: nat)
    requires p <= |order| && Resolvable(order, involved, arena)
    requires WellLinked(involved, arena, nodes)
    ensures JoinsDrugs(PruneContributions(order, involved, arena, p), nodes)
    ensures forall k | k in KeysOf(PruneContributions(order, involved, arena, p)) :: DrugPair(k, nodes)
  {
    if p > 0 {
      PruneJoinsDrugs(order, involved, arena, nodes, p - 1);
      var n := order[p - 1];
      if n.kind == Effect {
        var es := Listed(arena, involved[n]);
        assert EffectList(n, involved[n], arena, nodes);
        GridJoinsDrugs(n, es, |es|, nodes);
        JoinsDrugsConcat(PruneContributions(order, involved, arena, p - 1), InterConnectContributions(es), nodes);
      } else {
        assert PruneContributions(order, involved, arena, p) == PruneContributions(order, involved, arena, p - 1);
      }
    }
    JoinsDrugsKeys(PruneContributions(order, involved, arena, p), nodes);
  }

  /** Without effect nodes to visit, pruning contributes nothing. */
  lemma {:induction false} NoEffectNoContributions(order: seq<Node>, involved: map<Node, seq<nat>>, arena: seq<Edge>, p: nat)
    requires p <= |order| && Resolvable(order, involved, arena)
    requires forall q | 0 <= q < |order| :: order[q].kind == Plain
    ensures PruneContributions(order, involved, arena, p) == []
  {
    if p > 0 {
      NoEffectNoContributions(order, involved, arena, p - 1);
    }
  }

  /**
   * The graph pruning leaves: the plain nodes, no lists, and edge keys that
   * each join two distinct drugs; without effect nodes, no edges at all.
   */
  lemma PrunedGraph(nodes0: set<Node>, order: seq<Node>, inv0: map<Node, seq<nat>>, a0: seq<Edge>,
                    edges: map<EdgeKey, nat>, arena: seq<Edge>, newNodes: set<Node>)
    requires Enumerates(order, nodes0) && Resolvable(order, inv0, a0) && WellLinked(inv0, a0, nodes0)
    requires newNodes == PlainOf(order) && EdgesFiled(edges, arena)
    requires Adds(map[], a0, edges, arena, PruneContributions(order, inv0, a0, |order|))
    ensures forall n :: n in newNodes <==> n in nodes0 && n.kind == Plain
    ensures Shaped(newNodes, edges, arena, map[]) && ListsIndexed(edges, arena, map[])
    ensures forall k | k in edges :: DrugPair(k, newNodes)
    ensures (forall n | n in nodes0 :: n.kind == Plain) ==> newNodes == nodes0 && edges == map[]
  {
    forall x
      ensures x in newNodes <==> x in nodes0 && x.kind == Plain
    {
      PlainOfMembers(order, x);
    }
    PruneJoinsDrugs(order, inv0, a0, nodes0, |order|);
    if forall n | n in nodes0 :: n.kind == Plain {
      NoEffectNoContributions(order, inv0, a0, |order|);
      assert KeysOf<EdgeKey>([]) == {};
    }
  }

}
