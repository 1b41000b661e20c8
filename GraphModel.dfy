/**
 * The entities of the drug graph: TrialNode / EffectNode, TrialEdge with
 * its canonical orientation, the equality and ordering the source defines
 * on them, the interconnect weighting rule, and the parsing of one line of
 * the graph corpus (`drug~effect!type!phase`).
 */
module GraphModel {
  import opened JavaStrings

  /** TrialNode (a drug) or EffectNode (a treated condition or an adverse event). */
  datatype Kind = Plain | Effect

  /** A node: its exact name and whether it is an effect node. */
  datatype Node = Node(name: string, kind: Kind)

  /** A TrialEdge: its endpoints in stored order and its accumulated weight. */
  datatype Edge = Edge(node1: Node, node2: Node, weight: real)

  /** The lookup key of an edge: its endpoints in stored order. */
  type EdgeKey = (Node, Node)

  /** Type tags of the graph corpus. */
  const DrugIdentifier: string := "d"
  const ConditionIdentifier: string := "c"
  const EventIdentifier: string := "e"

  /** TrialNode.compareTo: case-insensitive comparison of the names. */
  function NodeCompare(a: Node, b: Node): int
  {
    CompareIgnoreCase(a.name, b.name)
  }

  /**
   * `a.equals(b)`: names equal ignoring case, where an EffectNode only ever
   * equals another EffectNode but a TrialNode accepts either kind.
   */
  predicate NodeEquals(a: Node, b: Node)
  {
    (a.kind == Effect ==> b.kind == Effect) && NodeCompare(a, b) == 0
  }

  lemma NodeEqualsReflexive(a: Node)
    ensures NodeEquals(a, a)
  {
    CompareReflexive(a.name);
  }

  /** Node equality ignores case: it holds exactly when the folded names agree. */
  lemma NodeEqualsIgnoresCase(a: Node, b: Node)
    requires a.kind == b.kind
    ensures NodeEquals(a, b) <==> Fold(a.name) == Fold(b.name)
  {
    CompareZeroIffFoldEqual(a.name, b.name);
  }

  /**
   * `new TrialEdge(a, b)`: weight 0, and the endpoints stored so that the
   * first is not greater than the second ignoring case; on a tie the
   * arguments keep their order.
   */
  function NewEdge(a: Node, b: Node): Edge
  {
    if NodeCompare(a, b) <= 0 then Edge(a, b, 0.0) else Edge(b, a, 0.0)
  }

  lemma NewEdgeSpec(a: Node, b: Node)
    ensures var e := NewEdge(a, b);
            && e.weight == 0.0
            && NodeCompare(e.node1, e.node2) <= 0
            && ((e.node1 == a && e.node2 == b) || (e.node1 == b && e.node2 == a))
            && (NodeCompare(a, b) == 0 ==> e.node1 == a && e.node2 == b)
  {
    CompareAntisymmetric(a.name, b.name);
  }

  function KeyOf(e: Edge): EdgeKey
  {
    (e.node1, e.node2)
  }

  /** The key under which addEdge(a, b) files its edge. */
  function EdgeKeyOf(a: Node, b: Node): EdgeKey
  {
    KeyOf(NewEdge(a, b))
  }

  /** TrialEdge.equals: the endpoints are pairwise equal, in either order. */
  predicate EdgeEquals(e: Edge, f: Edge)
  {
    || (NodeEquals(e.node1, f.node1) && NodeEquals(e.node2, f.node2))
    || (NodeEquals(e.node1, f.node2) && NodeEquals(e.node2, f.node1))
  }

  /**
   * An edge equals the edge built from its endpoints in the other order, and
   * when the names differ ignoring case both orders are filed under one key.
   */
  lemma EdgeSymmetricIdentity(a: Node, b: Node)
    ensures EdgeEquals(NewEdge(a, b), NewEdge(b, a))
    ensures NodeCompare(a, b) != 0 ==> EdgeKeyOf(a, b) == EdgeKeyOf(b, a)
  {
    NodeEqualsReflexive(a);
    NodeEqualsReflexive(b);
    CompareAntisymmetric(a.name, b.name);
    NewEdgeSpec(a, b);
    NewEdgeSpec(b, a);
  }

  /**
   * Two keys of `addEdge` coincide exactly when the endpoint pairs agree up
   * to order (for endpoints whose names differ ignoring case).
   */
  lemma EdgeKeyMatch(x: Node, y: Node, a: Node, b: Node)
    requires NodeCompare(a, b) != 0
    ensures EdgeKeyOf(x, y) == EdgeKeyOf(a, b) <==> (x == a && y == b) || (x == b && y == a)
  {
    EdgeSymmetricIdentity(a, b);
    if (x == a && y == b) || (x == b && y == a) {
      EdgeSymmetricIdentity(x, y);
    }
  }

  /** The key of a drug–effect edge determines the drug and the effect. */
  lemma EdgeKeyInjective(d1: string, x1: string, d2: string, x2: string)
    ensures EdgeKeyOf(Node(d1, Plain), Node(x1, Effect)) == EdgeKeyOf(Node(d2, Plain), Node(x2, Effect))
            <==> d1 == d2 && x1 == x2
  {
  }

  /** TrialEdge.compareTo: by first endpoint, then by second, ignoring case. */
  function EdgeCompare(e: Edge, f: Edge): int
  {
    var c := CompareIgnoreCase(e.node1.name, f.node1.name);
    if c == 0 then CompareIgnoreCase(e.node2.name, f.node2.name) else c
  }

  /** Edge comparison is antisymmetric, and a zero result means the edges are equal. */
  lemma EdgeCompareProperties(e: Edge, f: Edge)
    ensures EdgeCompare(e, f) == -EdgeCompare(f, e)
    ensures EdgeCompare(e, f) == 0 && e.node1.kind == f.node1.kind && e.node2.kind == f.node2.kind
            ==> EdgeEquals(e, f)
  {
    CompareAntisymmetric(e.node1.name, f.node1.name);
    CompareAntisymmetric(e.node2.name, f.node2.name);
  }

  /** The endpoint interConnect takes from an edge: the first unless it is an effect node. */
  function Other(e: Edge): Node
  {
    if e.node1.kind != Effect then e.node1 else e.node2
  }

  /** The edge joins the effect node `n` to a plain node, in either order. */
  predicate LinksTo(e: Edge, n: Node)
  {
    && n.kind == Effect
    && ((e.node1 == n && e.node2.kind == Plain) || (e.node2 == n && e.node1.kind == Plain))
  }

  /** Two edges of one effect node with the same drug endpoint are equal edges. */
  lemma SameOtherEqual(e1: Edge, e2: Edge, n: Node)
    requires LinksTo(e1, n) && LinksTo(e2, n)
    requires Other(e1) == Other(e2)
    ensures EdgeEquals(e1, e2)
  {
    NodeEqualsReflexive(e1.node1);
    NodeEqualsReflexive(e1.node2);
  }

  function Abs(x: real): real
  {
    if x < 0.0 then -x else x
  }

  predicate OppositeSigns(w1: real, w2: real)
  {
    (w1 > 0.0 && w2 < 0.0) || (w1 < 0.0 && w2 > 0.0)
  }

  /**
   * interConnectWeight: for strictly opposite signs the sum of the
   * magnitudes, which outweighs either edge; otherwise the mean, which lies
   * between the two weights.
   */
  function InterConnectWeight(w1: real, w2: real): real
  {
    if OppositeSigns(w1, w2) then Abs(w1) + Abs(w2) else (w1 + w2) / 2.0
  }

  lemma InterConnectWeightBounds(w1: real, w2: real)
    ensures var r := InterConnectWeight(w1, w2);
            && (OppositeSigns(w1, w2) ==> r > 0.0 && r == Abs(w1) + Abs(w2) && r > Abs(w1) && r > Abs(w2))
            && (!OppositeSigns(w1, w2) ==> (w1 <= r <= w2 || w2 <= r <= w1) && r + r == w1 + w2)
  {
  }

  /** The interconnect weight does not depend on the order of the two edges. */
  lemma InterConnectWeightSymmetric(w1: real, w2: real)
    ensures InterConnectWeight(w1, w2) == InterConnectWeight(w2, w1)
  {
  }

  /** The fields stringToNodes reads from a line. */
  datatype Parsed = Parsed(drug: string, effect: string, tag: string, phase: int)

  /**
   * The parsing half of stringToNodes: split on '~', split the second part
   * on '!', parse the third field as an int.  `None` is every case in which
   * the source throws (a missing part or field, a phase that is not an int).
   */
  function ParseLine(line: string): Option<Parsed>
  {
    var firstSplit := Split(line, '~');
    if |firstSplit| < 2 then None
    else
      var secondSplit := Split(firstSplit[1], '!');
      if |secondSplit| < 3 then None
      else match ParseInt(secondSplit[2])
        case None => None
        case Some(phase) => Some(Parsed(firstSplit[0], secondSplit[0], secondSplit[1], phase))
  }

  /** The drug holds no '~', the effect no '!', and the phase is a 32-bit int. */
  lemma ParseLineFields(line: string)
    ensures var r := ParseLine(line);
            r.Some? ==> '~' !in r.value.drug && '!' !in r.value.effect && IntMin <= r.value.phase <= IntMax
  {
  }

  /** A line without '~' never parses. */
  lemma NoTildeNoParse(line: string)
    requires '~' !in line
    ensures ParseLine(line) == None
  {
  }

  /** The weight change of a line: +phase for a condition, -phase for any other tag. */
  function Delta(p: Parsed): real
  {
    var weightChange := if p.tag == ConditionIdentifier then 1.0 else -1.0;
    weightChange * p.phase as real
  }

  lemma DeltaSign(p: Parsed)
    ensures p.tag == ConditionIdentifier ==> Delta(p) == p.phase as real
    ensures p.tag != ConditionIdentifier ==> Delta(p) == -(p.phase as real)
  {
  }
}
