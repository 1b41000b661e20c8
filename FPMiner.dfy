/**
 * FPMiner: frequent 1- and 2-patterns over the frequent-pattern corpus, one
 * row per line, a row being the '!'-separated names of one trial's
 * interventions.  The corpus is the sequence of its lines; each method
 * walks it where the source rereads the file.
 */
module FPMiner {
  import opened JavaStrings

  /** The default minimum support of a frequent pattern. */
  const DefaultMinSupport: int := 50

  /** The names of one row, as `split("!")` gives them. */
  function Tokens(line: string): seq<string>
  {
    Split(line, '!')
  }

  /** The set a loop of `set.add` builds from a sequence of names. */
  function SetOf(ts: seq<string>): set<string>
  {
    if ts == [] then {} else SetOf(ts[..|ts| - 1]) + {ts[|ts| - 1]}
  }

  lemma {:induction false} SetOfMembers(ts: seq<string>, x: string)
    ensures x in SetOf(ts) <==> x in ts
  {
    if ts != [] {
      SetOfMembers(ts[..|ts| - 1], x);
      assert ts == ts[..|ts| - 1] + [ts[|ts| - 1]];
    }
  }

  /** Every name of every row, compared by exact string. */
  function DistinctTokens(lines: seq<string>): set<string>
  {
    if lines == [] then {} else DistinctTokens(lines[..|lines| - 1]) + SetOf(Tokens(lines[|lines| - 1]))
  }

  /** The candidates are exactly the names that occur in some row. */
  lemma {:induction false} DistinctTokensMembers(lines: seq<string>, x: string)
    ensures x in DistinctTokens(lines) <==> exists q | 0 <= q < |lines| :: x in Tokens(lines[q])
  {
    if lines != [] {
      var init := lines[..|lines| - 1];
      DistinctTokensMembers(init, x);
      SetOfMembers(Tokens(lines[|lines| - 1]), x);
      assert forall q | 0 <= q < |init| :: init[q] == lines[q];
    }
  }

  /** How many names of `ts` equal `s` ignoring case. */
  function Occurrences(ts: seq<string>, s: string): nat
  {
    if ts == [] then 0
    else Occurrences(ts[..|ts| - 1], s) + (if CompareIgnoreCase(ts[|ts| - 1], s) == 0 then 1 else 0)
  }

  /** The support of a single name: its occurrences ignoring case over all rows, repeats included. */
  function Support(lines: seq<string>, s: string): nat
  {
    if lines == [] then 0 else Support(lines[..|lines| - 1], s) + Occurrences(Tokens(lines[|lines| - 1]), s)
  }

  /** A row in which `s` occurs exactly contributes at least one to its support. */
  lemma {:induction false} OccursCounted(ts: seq<string>, s: string)
    requires s in ts
    ensures Occurrences(ts, s) >= 1
  {
    var init := ts[..|ts| - 1];
    if ts[|ts| - 1] == s {
      CompareReflexive(s);
    } else {
      assert ts == init + [ts[|ts| - 1]];
      OccursCounted(init, s);
    }
  }

  /** The frequent names among `order`, in that order. */
  function FrequentOne(lines: seq<string>, order: seq<string>, minSupport: int): seq<string>
  {
    if order == [] then []
    else
      var s := order[|order| - 1];
      FrequentOne(lines, order[..|order| - 1], minSupport) + (if Support(lines, s) >= minSupport then [s] else [])
  }

  /** A name is a frequent 1-pattern exactly when it is a candidate with enough support. */
  lemma {:induction false} FrequentOneMembers(lines: seq<string>, order: seq<string>, minSupport: int, x: string)
    ensures x in FrequentOne(lines, order, minSupport) <==> x in order && Support(lines, x) >= minSupport
  {
    if order != [] {
      var init := order[..|order| - 1];
      FrequentOneMembers(lines, init, minSupport, x);
      assert order == init + [order[|order| - 1]];
    }
  }

  /** No two positions of `s` hold the same name. */
  predicate Distinct(s: seq<string>)
  {
    forall i, j | 0 <= i < j < |s| :: s[i] != s[j]
  }

  /** The 1-patterns of an enumeration of a set are distinct, and no more numerous than its elements. */
  lemma {:induction false} FrequentOneDistinct(lines: seq<string>, order: seq<string>, minSupport: int)
    requires Distinct(order)
    ensures Distinct(FrequentOne(lines, order, minSupport))
    ensures |FrequentOne(lines, order, minSupport)| <= |order|
  {
    if order != [] {
      var init, s := order[..|order| - 1], order[|order| - 1];
      FrequentOneDistinct(lines, init, minSupport);
      var f := FrequentOne(lines, init, minSupport);
      forall i | 0 <= i < |f|
        ensures f[i] != s
      {
        FrequentOneMembers(lines, init, minSupport, f[i]);
      }
    }
  }

  /** The rows whose name set contains both s1 and s2 (exact strings). */
  function PairSupport(lines: seq<string>, s1: string, s2: string): nat
  {
    if lines == [] then 0
    else
      var row := SetOf(Tokens(lines[|lines| - 1]));
      PairSupport(lines[..|lines| - 1], s1, s2) + (if s1 in row && s2 in row then 1 else 0)
  }

  /**
   * Each row adds at most one to a pair's support, and a pair is never
   * more frequent than either of its names.
   */
  lemma {:induction false} PairSupportBounds(lines: seq<string>, s1: string, s2: string)
    ensures PairSupport(lines, s1, s2) <= |lines|
    ensures PairSupport(lines, s1, s2) <= Support(lines, s1)
    ensures PairSupport(lines, s1, s2) <= Support(lines, s2)
    ensures PairSupport(lines, s1, s2) == PairSupport(lines, s2, s1)
  {
    if lines != [] {
      var ts := Tokens(lines[|lines| - 1]);
      PairSupportBounds(lines[..|lines| - 1], s1, s2);
      SetOfMembers(ts, s1);
      SetOfMembers(ts, s2);
      if s1 in ts && s2 in ts {
        OccursCounted(ts, s1);
        OccursCounted(ts, s2);
      }
    }
  }

  /** The line a frequent 2-pattern is reported as. */
  function PatternOf(s1: string, s2: string): string
  {
    s1 + ", " + s2
  }

  /** What the inner loop reports for (i, j'), i <= j' < j, of the 1-patterns `f`. */
  function PairRow(lines: seq<string>, f: seq<string>, minSupport: int, i: nat, j: nat): seq<string>
    requires i < |f| && j <= |f|
    decreases j
  {
    if j <= i then []
    else
      PairRow(lines, f, minSupport, i, j - 1)
      + (if f[i] != f[j - 1] && PairSupport(lines, f[i], f[j - 1]) >= minSupport then [PatternOf(f[i], f[j - 1])] else [])
  }

  /** What both loops report for the rows below i. */
  function PairGrid(lines: seq<string>, f: seq<string>, minSupport: int, i: nat): seq<string>
    requires i <= |f|
  {
    if i == 0 then [] else PairGrid(lines, f, minSupport, i - 1) + PairRow(lines, f, minSupport, i - 1, |f|)
  }

  function FrequentTwo(lines: seq<string>, f: seq<string>, minSupport: int): seq<string>
  {
    PairGrid(lines, f, minSupport, |f|)
  }

  /** A frequent pair at positions i < j of the 1-patterns. */
  predicate ReportedPair(lines: seq<string>, f: seq<string>, minSupport: int, i: int, j: int, p: string)
  {
    0 <= i < j < |f| && f[i] != f[j] && PairSupport(lines, f[i], f[j]) >= minSupport && p == PatternOf(f[i], f[j])
  }

  lemma {:induction false} PairRowMembers(lines: seq<string>, f: seq<string>, minSupport: int, i: nat, j: nat, p: string)
    requires i < |f| && j <= |f|
    ensures p in PairRow(lines, f, minSupport, i, j) <==> exists k | i < k < j :: ReportedPair(lines, f, minSupport, i, k, p)
    decreases j
  {
    if j > i {
      PairRowMembers(lines, f, minSupport, i, j - 1, p);
      if ReportedPair(lines, f, minSupport, i, j - 1, p) {
        assert i < j - 1;
      }
    }
  }

  lemma {:induction false} PairGridMembers(lines: seq<string>, f: seq<string>, minSupport: int, i: nat, p: string)
    requires i <= |f|
    ensures p in PairGrid(lines, f, minSupport, i) <==> exists a, b | 0 <= a < i && a < b < |f| :: ReportedPair(lines, f, minSupport, a, b, p)
  {
    if i > 0 {
      PairGridMembers(lines, f, minSupport, i - 1, p);
      PairRowMembers(lines, f, minSupport, i - 1, |f|, p);
      if p in PairRow(lines, f, minSupport, i - 1, |f|) {
        var k :| i - 1 < k < |f| && ReportedPair(lines, f, minSupport, i - 1, k, p);
      }
      if exists a, b | 0 <= a < i && a < b < |f| :: ReportedPair(lines, f, minSupport, a, b, p) {
        var a, b :| 0 <= a < i && a < b < |f| && ReportedPair(lines, f, minSupport, a, b, p);
        if a < i - 1 {
          assert exists a', b' | 0 <= a' < i - 1 && a' < b' < |f| :: ReportedPair(lines, f, minSupport, a', b', p);
        }
      }
    }
  }

  /**
   * A 2-pattern "s1, s2" is reported exactly when s1 and s2 are 1-patterns
   * at positions i < j with different names and enough rows containing
   * both; the diagonal i == j is never reported.
   */
  lemma FrequentTwoMembers(lines: seq<string>, f: seq<string>, minSupport: int, p: string)
    ensures p in FrequentTwo(lines, f, minSupport) <==>
              exists i, j | 0 <= i < j < |f| :: ReportedPair(lines, f, minSupport, i, j, p)
  {
    PairGridMembers(lines, f, minSupport, |f|, p);
  }

  /**
   * On distinct 1-patterns, as an enumeration of the candidate set gives,
   * the `equals` test never rejects a pair i < j: every pair of positions
   * with enough supporting rows is reported.
   */
  lemma FrequentTwoOfDistinct(lines: seq<string>, f: seq<string>, minSupport: int, p: string)
    requires Distinct(f)
    ensures p in FrequentTwo(lines, f, minSupport) <==>
              exists i, j | 0 <= i < j < |f| :: PairSupport(lines, f[i], f[j]) >= minSupport && p == PatternOf(f[i], f[j])
  {
    FrequentTwoMembers(lines, f, minSupport, p);
    if exists i, j | 0 <= i < j < |f| :: PairSupport(lines, f[i], f[j]) >= minSupport && p == PatternOf(f[i], f[j]) {
      var i, j :| 0 <= i < j < |f| && PairSupport(lines, f[i], f[j]) >= minSupport && p == PatternOf(f[i], f[j]);
      assert ReportedPair(lines, f, minSupport, i, j, p);
    }
  }

  /** The 1-patterns of an enumeration of the candidates are distinct candidates with enough support. */
  lemma MinedOnePatterns(lines: seq<string>, order: seq<string>, minSupport: int)
    requires Enumerates(order, DistinctTokens(lines))
    ensures var f := FrequentOne(lines, order, minSupport);
            && Distinct(f)
            && forall k | 0 <= k < |f| :: f[k] in DistinctTokens(lines) && Support(lines, f[k]) >= minSupport
  {
    FrequentOneDistinct(lines, order, minSupport);
    var f := FrequentOne(lines, order, minSupport);
    forall k | 0 <= k < |f|
      ensures f[k] in DistinctTokens(lines) && Support(lines, f[k]) >= minSupport
    {
      FrequentOneMembers(lines, order, minSupport, f[k]);
    }
  }

  /** Every reported pair is at least as frequent as the threshold and at most as frequent as its names. */
  lemma FrequentTwoSupport(lines: seq<string>, f: seq<string>, minSupport: int, i: nat, j: nat, p: string)
    requires ReportedPair(lines, f, minSupport, i, j, p)
    ensures minSupport <= PairSupport(lines, f[i], f[j]) <= Support(lines, f[i])
    ensures PairSupport(lines, f[i], f[j]) <= Support(lines, f[j]) && PairSupport(lines, f[i], f[j]) <= |lines|
  {
    PairSupportBounds(lines, f[i], f[j]);
  }

  /** `order` lists every element of `s` exactly once (an iteration order of a HashSet). */
  predicate Enumerates(order: seq<string>, s: set<string>)
  {
    Distinct(order) && (forall x | x in order :: x in s) && (forall x | x in s :: x in order)
  }

  // ---------------------------------------------------------------------
  // The methods

  /** The loop of `set.add` over the names of one row. */
  method RowSet(strings: seq<string>) returns (drugs: set<string>)
    ensures drugs == SetOf(strings)
  {
    drugs := {};
    var k := 0;
    while k < |strings|
      invariant 0 <= k <= |strings|
      invariant drugs == SetOf(strings[..k])
    {
      assert strings[..k + 1][..k] == strings[..k];
      drugs := drugs + {strings[k]};
      k := k + 1;
    }
    assert strings[..k] == strings;
  }

  /** getDistinctDrugs: every name of every row. */
  method GetDistinctDrugs(lines: seq<string>) returns (drugs: set<string>)
    ensures drugs == DistinctTokens(lines)
  {
    drugs := {};
    var n := 0;
    while n < |lines|
      invariant 0 <= n <= |lines|
      invariant drugs == DistinctTokens(lines[..n])
    {
      var strings := Split(lines[n], '!');
      var i := 0;
      while i < |strings|
        invariant 0 <= i <= |strings|
        invariant drugs == DistinctTokens(lines[..n]) + SetOf(strings[..i])
      {
        assert strings[..i + 1][..i] == strings[..i];
        drugs := drugs + {strings[i]};
        i := i + 1;
      }
      assert strings[..i] == strings;
      assert lines[..n + 1][..n] == lines[..n];
      n := n + 1;
    }
    assert lines[..n] == lines;
  }

  /** The support count of getFrequentOnePatterns for one candidate. */
  method CountSupport(lines: seq<string>, s: string) returns (support: nat)
    ensures support == Support(lines, s)
  {
    support := 0;
    var n := 0;
    while n < |lines|
      invariant 0 <= n <= |lines|
      invariant support == Support(lines[..n], s)
    {
      var strings := Split(lines[n], '!');
      var i := 0;
      while i < |strings|
        invariant 0 <= i <= |strings|
        invariant support == Support(lines[..n], s) + Occurrences(strings[..i], s)
      {
        assert strings[..i + 1][..i] == strings[..i];
        if CompareIgnoreCase(strings[i], s) == 0 {
          support := support + 1;
        }
        i := i + 1;
      }
      assert strings[..i] == strings;
      assert lines[..n + 1][..n] == lines[..n];
      n := n + 1;
    }
    assert lines[..n] == lines;
  }

  /** getFrequentOnePatterns, over the candidates in the iteration order `order`. */
  method GetFrequentOnePatterns(lines: seq<string>, order: seq<string>, minSupport: int) returns (patterns: seq<string>)
    ensures patterns == FrequentOne(lines, order, minSupport)
  {
    patterns := [];
    var q := 0;
    while q < |order|
      invariant 0 <= q <= |order|
      invariant patterns == FrequentOne(lines, order[..q], minSupport)
    {
      var s := order[q];
      var support := CountSupport(lines, s);
      if support >= minSupport {
        patterns := patterns + [s];
      }
      assert order[..q + 1][..q] == order[..q];
      q := q + 1;
    }
    assert order[..q] == order;
  }

  /** The row count of getFrequentTwoPatterns for one pair. */
  method CountPairSupport(lines: seq<string>, s1: string, s2: string) returns (support: nat)
    ensures support == PairSupport(lines, s1, s2)
  {
    support := 0;
    var n := 0;
    while n < |lines|
      invariant 0 <= n <= |lines|
      invariant support == PairSupport(lines[..n], s1, s2)
    {
      var drugs := RowSet(Split(lines[n], '!'));
      if s1 in drugs && s2 in drugs {
        support := support + 1;
      }
      assert lines[..n + 1][..n] == lines[..n];
      n := n + 1;
    }
    assert lines[..n] == lines;
  }

  /** getFrequentTwoPatterns: pairs i <= j of different 1-patterns with enough supporting rows. */
  method GetFrequentTwoPatterns(lines: seq<string>, frequentOnePatterns: seq<string>, minSupport: int)
    returns (patterns: seq<string>)
    ensures patterns == FrequentTwo(lines, frequentOnePatterns, minSupport)
  {
    var f := frequentOnePatterns;
    patterns := [];
    var i := 0;
    while i < |f|
      invariant 0 <= i <= |f|
      invariant patterns == PairGrid(lines, f, minSupport, i)
    {
      var j := i;
      while j < |f|
        invariant i <= j <= |f|
        invariant patterns == PairGrid(lines, f, minSupport, i) + PairRow(lines, f, minSupport, i, j)
      {
        var s1, s2 := f[i], f[j];
        if s1 != s2 {
          var support := CountPairSupport(lines, s1, s2);
          if support >= minSupport {
            patterns := patterns + [PatternOf(s1, s2)];
          }
        }
        j := j + 1;
      }
      i := i + 1;
    }
  }

  /**
   * mineFrequentPatterns: the candidates, in the iteration order `order`
   * of the set, their frequent 1-patterns, then the frequent 2-patterns,
   * which the source prints one per line.
   */
  method MineFrequentPatterns(lines: seq<string>, order: seq<string>, minSupport: int) returns (patterns: seq<string>)
    requires Enumerates(order, DistinctTokens(lines))
    ensures patterns == FrequentTwo(lines, FrequentOne(lines, order, minSupport), minSupport)
  {
    var drugs := GetDistinctDrugs(lines);
    // `order` is the iteration order of the HashSet just built
    assert Enumerates(order, drugs);
    var frequentOnePatterns := GetFrequentOnePatterns(lines, order, minSupport);
    patterns := GetFrequentTwoPatterns(lines, frequentOnePatterns, minSupport);
  }
}
