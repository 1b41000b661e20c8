/**
 * The parts of java.lang.String and java.lang.Integer that the graph
 * builder, the pattern miner and the line serialisers rely on:
 * `compareToIgnoreCase`, `split` with a one-character separator, and
 * `Integer.parseInt`.  Case folding is ASCII only.
 */
module JavaStrings {

  datatype Option<T> = None | Some(value: T)

  /** Character.toLowerCase restricted to ASCII letters. */
  function Lower(c: char): char
  {
    if 'A' <= c <= 'Z' then (c as int + 32) as char else c
  }

  /** The string with every character folded to lower case. */
  function Fold(s: string): (r: string)
    ensures |r| == |s|
  {
    if s == [] then [] else [Lower(s[0])] + Fold(s[1..])
  }

  /**
   * String.compareToIgnoreCase: the difference of the first pair of
   * characters that differ after folding, otherwise the difference of the
   * lengths.
   */
  function CompareIgnoreCase(a: string, b: string): int
  {
    if |a| == 0 || |b| == 0 then |a| - |b|
    else if Lower(a[0]) != Lower(b[0]) then Lower(a[0]) as int - Lower(b[0]) as int
    else CompareIgnoreCase(a[1..], b[1..])
  }

  /** Swapping the arguments negates the comparison. */
  lemma {:induction false} CompareAntisymmetric(a: string, b: string)
    ensures CompareIgnoreCase(a, b) == -CompareIgnoreCase(b, a)
  {
    if |a| > 0 && |b| > 0 && Lower(a[0]) == Lower(b[0]) {
      CompareAntisymmetric(a[1..], b[1..]);
    }
  }

  /** Every string compares equal to itself. */
  lemma {:induction false} CompareReflexive(a: string)
    ensures CompareIgnoreCase(a, a) == 0
  {
    if |a| > 0 {
      CompareReflexive(a[1..]);
    }
  }

  /** A comparison result of zero means exactly that the folded strings agree. */
  lemma {:induction false} CompareZeroIffFoldEqual(a: string, b: string)
    ensures CompareIgnoreCase(a, b) == 0 <==> Fold(a) == Fold(b)
  {
    if |a| > 0 && |b| > 0 {
      CompareZeroIffFoldEqual(a[1..], b[1..]);
      assert Fold(a)[0] == Lower(a[0]) && Fold(b)[0] == Lower(b[0]);
      assert Fold(a)[1..] == Fold(a[1..]) && Fold(b)[1..] == Fold(b[1..]);
    }
  }

  /**
   * The pieces of `s` between occurrences of `sep`, empty pieces included:
   * the list String.split builds before trailing empty strings are removed.
   */
  function Pieces(s: string, sep: char): (r: seq<string>)
    ensures |r| >= 1
    ensures forall k | 0 <= k < |r| :: sep !in r[k]
  {
    if s == [] then [""]
    else
      var rest := Pieces(s[1..], sep);
      if s[0] == sep then [""] + rest else [[s[0]] + rest[0]] + rest[1..]
  }

  /** Drops empty strings from the end of `r`. */
  function StripTrailingEmpty(r: seq<string>): (t: seq<string>)
    ensures |t| <= |r| && t == r[..|t|]
    ensures t != [] ==> t[|t| - 1] != ""
    ensures forall k | |t| <= k < |r| :: r[k] == ""
  {
    if r != [] && r[|r| - 1] == "" then StripTrailingEmpty(r[..|r| - 1]) else r
  }

  /**
   * String.split(sep) with the default limit 0: a string without the
   * separator gives itself as the only element (so "" gives [""]);
   * otherwise the pieces, with trailing empty pieces removed.
   */
  function Split(s: string, sep: char): (r: seq<string>)
    ensures forall k | 0 <= k < |r| :: sep !in r[k]
    ensures sep !in s ==> r == [s]
  {
    if sep !in s then [s] else StripTrailingEmpty(Pieces(s, sep))
  }

  /** A piece that holds no separator splits off in front of the rest. */
  lemma {:induction false} PiecesOfJoin(a: string, sep: char, b: string)
    requires sep !in a
    ensures Pieces(a + [sep] + b, sep) == [a] + Pieces(b, sep)
  {
    if a == [] {
      assert a + [sep] + b == [sep] + b;
      assert ([sep] + b)[1..] == b;
    } else {
      var s := a + [sep] + b;
      assert s[0] == a[0] && s[1..] == a[1..] + [sep] + b;
      PiecesOfJoin(a[1..], sep, b);
      assert [a[0]] + a[1..] == a;
    }
  }

  /** A string without the separator is one piece. */
  lemma {:induction false} PiecesWithoutSeparator(a: string, sep: char)
    requires sep !in a
    ensures Pieces(a, sep) == [a]
  {
    if a != [] {
      PiecesWithoutSeparator(a[1..], sep);
      assert [a[0]] + a[1..] == a;
    }
  }

  predicate IsDigit(c: char)
  {
    '0' <= c <= '9'
  }

  predicate AllDigits(s: string)
  {
    |s| > 0 && forall k | 0 <= k < |s| :: IsDigit(s[k])
  }

  /** The value of a string of decimal digits. */
  function DigitsValue(s: string): nat
    requires forall k | 0 <= k < |s| :: IsDigit(s[k])
  {
    if s == [] then 0
    else
      assert IsDigit(s[|s| - 1]);
      DigitsValue(s[..|s| - 1]) * 10 + (s[|s| - 1] as int - '0' as int)
  }

  const IntMin: int := -0x8000_0000
  const IntMax: int := 0x7FFF_FFFF

  /**
   * Integer.parseInt restricted to ASCII: an optional '+' or '-', then at
   * least one digit '0'..'9', and a value that fits in 32 bits.  `None`
   * covers the NumberFormatException case and also the strings holding
   * other Unicode decimal digits, which Java accepts.
   */
  function ParseInt(s: string): (r: Option<int>)
    ensures r.Some? ==> IntMin <= r.value <= IntMax
    ensures AllDigits(s) && DigitsValue(s) <= IntMax ==> r == Some(DigitsValue(s))
  {
    if |s| == 0 then None
    else
      var body := if s[0] == '-' || s[0] == '+' then s[1..] else s;
      if !AllDigits(body) then None
      else
        var v: int := if s[0] == '-' then 0 - DigitsValue(body) as int else DigitsValue(body);
        if IntMin <= v <= IntMax then Some(v) else None
  }

  /** A one-character string parses exactly when it is a digit, to that digit. */
  lemma ParseOneChar(c: char)
    ensures ParseInt([c]) == if IsDigit(c) then Some(c as int - '0' as int) else None
  {
    assert [c][0] == c && [c][..0] == [];
    if c == '-' || c == '+' {
      assert [c][1..] == [];
      assert !AllDigits([c][1..]);
    } else if IsDigit(c) {
      assert AllDigits([c]);
      assert DigitsValue([c]) == c as int - '0' as int;
    } else {
      assert !IsDigit([c][0]);
    }
  }
}
