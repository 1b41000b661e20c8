/**
 * In-place weight accumulation (`edge.weight += delta`) seen as a value:
 * the sequence of contributions made, and what they add up to per key.
 */
module Accumulation {

  /** One `weight += delta` on the entry for `key`. */
  datatype Contribution<K> = Contribution(key: K, delta: real)

  /** The sum of the deltas that `cs` contributes to `k`. */
  function Total<K(==)>(cs: seq<Contribution<K>>, k: K): real
  {
    if cs == [] then 0.0
    else Total(cs[..|cs| - 1], k) + (if cs[|cs| - 1].key == k then cs[|cs| - 1].delta else 0.0)
  }

  /** The keys that `cs` touches. */
  function KeysOf<K>(cs: seq<Contribution<K>>): set<K>
  {
    set c | c in cs :: c.key
  }

  /** The keys of a concatenation are the keys of its parts. */
  lemma KeysOfConcat<K>(a: seq<Contribution<K>>, b: seq<Contribution<K>>)
    ensures KeysOf(a + b) == KeysOf(a) + KeysOf(b)
  {
    forall k | k in KeysOf(a + b)
      ensures k in KeysOf(a) + KeysOf(b)
    {
      var c :| c in a + b && c.key == k;
    }
    forall k | k in KeysOf(a) + KeysOf(b)
      ensures k in KeysOf(a + b)
    {
      if k in KeysOf(a) {
        var c :| c in a && c.key == k;
        assert c in a + b;
      } else {
        var c :| c in b && c.key == k;
        assert c in a + b;
      }
    }
  }

  /** The total over a concatenation is the sum of the totals. */
  lemma {:induction false} TotalConcat<K>(a: seq<Contribution<K>>, b: seq<Contribution<K>>, k: K)
    ensures Total(a + b, k) == Total(a, k) + Total(b, k)
  {
    if b != [] {
      assert (a + b)[..|a + b| - 1] == a + b[..|b| - 1];
      TotalConcat(a, b[..|b| - 1], k);
    } else {
      assert a + b == a;
    }
  }

  /** The sum of `f` over the elements of `s`. */
  function SumOf<T>(s: seq<T>, f: T -> real): real
  {
    if s == [] then 0.0 else SumOf(s[..|s| - 1], f) + f(s[|s| - 1])
  }

  /** Sums of terms that agree on the elements of `s` are equal. */
  lemma {:induction false} SumOfSameTerms<T>(s: seq<T>, f: T -> real, g: T -> real)
    requires forall x | x in s :: f(x) == g(x)
    ensures SumOf(s, f) == SumOf(s, g)
  {
    if s != [] {
      assert forall x | x in s[..|s| - 1] :: x in s;
      SumOfSameTerms(s[..|s| - 1], f, g);
      assert s[|s| - 1] in s;
    }
  }

  /** A sum of terms that vanish on the elements of `s` is zero. */
  lemma {:induction false} SumOfZero<T>(s: seq<T>, f: T -> real)
    requires forall x | x in s :: f(x) == 0.0
    ensures SumOf(s, f) == 0.0
  {
    if s != [] {
      assert forall x | x in s[..|s| - 1] :: x in s;
      SumOfZero(s[..|s| - 1], f);
      assert s[|s| - 1] in s;
    }
  }

  lemma {:induction false} SumOfConcat<T>(a: seq<T>, b: seq<T>, f: T -> real)
    ensures SumOf(a + b, f) == SumOf(a, f) + SumOf(b, f)
  {
    if b != [] {
      assert (a + b)[..|a + b| - 1] == a + b[..|b| - 1];
      SumOfConcat(a, b[..|b| - 1], f);
    } else {
      assert a + b == a;
    }
  }

  /** Taking the element at j out of a sequence. */
  function RemoveAt<T>(b: seq<T>, j: nat): seq<T>
    requires j < |b|
  {
    b[..j] + b[j + 1..]
  }

  lemma RemoveAtMultiset<T>(b: seq<T>, j: nat)
    requires j < |b|
    ensures multiset(RemoveAt(b, j)) == multiset(b) - multiset{b[j]}
  {
    assert b == b[..j] + [b[j]] + b[j + 1..];
  }

  lemma {:induction false} RemoveAtSum<T>(b: seq<T>, j: nat, f: T -> real)
    requires j < |b|
    ensures SumOf(b, f) == SumOf(RemoveAt(b, j), f) + f(b[j])
  {
    var front, x, back := b[..j], b[j], b[j + 1..];
    assert b == (front + [x]) + back;
    SumOfConcat(front + [x], back, f);
    SumOfConcat(front, [x], f);
    SumOfConcat(front, back, f);
    assert SumOf([x], f) == f(x) by {
      assert [x][..0] == [];
    }
  }

  /** A sum does not depend on the order of its terms. */
  lemma {:induction false} SumOfPermutation<T>(a: seq<T>, b: seq<T>, f: T -> real)
    requires multiset(a) == multiset(b)
    ensures SumOf(a, f) == SumOf(b, f)
  {
    if a != [] {
      var x := a[|a| - 1];
      var init := a[..|a| - 1];
      assert a == init + [x];
      assert multiset(init) == multiset(a) - multiset{x};
      assert x in multiset(b);
      var j :| 0 <= j < |b| && b[j] == x;
      RemoveAtMultiset(b, j);
      RemoveAtSum(b, j, f);
      SumOfPermutation(init, RemoveAt(b, j), f);
    } else {
      assert b == [];
    }
  }

  /** The contributions `f` makes for each element of `s`, in order. */
  function Collect<T, K>(s: seq<T>, f: T -> seq<Contribution<K>>): seq<Contribution<K>>
  {
    if s == [] then [] else Collect(s[..|s| - 1], f) + f(s[|s| - 1])
  }

  /** What each step adds to `k`. */
  function TotalOf<T, K(==)>(f: T -> seq<Contribution<K>>, k: K): T -> real
  {
    x => Total(f(x), k)
  }

  /** What a run of steps adds to a key is the sum of what each step adds to it. */
  lemma {:induction false} CollectTotal<T, K>(s: seq<T>, f: T -> seq<Contribution<K>>, k: K)
    ensures Total(Collect(s, f), k) == SumOf(s, TotalOf(f, k))
  {
    if s != [] {
      CollectTotal(s[..|s| - 1], f, k);
      TotalConcat(Collect(s[..|s| - 1], f), f(s[|s| - 1]), k);
    }
  }

  /** A run of steps touches a key exactly when one of its steps does. */
  lemma {:induction false} CollectKeys<T, K>(s: seq<T>, f: T -> seq<Contribution<K>>, k: K)
    ensures k in KeysOf(Collect(s, f)) <==> exists x | x in s :: k in KeysOf(f(x))
  {
    if s != [] {
      var init, last := s[..|s| - 1], s[|s| - 1];
      CollectKeys(init, f, k);
      KeysOfConcat(Collect(init, f), f(last));
      assert s == init + [last];
      assert forall x :: x in s <==> x in init || x == last;
    }
  }

  /** Reordering the steps changes neither the keys touched nor what is added to each. */
  lemma CollectPermutation<T, K>(s: seq<T>, t: seq<T>, f: T -> seq<Contribution<K>>, k: K)
    requires multiset(s) == multiset(t)
    ensures Total(Collect(s, f), k) == Total(Collect(t, f), k)
    ensures k in KeysOf(Collect(s, f)) <==> k in KeysOf(Collect(t, f))
  {
    CollectTotal(s, f, k);
    CollectTotal(t, f, k);
    SumOfPermutation(s, t, TotalOf(f, k));
    CollectKeys(s, f, k);
    CollectKeys(t, f, k);
    forall x
      ensures x in s <==> x in t
    {
      assert x in s <==> x in multiset(s);
      assert x in t <==> x in multiset(t);
    }
  }
}
