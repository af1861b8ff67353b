/** Small facts about sequences used across the model: duplicate freedom and
    the number of occurrences of a value. */
module Seqs {

  predicate Distinct<T(==)>(s: seq<T>) {
    forall i, j :: 0 <= i < j < |s| ==> s[i] != s[j]
  }

  /** How often `x` occurs in `s`. */
  function CountOf<T(==)>(s: seq<T>, x: T): (n: nat)
    ensures n <= |s|
    ensures n > 0 <==> x in s
  {
    if |s| == 0 then 0
    else (if s[0] == x then 1 else 0) + CountOf(s[1..], x)
  }

  lemma CountOfCons<T>(x: T, s: seq<T>, y: T)
    ensures CountOf([x] + s, y) == (if x == y then 1 else 0) + CountOf(s, y)
  {
    assert ([x] + s)[1..] == s;
  }

  /** The occurrences in `s` of every value listed in `keys`, added up. */
  function SumCounts<T(==)>(s: seq<T>, keys: seq<T>): nat
  {
    if |keys| == 0 then 0
    else CountOf(s, keys[0]) + SumCounts(s, keys[1..])
  }

  lemma {:induction false} CountOfDistinct<T>(s: seq<T>, x: T)
    requires Distinct(s) && x in s
    ensures CountOf(s, x) == 1
  {
    if s[0] != x {
      CountOfDistinct(s[1..], x);
    } else {
      assert x !in s[1..];
    }
  }

  lemma {:induction false} SumCountsSplit<T>(s: seq<T>, keys: seq<T>)
    requires |s| > 0
    ensures SumCounts(s, keys) == SumCounts(s[1..], keys) + CountOf(keys, s[0])
  {
    if |keys| > 0 {
      SumCountsSplit(s, keys[1..]);
    }
  }

  /** Adding up the occurrences over a duplicate-free listing that covers
      every value of `s` counts each element of `s` exactly once. */
  lemma {:induction false} SumCountsCoverage<T>(s: seq<T>, keys: seq<T>)
    requires Distinct(keys)
    requires forall x :: x in s ==> x in keys
    ensures SumCounts(s, keys) == |s|
  {
    if |s| == 0 {
      SumCountsEmpty(s, keys);
    } else {
      SumCountsSplit(s, keys);
      CountOfDistinct(keys, s[0]);
      SumCountsCoverage(s[1..], keys);
    }
  }

  lemma {:induction false} SumCountsEmpty<T>(s: seq<T>, keys: seq<T>)
    requires |s| == 0
    ensures SumCounts(s, keys) == 0
  {
    if |keys| > 0 {
      SumCountsEmpty(s, keys[1..]);
    }
  }

  /** The values of `xs`, each once, at the place of its first appearance. */
  function Dedup(xs: seq<string>): (d: seq<string>)
    ensures Distinct(d)
    ensures forall x :: x in d <==> x in xs
  {
    if |xs| == 0 then []
    else
      var d := Dedup(xs[..|xs| - 1]);
      var x := xs[|xs| - 1];
      assert forall y :: y in xs <==> y in xs[..|xs| - 1] || y == x;
      if x in d then d else d + [x]
  }

  /** A list without repeats is its own first appearances. */
  lemma {:induction false} DedupDistinct(xs: seq<string>)
    requires Distinct(xs)
    ensures Dedup(xs) == xs
  {
    if |xs| > 0 {
      var prev := xs[..|xs| - 1];
      DedupDistinct(prev);
      assert xs[|xs| - 1] !in prev;
      assert prev + [xs[|xs| - 1]] == xs;
    }
  }

  /** A repeat of a value that already appeared changes no first appearance. */
  lemma {:induction false} DedupSkip(a: seq<string>, c: string, b: seq<string>)
    requires c in a
    ensures Dedup(a + [c] + b) == Dedup(a + b)
  {
    if |b| == 0 {
      assert a + [c] + b == a + [c];
      assert (a + [c])[..|a|] == a;
      assert a + b == a;
    } else {
      var b' := b[..|b| - 1];
      var y := b[|b| - 1];
      DedupSkip(a, c, b');
      assert (a + [c] + b)[..|a + [c] + b| - 1] == a + [c] + b';
      assert (a + b)[..|a + b| - 1] == a + b';
    }
  }
}
