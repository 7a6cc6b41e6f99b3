/** Small generic helpers shared by the codec's modules: an option type,
    sums and concatenations over sequences that do not depend on order, and
    the potential that makes the restarting bubble sorts terminate. */
module Util {

  datatype Option<T> = None | Some(value: T)

  /** The sum of `f` over the elements of `s`. */
  function SumBy<T>(s: seq<T>, f: T -> int): int
  {
    if s == [] then 0 else SumBy(s[..|s| - 1], f) + f(s[|s| - 1])
  }

  lemma {:induction false} SumByAppend<T>(a: seq<T>, b: seq<T>, f: T -> int)
    ensures SumBy(a + b, f) == SumBy(a, f) + SumBy(b, f)
  {
    if b != [] {
      assert (a + b)[..|a + b| - 1] == a + b[..|b| - 1];
      SumByAppend(a, b[..|b| - 1], f);
    } else {
      assert a + b == a;
    }
  }

  lemma SumBySingle<T>(x: T, f: T -> int)
    ensures SumBy([x], f) == f(x)
  {
    assert [x][..0] == [];
  }

  /** A sum does not depend on the order of the elements. */
  lemma {:induction false} SumByPermutation<T>(a: seq<T>, b: seq<T>, f: T -> int)
    requires multiset(a) == multiset(b)
    ensures SumBy(a, f) == SumBy(b, f)
  {
    if a == [] {
      assert |b| == |multiset(b)| == 0;
    } else {
      var x := a[|a| - 1];
      var a' := a[..|a| - 1];
      assert a == a' + [x];
      assert x in multiset(b);
      var k :| 0 <= k < |b| && b[k] == x;
      var b' := b[..k] + b[k + 1..];
      assert b == b[..k] + [x] + b[k + 1..];
      assert multiset(b') == multiset(b) - multiset{x};
      SumByPermutation(a', b', f);
      SumByAppend(b[..k] + [x], b[k + 1..], f);
      SumByAppend(b[..k], [x], f);
      SumByAppend(b[..k], b[k + 1..], f);
      SumByAppend(a', [x], f);
    }
  }

  /** The concatenation of `f` over the elements of `s`. */
  function FlatBy<T, U>(s: seq<T>, f: T -> seq<U>): seq<U>
  {
    if s == [] then [] else FlatBy(s[..|s| - 1], f) + f(s[|s| - 1])
  }

  lemma {:induction false} FlatByAppend<T, U>(a: seq<T>, b: seq<T>, f: T -> seq<U>)
    ensures FlatBy(a + b, f) == FlatBy(a, f) + FlatBy(b, f)
  {
    if b != [] {
      assert (a + b)[..|a + b| - 1] == a + b[..|b| - 1];
      FlatByAppend(a, b[..|b| - 1], f);
    } else {
      assert a + b == a;
    }
  }

  lemma FlatBySingle<T, U>(x: T, f: T -> seq<U>)
    ensures FlatBy([x], f) == f(x)
  {
    assert [x][..0] == [];
  }

  /** The multiset of a concatenation does not depend on the order of the parts. */
  lemma {:induction false} FlatByPermutation<T, U>(a: seq<T>, b: seq<T>, f: T -> seq<U>)
    requires multiset(a) == multiset(b)
    ensures multiset(FlatBy(a, f)) == multiset(FlatBy(b, f))
  {
    if a == [] {
      assert |b| == |multiset(b)| == 0;
    } else {
      var x := a[|a| - 1];
      var a' := a[..|a| - 1];
      assert a == a' + [x];
      assert x in multiset(b);
      var k :| 0 <= k < |b| && b[k] == x;
      var b' := b[..k] + b[k + 1..];
      assert b == b[..k] + [x] + b[k + 1..];
      assert multiset(b') == multiset(b) - multiset{x};
      FlatByPermutation(a', b', f);
      FlatByAppend(b[..k] + [x], b[k + 1..], f);
      FlatByAppend(b[..k], [x], f);
      FlatByAppend(b[..k], b[k + 1..], f);
      FlatByAppend(a', [x], f);
    }
  }

  function Total(s: seq<nat>): nat
  {
    if s == [] then 0 else Total(s[..|s| - 1]) + s[|s| - 1]
  }

  /** The sum of `i * s[i]`: an adjacent swap that moves a larger key to the
      right raises it, which bounds the number of swaps a bubble sort makes. */
  function WeightedSum(s: seq<nat>): nat
  {
    if s == [] then 0 else WeightedSum(s[..|s| - 1]) + (|s| - 1) * s[|s| - 1]
  }

  lemma {:induction false} TotalAppend(a: seq<nat>, b: seq<nat>)
    ensures Total(a + b) == Total(a) + Total(b)
  {
    if b != [] {
      assert (a + b)[..|a + b| - 1] == a + b[..|b| - 1];
      TotalAppend(a, b[..|b| - 1]);
    } else {
      assert a + b == a;
    }
  }

  lemma {:induction false} WeightedSumAppend(a: seq<nat>, b: seq<nat>)
    ensures WeightedSum(a + b) == WeightedSum(a) + WeightedSum(b) + |a| * Total(b)
  {
    if b != [] {
      var b' := b[..|b| - 1];
      var x := b[|b| - 1];
      assert (a + b)[..|a + b| - 1] == a + b';
      WeightedSumAppend(a, b');
      assert WeightedSum(a + b) == WeightedSum(a + b') + (|a| + |b'|) * x;
      DistributeSum(|a|, |b'|, x);
      DistributeSum(|a|, Total(b'), x);
    } else {
      assert a + b == a;
    }
  }

  lemma DistributeSum(p: int, q: int, x: int)
    ensures (p + q) * x == p * x + q * x
    ensures p * (q + x) == p * q + p * x
  {
  }

  lemma {:induction false} WeightedSumBound(s: seq<nat>)
    ensures WeightedSum(s) <= |s| * Total(s)
  {
    if s != [] {
      var s' := s[..|s| - 1];
      var x := s[|s| - 1];
      WeightedSumBound(s');
      MulMonotone(|s'|, |s|, Total(s'));
      DistributeSum(|s|, Total(s'), x);
    }
  }

  lemma MulMonotone(p: nat, q: nat, x: nat)
    requires p <= q
    ensures p * x <= q * x
  {
  }

  /** Replacing a middle part by one of the same length and total changes the
      weighted sum only by the change of the part's own weighted sum. */
  lemma ReplaceMiddle(head: seq<nat>, m: seq<nat>, m': seq<nat>, tail: seq<nat>)
    requires |m| == |m'| && Total(m) == Total(m')
    ensures Total(head + m + tail) == Total(head + m' + tail)
    ensures WeightedSum(head + m + tail) + WeightedSum(m') == WeightedSum(head + m' + tail) + WeightedSum(m)
  {
    TotalAppend(head + m, tail);
    TotalAppend(head + m', tail);
    TotalAppend(head, m);
    TotalAppend(head, m');
    WeightedSumAppend(head + m, tail);
    WeightedSumAppend(head + m', tail);
    WeightedSumAppend(head, m);
    WeightedSumAppend(head, m');
    var n := |head + m|;
    assert |head + m'| == n;
    assert Total(head + m) == Total(head + m');
  }

  /** The swap of adjacent elements a bubble sort makes, as a sequence. */
  function Swap<T>(s: seq<T>, i: nat): (r: seq<T>)
    requires i + 1 < |s|
    ensures |r| == |s| && multiset(r) == multiset(s)
  {
    var r := s[i := s[i + 1]][i + 1 := s[i]];
    assert r == s[..i] + [s[i + 1], s[i]] + s[i + 2..];
    assert s == s[..i] + [s[i], s[i + 1]] + s[i + 2..];
    r
  }

  /** Swapping an inverted adjacent pair raises the weighted sum by the
      difference of the two keys and keeps the total. */
  lemma SwapRaisesWeightedSum(s: seq<nat>, i: nat)
    requires i + 1 < |s|
    ensures Total(s[i := s[i + 1]][i + 1 := s[i]]) == Total(s)
    ensures WeightedSum(s[i := s[i + 1]][i + 1 := s[i]]) == WeightedSum(s) + s[i] - s[i + 1]
  {
    var t := s[i := s[i + 1]][i + 1 := s[i]];
    var x, y := s[i], s[i + 1];
    var head, tail := s[..i], s[i + 2..];
    assert s == head + [x, y] + tail;
    assert t == head + [y, x] + tail;
    assert [x, y][..1] == [x] && [y, x][..1] == [y];
    assert [x][..0] == [] && [y][..0] == [];
    assert Total([x]) == x && Total([y]) == y;
    assert Total([x, y]) == x + y == Total([y, x]);
    assert WeightedSum([x]) == 0 && WeightedSum([y]) == 0;
    assert WeightedSum([x, y]) == y && WeightedSum([y, x]) == x;
    ReplaceMiddle(head, [x, y], [y, x], tail);
  }
}
