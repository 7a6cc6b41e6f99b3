/** Bit strings and the Go formatting/parsing primitives the codec relies on.
    The Go code keeps bit strings as strings of '0' and '1'; here they are
    sequences of booleans (true is '1'), most significant bit first. */
module Bits {

  /** A Go `byte`. */
  type Byte = b: int | 0 <= b < 256

  function Pow2(n: nat): (r: nat)
    ensures r >= 1
  {
    if n == 0 then 1 else 2 * Pow2(n - 1)
  }

  lemma {:induction false} Pow2Add(a: nat, b: nat)
    ensures Pow2(a + b) == Pow2(a) * Pow2(b)
  {
    if a > 0 {
      Pow2Add(a - 1, b);
      assert Pow2(a + b) == 2 * Pow2(a - 1 + b);
    }
  }

  lemma {:induction false} Pow2Monotone(a: nat, b: nat)
    requires a <= b
    ensures Pow2(a) <= Pow2(b)
  {
    if a < b {
      Pow2Monotone(a, b - 1);
    }
  }

  lemma MulDouble(x: int, p: int)
    ensures x * (2 * p) == 2 * (x * p)
  {
  }

  lemma MulSucc(x: int, p: int)
    ensures (x + 1) * p == x * p + p
  {
  }

  /** `strings.Repeat("0", n)`. */
  function Zeros(n: nat): (r: seq<bool>)
    ensures |r| == n
    ensures forall i :: 0 <= i < n ==> !r[i]
  {
    seq(n, _ => false)
  }

  predicate IsPrefix(a: seq<bool>, b: seq<bool>)
  {
    |a| <= |b| && b[..|a|] == a
  }

  /** The unsigned number a bit string denotes, read most significant bit first. */
  function Value(bits: seq<bool>): nat
  {
    if bits == [] then 0
    else 2 * Value(bits[..|bits| - 1]) + (if bits[|bits| - 1] then 1 else 0)
  }

  lemma {:induction false} ValueBound(bits: seq<bool>)
    ensures Value(bits) < Pow2(|bits|)
  {
    if bits != [] {
      ValueBound(bits[..|bits| - 1]);
    }
  }

  lemma {:induction false} ValueAppend(a: seq<bool>, b: seq<bool>)
    ensures Value(a + b) == Value(a) * Pow2(|b|) + Value(b)
  {
    if b == [] {
      assert a + b == a;
    } else {
      var b' := b[..|b| - 1];
      assert (a + b)[..|a + b| - 1] == a + b';
      ValueAppend(a, b');
      var x, p, y := Value(a), Pow2(|b'|), Value(b');
      var e := if b[|b| - 1] then 1 else 0;
      assert Value(a + b) == 2 * (x * p + y) + e;
      assert Value(b) == 2 * y + e;
      assert Pow2(|b|) == 2 * p;
      MulDouble(x, p);
    }
  }

  lemma {:induction false} ValueZeros(n: nat)
    ensures Value(Zeros(n)) == 0
  {
    if n > 0 {
      assert Zeros(n)[..n - 1] == Zeros(n - 1);
      ValueZeros(n - 1);
    }
  }

  /** Two bit strings of one width with one value are the same string. */
  lemma {:induction false} ValueInjective(a: seq<bool>, b: seq<bool>)
    requires |a| == |b| && Value(a) == Value(b)
    ensures a == b
  {
    if a != [] {
      var n := |a|;
      ValueInjective(a[..n - 1], b[..n - 1]);
      assert a == a[..n - 1] + [a[n - 1]];
      assert b == b[..n - 1] + [b[n - 1]];
    }
  }

  /** Leading bits of a string determine the top of its value. */
  lemma PrefixValue(a: seq<bool>, b: seq<bool>)
    requires IsPrefix(a, b)
    ensures Value(a) * Pow2(|b| - |a|) <= Value(b) < (Value(a) + 1) * Pow2(|b| - |a|)
  {
    var rest := b[|a|..];
    assert b == a + rest;
    ValueAppend(a, rest);
    ValueBound(rest);
    MulSucc(Value(a), Pow2(|rest|));
  }

  /** Go's `%b` verb: binary digits without leading zeros ("0" for zero). */
  function Binary(n: nat): (r: seq<bool>)
    ensures |r| >= 1
    decreases n
  {
    if n < 2 then [n == 1] else Binary(n / 2) + [n % 2 == 1]
  }

  lemma {:induction false} BinaryValue(n: nat)
    ensures Value(Binary(n)) == n
    decreases n
  {
    if n >= 2 {
      var d := Binary(n / 2);
      assert (d + [n % 2 == 1])[..|d|] == d;
      BinaryValue(n / 2);
    }
  }

  lemma {:induction false} BinaryLength(n: nat, w: nat)
    requires 1 <= w && n < Pow2(w)
    ensures |Binary(n)| <= w
    decreases n
  {
    if n >= 2 {
      assert w >= 2;
      BinaryLength(n / 2, w - 1);
    }
  }

  /** Go's `fmt.Sprintf("%0<w>b", n)`: binary digits left-padded with zeros to
      at least `w` digits; a number too wide for `w` digits is printed in full. */
  function FormatBinary(n: nat, w: nat): (r: seq<bool>)
    ensures |r| >= w
  {
    var digits := Binary(n);
    if |digits| < w then Zeros(w - |digits|) + digits else digits
  }

  /** Digits already as wide as asked for are printed unpadded. */
  lemma FormatBinaryWide(n: nat, w: nat)
    requires |Binary(n)| >= w
    ensures FormatBinary(n, w) == Binary(n)
  {
  }

  /** The padding adds only leading zeros: the printed value is `n`. */
  lemma FormatBinaryValue(n: nat, w: nat)
    ensures Value(FormatBinary(n, w)) == n
  {
    var digits := Binary(n);
    BinaryValue(n);
    if |digits| < w {
      var z := Zeros(w - |digits|);
      assert FormatBinary(n, w) == z + digits;
      ValueAppend(z, digits);
      ValueZeros(w - |digits|);
      assert Value(z) * Pow2(|digits|) == 0;
    }
  }

  /** A number that fits in `w >= 1` bits is printed in exactly `w` digits. */
  lemma FormatBinaryFits(n: nat, w: nat)
    requires 1 <= w && n < Pow2(w)
    ensures |FormatBinary(n, w)| == w
    ensures Value(FormatBinary(n, w)) == n
  {
    BinaryLength(n, w);
    FormatBinaryValue(n, w);
  }

  /** A string of `w >= 1` bits is the `w`-digit printing of its own value. */
  lemma FormatBinaryOfValue(bits: seq<bool>)
    requires |bits| >= 1
    ensures FormatBinary(Value(bits), |bits|) == bits
  {
    ValueBound(bits);
    FormatBinaryFits(Value(bits), |bits|);
    ValueInjective(FormatBinary(Value(bits), |bits|), bits);
  }

  /** Go's `strconv.ParseInt(s, 2, 8)` on a string of binary digits, keeping
      only the value: any number past the int8 range comes back as 127 (the
      range error is only printed by the caller), and "" comes back as 0. */
  function ParseInt8(bits: seq<bool>): nat
  {
    if Value(bits) >= 128 then 127 else Value(bits)
  }
}
