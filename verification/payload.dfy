/** The payload of an encoded stream: huffman.go's `encode`
    (huffman.go:233-282; main.go:252-301 is the same code), which writes the
    code of every input byte, pads with zeros to a whole byte and packs the
    bits eight to a byte, most significant first; and the digit string
    `decodeWithTree` reads back from those bytes (huffman.go:371-374). */
module Payload {
  import opened Bits
  import opened Util
  import opened Codebook

  /** Go's `codes[b]`: a byte without a code reads as the empty string. */
  function CodeOf(codes: CodeTable, b: Byte): seq<bool>
  {
    if b in codes then codes[b] else []
  }

  /** The codes of the input's bytes, one after another. */
  function Concat(codes: CodeTable, input: seq<Byte>): seq<bool>
  {
    if input == [] then [] else CodeOf(codes, input[0]) + Concat(codes, input[1..])
  }

  lemma {:induction false} ConcatSnoc(codes: CodeTable, input: seq<Byte>, b: Byte)
    ensures Concat(codes, input + [b]) == Concat(codes, input) + CodeOf(codes, b)
  {
    if input != [] {
      assert (input + [b])[1..] == input[1..] + [b];
      ConcatSnoc(codes, input[1..], b);
    } else {
      assert Concat(codes, [b]) == CodeOf(codes, b) + Concat(codes, []);
    }
  }

  /** The bits with huffman.go:242-245's padding: `8 - len % 8` zeros, so a
      string that already fills whole bytes gains a zero byte. */
  function Padded(bits: seq<bool>): seq<bool>
  {
    bits + Zeros(8 - |bits| % 8)
  }

  /** The padding is one to eight zeros and fills the last byte exactly. */
  lemma PaddedShape(bits: seq<bool>)
    ensures 1 <= |Padded(bits)| - |bits| <= 8
    ensures |Padded(bits)| == 8 * (|bits| / 8 + 1)
    ensures Padded(bits)[..|bits|] == bits
    ensures forall i :: |bits| <= i < |Padded(bits)| ==> !Padded(bits)[i]
  {
  }

  /** A bit string of whole bytes packed eight bits to a byte, most
      significant bit first. */
  function PackBits(bits: seq<bool>): seq<Byte>
    requires |bits| % 8 == 0
  {
    if bits == [] then []
    else
      ValueBound(bits[..8]);
      [Value(bits[..8])] + PackBits(bits[8..])
  }

  /** What `encode` returns. */
  function PayloadBytes(codes: CodeTable, input: seq<Byte>): seq<Byte>
  {
    PaddedShape(Concat(codes, input));
    PackBits(Padded(Concat(codes, input)))
  }

  /** `encode` (huffman.go:233-282). */
  method Encode(input: seq<Byte>, codes: CodeTable) returns (encodedInputBytes: seq<Byte>)
    ensures encodedInputBytes == PayloadBytes(codes, input)
  {
    var encoded: seq<bool> := [];
    for i := 0 to |input|
      invariant encoded == Concat(codes, input[..i])
    {
      var b := input[i];
      assert input[..i + 1] == input[..i] + [b];
      ConcatSnoc(codes, input[..i], b);
      if b in codes {
        encoded := encoded + codes[b];
      }
    }
    assert input[..|input|] == input;
    ghost var bits := encoded;
    var padding := 8 - |encoded| % 8;
    for i := 0 to padding
      invariant encoded == bits + Zeros(i)
    {
      assert Zeros(i + 1) == Zeros(i) + [false];
      encoded := encoded + [false];
    }
    PaddedShape(bits);
    encodedInputBytes := PackAll(encoded);
  }

  /** The packing loop of huffman.go:249-279: every eight bits become a byte. */
  method PackAll(encoded: seq<bool>) returns (encodedInputBytes: seq<Byte>)
    requires |encoded| % 8 == 0
    ensures encodedInputBytes == PackBits(encoded)
  {
    encodedInputBytes := [];
    var i := 0;
    while i < |encoded|
      invariant 0 <= i <= |encoded| && i % 8 == 0
      invariant encodedInputBytes + PackBits(encoded[i..]) == PackBits(encoded)
    {
      var b := encoded[i..i + 8];
      var x := PackByte(b);
      PackBitsStep(encoded[i..]);
      assert encoded[i..][..8] == b && encoded[i..][8..] == encoded[i + 8..];
      assert PackBits(encoded[i..]) == [x] + PackBits(encoded[i + 8..]);
      assert (encodedInputBytes + [x]) + PackBits(encoded[i + 8..]) == encodedInputBytes + PackBits(encoded[i..]);
      encodedInputBytes := encodedInputBytes + [x];
      i := i + 8;
    }
    assert encoded[i..] == [];
  }

  /** The first byte of a packed string is its first eight bits. */
  lemma PackBitsStep(bits: seq<bool>)
    requires |bits| % 8 == 0 && |bits| >= 8
    ensures PackBits(bits) == [Value(bits[..8])] + PackBits(bits[8..])
  {
  }

  /** The byte loop of huffman.go:254-276: digit `i` set adds `1 << (7 - i)`.
      The byte never wraps around: the sum is the value of the eight bits. */
  method PackByte(b: seq<bool>) returns (x: Byte)
    requires |b| == 8
    ensures x == Value(b)
  {
    x := 0;
    for i := 0 to 8
      invariant x == Value(b[..i]) * Pow2(8 - i)
    {
      assert b[..i + 1][..i] == b[..i];
      ValueBound(b[..i]);
      ShiftIn(Value(b[..i]), if b[i] then 1 else 0, i);
      if b[i] {
        x := x + Pow2(7 - i);
      }
    }
    assert b[..8] == b;
  }

  /** One more bit of a byte, most significant first: the partial byte stays
      below 256. */
  lemma ShiftIn(v: nat, bit: nat, i: nat)
    requires i < 8 && v < Pow2(i) && bit <= 1
    ensures v * Pow2(8 - i) + bit * Pow2(7 - i) == (2 * v + bit) * Pow2(7 - i) < 256
  {
    var p := Pow2(7 - i);
    var q := Pow2(8 - i);
    assert q == 2 * p;
    ShiftAlgebra(v, bit, p, q);
    var w := Pow2(i + 1);
    assert w == 2 * Pow2(i);
    Pow2Add(i + 1, 7 - i);
    assert Pow2(8) == 256;
    ShiftBound(2 * v + bit, w, p);
  }

  /** Doubling the place value is shifting the partial byte left. */
  lemma ShiftAlgebra(v: nat, bit: nat, p: nat, q: nat)
    requires q == 2 * p
    ensures v * q + bit * p == (2 * v + bit) * p
  {
    DistributeSum(2 * v, bit, p);
    MulDouble(v, p);
  }

  /** A number below `w` at place value `p` stays below `w * p`. */
  lemma ShiftBound(x: nat, w: nat, p: nat)
    requires x < w && p >= 1
    ensures x * p < w * p
  {
    MulMonotone(x + 1, w, p);
    MulSucc(x, p);
  }

  /** The digit string of huffman.go:371-374: every byte printed with `%08b`. */
  function Digits(encoded: seq<Byte>): seq<bool>
  {
    if encoded == [] then [] else FormatBinary(encoded[0], 8) + Digits(encoded[1..])
  }

  lemma {:induction false} DigitsSnoc(encoded: seq<Byte>, b: Byte)
    ensures Digits(encoded + [b]) == Digits(encoded) + FormatBinary(b, 8)
  {
    if encoded != [] {
      assert (encoded + [b])[1..] == encoded[1..] + [b];
      DigitsSnoc(encoded[1..], b);
    } else {
      assert Digits([b]) == FormatBinary(b, 8) + Digits([]);
    }
  }

  /** Printing the packed bytes with `%08b` gives back the bits. */
  lemma {:induction false} DigitsPackBits(bits: seq<bool>)
    requires |bits| % 8 == 0
    ensures Digits(PackBits(bits)) == bits
  {
    if bits != [] {
      DigitsPackBits(bits[8..]);
      FormatBinaryOfValue(bits[..8]);
      assert bits == bits[..8] + bits[8..];
    }
  }

  /** `encode` writes one byte more than the code bits fill: `len/8 + 1`. */
  lemma {:induction false} PackBitsLength(bits: seq<bool>)
    requires |bits| % 8 == 0
    ensures |PackBits(bits)| == |bits| / 8
  {
    if bits != [] {
      PackBitsLength(bits[8..]);
    }
  }

  /** The payload is `len(bits)/8 + 1` bytes, and printing it digit by digit
      gives back the code bits followed by one to eight zeros. */
  lemma PayloadRoundTrip(codes: CodeTable, input: seq<Byte>)
    ensures |PayloadBytes(codes, input)| == |Concat(codes, input)| / 8 + 1
    ensures Digits(PayloadBytes(codes, input)) == Concat(codes, input) + Zeros(8 - |Concat(codes, input)| % 8)
  {
    var bits := Concat(codes, input);
    var padded := Padded(bits);
    PaddedShape(bits);
    assert PayloadBytes(codes, input) == PackBits(padded);
    PackBitsLength(padded);
    assert |padded| / 8 == |bits| / 8 + 1;
    DigitsPackBits(padded);
  }
}
