/** The header of an encoded stream: huffman.go's `encodeHuffman`
    (huffman.go:285-312), which writes the symbol count, the symbols in
    codebook order and their code lengths two to a byte, and `decodeHuffman`
    (huffman.go:314-337), which reads them back and rebuilds the canonical
    codes from the lengths alone. main.go:304-356 is the same code with
    debug printing. */
module Header {
  import opened Bits
  import opened Util
  import opened Codebook
  import opened Canonical

  /** Go's `|` on bytes, one bit at a time from the lowest. */
  function BitOr(a: nat, b: nat): nat
    decreases a + b
  {
    if a == 0 then b
    else if b == 0 then a
    else 2 * BitOr(a / 2, b / 2) + (if a % 2 == 1 || b % 2 == 1 then 1 else 0)
  }

  /** Or-ing two `k`-bit numbers gives a `k`-bit number. */
  lemma {:induction false} BitOrBound(a: nat, b: nat, k: nat)
    requires a < Pow2(k) && b < Pow2(k)
    ensures BitOr(a, b) < Pow2(k)
    decreases a + b
  {
    if a != 0 && b != 0 {
      assert k >= 1;
      BitOrBound(a / 2, b / 2, k - 1);
    }
  }

  /** Or-ing a number below `2^k` into a multiple of `2^k` adds it. */
  lemma {:induction false} BitOrLow(x: nat, l: nat, k: nat)
    requires l < Pow2(k)
    ensures BitOr(x * Pow2(k), l) == x * Pow2(k) + l
    decreases k
  {
    if x != 0 && l != 0 {
      assert k >= 1;
      var p := Pow2(k - 1);
      MulDouble(x, p);
      MulMonotone(1, x, Pow2(k));
      assert (x * Pow2(k)) / 2 == x * p && (x * Pow2(k)) % 2 == 0;
      BitOrLow(x, l / 2, k - 1);
    }
  }

  /** Go's `byte(hi) << 4`: the length truncated to a byte, shifted by four
      with its upper bits falling off. */
  function PackHigh(hi: nat): Byte
  {
    (hi % 256) * 16 % 256
  }

  /** Go's `byte(hi)<<4 | byte(lo)`: the shifted first length with the
      second, truncated to a byte, or-ed in whole. */
  function Pack(hi: nat, lo: nat): Byte
  {
    assert Pow2(8) == 256;
    BitOrBound(PackHigh(hi), lo % 256, 8);
    BitOr(PackHigh(hi), lo % 256)
  }

  /** Lengths that fit in a nibble come back out of a packed byte. */
  lemma PackSplit(hi: nat, lo: nat)
    requires hi < 16 && lo < 16
    ensures Pack(hi, lo) == 16 * hi + lo
    ensures Pack(hi, lo) / 16 == hi && Pack(hi, lo) % 16 == lo
    ensures PackHigh(hi) / 16 == hi && PackHigh(hi) % 16 == 0
  {
    PackHighNibble(hi);
    assert lo % 256 == lo;
    assert Pack(hi, lo) == BitOr(16 * hi, lo);
    BitOrNibble(hi, lo);
    NibbleDivMod(hi, lo);
    NibbleDivMod(hi, 0);
  }

  /** A length below 16 shifted by four stays inside the byte. */
  lemma PackHighNibble(hi: nat)
    requires hi < 16
    ensures PackHigh(hi) == 16 * hi
  {
    assert hi % 256 == hi;
    assert 16 * hi < 256;
  }

  /** `hi << 4 | lo` for two nibbles is `16 * hi + lo`. */
  lemma BitOrNibble(hi: nat, lo: nat)
    requires lo < 16
    ensures BitOr(16 * hi, lo) == 16 * hi + lo
  {
    assert Pow2(4) == 16;
    BitOrLow(hi, lo, 4);
    assert hi * Pow2(4) == 16 * hi;
  }

  /** A byte made of two nibbles splits back into them. */
  lemma NibbleDivMod(q: nat, r: nat)
    requires r < 16
    ensures (16 * q + r) / 16 == q && (16 * q + r) % 16 == r
  {
  }

  /** Halving with and without rounding up. */
  lemma Halves(n: nat)
    ensures 2 * ((n + 1) / 2) == n + n % 2
    ensures n == 2 * (n / 2) + n % 2 && n % 2 < 2
  {
  }

  /** The nibble bytes of a codebook: entries 2k and 2k+1 share byte k. */
  function Nibbles(book: seq<Entry>): seq<Byte>
  {
    seq((|book| + 1) / 2, k requires 0 <= k < (|book| + 1) / 2 =>
      if 2 * k + 1 == |book| then PackHigh(|book[2 * k].code|)
      else Pack(|book[2 * k].code|, |book[2 * k + 1].code|))
  }

  /** The bytes of a codebook, in order. */
  function Symbols(book: seq<Entry>): seq<Byte>
  {
    seq(|book|, i requires 0 <= i < |book| => book[i].b)
  }

  /** The header written for a codebook: its entry count as a byte, its
      bytes, then its packed lengths. */
  function Written(book: seq<Entry>): seq<Byte>
  {
    [|book| % 256] + Symbols(book) + Nibbles(book)
  }

  /** What `encodeHuffman` returns for a code table: the header of its
      `sortCodes` codebook, which has one entry per key. */
  function HeaderBytes(codes: CodeTable): seq<Byte>
  {
    Written(SortedCodebook(codes))
  }

  /** `encodeHuffman` (huffman.go:285-312). The copy written to the file
      "test" is not modelled. */
  method EncodeHuffman(codes: CodeTable) returns (encoded: seq<Byte>)
    ensures encoded == HeaderBytes(codes)
  {
    encoded := [|codes| % 256];
    var codebook := SortCodes(codes);
    assert |codebook| == |codes| by {
      SortedCodebookSpec(codes);
    }
    encoded := AppendSymbols(encoded, codebook);
    encoded := AppendNibbles(encoded, codebook);
  }

  /** The loop of huffman.go:291-293: one byte per codebook entry. */
  method AppendSymbols(start: seq<Byte>, codebook: seq<Entry>) returns (encoded: seq<Byte>)
    ensures encoded == start + Symbols(codebook)
  {
    encoded := start;
    for i := 0 to |codebook|
      invariant encoded == start + Symbols(codebook[..i])
    {
      assert Symbols(codebook[..i + 1]) == Symbols(codebook[..i]) + [codebook[i].b];
      encoded := encoded + [codebook[i].b];
    }
    assert codebook[..|codebook|] == codebook;
  }

  /** The loop of huffman.go:296-307: the lengths of entries `i` and `i + 1`
      share a byte; a last entry of its own gets a zero low nibble. */
  method AppendNibbles(start: seq<Byte>, codebook: seq<Entry>) returns (encoded: seq<Byte>)
    ensures encoded == start + Nibbles(codebook)
  {
    encoded := start;
    var i := 0;
    while i < |codebook|
      invariant 0 <= i <= |codebook| + 1 && i % 2 == 0
      invariant encoded == start + Nibbles(codebook)[..i / 2]
    {
      var packed;
      if i == |codebook| - 1 {
        packed := PackHigh(|codebook[i].code|);
      } else {
        packed := Pack(|codebook[i].code|, |codebook[i + 1].code|);
      }
      assert Nibbles(codebook)[..i / 2 + 1] == Nibbles(codebook)[..i / 2] + [packed];
      encoded := encoded + [packed];
      i := i + 2;
    }
    assert Nibbles(codebook)[..i / 2] == Nibbles(codebook);
  }

  /** The header is `1 + N + ceil(N/2)` bytes: the count, the symbols of the
      codebook one per byte, and the lengths two per byte, high nibble first;
      for an odd count the last low nibble is 0. */
  lemma HeaderLayout(book: seq<Entry>)
    ensures |Written(book)| == 1 + |book| + (|book| + 1) / 2
    ensures Written(book)[0] == |book| % 256
    ensures forall i :: 0 <= i < |book| ==> Written(book)[1 + i] == book[i].b
  {
    WrittenAt(book, 0);
    forall i | 0 <= i < |book|
      ensures Written(book)[1 + i] == book[i].b
    {
      WrittenAt(book, 1 + i);
    }
  }

  /** After the symbols, byte `k` of a header holds the length of entry
      `2k` in its high nibble and that of entry `2k + 1`, or 0 when there is
      none, in its low one. */
  predicate LengthByte(book: seq<Entry>, k: nat)
    requires 2 * k < |book|
  {
    var h := Written(book);
    1 + |book| + k < |h| &&
    h[1 + |book| + k] / 16 == |book[2 * k].code| &&
    h[1 + |book| + k] % 16 == if 2 * k + 1 < |book| then |book[2 * k + 1].code| else 0
  }

  /** Every length byte of a header whose lengths fit in nibbles is laid
      out that way. */
  lemma HeaderLengths(book: seq<Entry>)
    requires forall i :: 0 <= i < |book| ==> |book[i].code| < 16
    ensures forall k: nat :: 2 * k < |book| ==> LengthByte(book, k)
  {
    forall k: nat | 2 * k < |book|
      ensures LengthByte(book, k)
    {
      WrittenAt(book, 1 + |book| + k);
      NibbleByte(book, k);
    }
  }

  /** Byte `j` of a header: the count, a symbol or a byte of lengths. */
  lemma WrittenAt(book: seq<Entry>, j: nat)
    ensures |Written(book)| == 1 + |book| + (|book| + 1) / 2
    ensures j == 0 ==> Written(book)[j] == |book| % 256
    ensures 1 <= j <= |book| ==> Written(book)[j] == book[j - 1].b
    ensures |book| < j < |Written(book)| ==> Written(book)[j] == Nibbles(book)[j - 1 - |book|]
  {
  }

  /** Byte `k` of the nibbles holds the length of entry `2k` in its high
      nibble and that of entry `2k + 1`, or 0 if there is none, in its low. */
  lemma NibbleByte(book: seq<Entry>, k: nat)
    requires forall i :: 0 <= i < |book| ==> |book[i].code| < 16
    requires k < (|book| + 1) / 2
    ensures Nibbles(book)[k] / 16 == |book[2 * k].code|
    ensures Nibbles(book)[k] % 16 == if 2 * k + 1 < |book| then |book[2 * k + 1].code| else 0
  {
    var hi := |book[2 * k].code|;
    if 2 * k + 1 == |book| {
      assert Nibbles(book)[k] == PackHigh(hi);
      PackSplit(hi, 0);
    } else {
      var lo := |book[2 * k + 1].code|;
      assert Nibbles(book)[k] == Pack(hi, lo);
      PackSplit(hi, lo);
    }
  }

  /** The lengths `decodeHuffman` unpacks (huffman.go:321-328): from every
      byte its high nibble `b >> 4`, then its low nibble `b & 0x0F`. */
  function Unpacked(packed: seq<Byte>): seq<nat>
  {
    seq(2 * |packed|, j requires 0 <= j < 2 * |packed| =>
      if j % 2 == 0 then packed[j / 2] / 16 else packed[j / 2] % 16)
  }

  /** Packing then unpacking gives back every length below 16, and a 0 after
      the last one when their count is odd. */
  lemma NibbleRoundTrip(book: seq<Entry>)
    requires forall i :: 0 <= i < |book| ==> |book[i].code| < 16
    ensures |Unpacked(Nibbles(book))| == |book| + |book| % 2
    ensures forall i :: 0 <= i < |book| ==> Unpacked(Nibbles(book))[i] == |book[i].code|
    ensures |book| % 2 == 1 ==> Unpacked(Nibbles(book))[|book|] == 0
  {
    Halves(|book|);
    forall i | 0 <= i < |book|
      ensures Unpacked(Nibbles(book))[i] == |book[i].code|
    {
      NibbleAt(book, i);
    }
    if |book| % 2 == 1 {
      NibbleAt(book, |book|);
    }
  }

  /** One unpacked length: entry `i` sits in byte `i / 2`, in its high nibble
      when `i` is even. */
  lemma NibbleAt(book: seq<Entry>, i: nat)
    requires forall i :: 0 <= i < |book| ==> |book[i].code| < 16
    requires i < |book| + |book| % 2
    ensures |Unpacked(Nibbles(book))| == |book| + |book| % 2
    ensures Unpacked(Nibbles(book))[i] == if i < |book| then |book[i].code| else 0
  {
    Halves(|book|);
    var k := i / 2;
    Halves(i);
    var packed := Nibbles(book)[k];
    assert Unpacked(Nibbles(book))[i] == if i % 2 == 0 then packed / 16 else packed % 16;
    var hi := |book[2 * k].code|;
    if 2 * k + 1 == |book| {
      assert Nibbles(book)[k] == PackHigh(hi);
      PackSplit(hi, 0);
    } else {
      var lo := |book[2 * k + 1].code|;
      assert Nibbles(book)[k] == Pack(hi, lo);
      PackSplit(hi, lo);
    }
  }

  /** The entries `decodeHuffman` writes (huffman.go:330-334): symbol `i`
      with `lengths[i]` zeros. */
  function ZeroBook(symbols: seq<Byte>, lengths: seq<nat>): seq<Entry>
    requires |symbols| <= |lengths|
  {
    seq(|symbols|, i requires 0 <= i < |symbols| => Entry(symbols[i], Zeros(lengths[i])))
  }

  /** The table `decodeHuffman` fills before canonicalising it; None is a
      Go panic. Go computes `numberOfSymbols+1` in a byte, so for 255 symbols
      the symbol slice is `encoded[1:0]`, which panics. */
  function ZeroTable(encoded: seq<Byte>): Option<CodeTable>
  {
    if |encoded| == 0 then None
    else
      var end := (encoded[0] as int + 1) % 256;
      if end < 1 || |encoded| < end then None
      else
        var lengths := Unpacked(encoded[end..]);
        if |lengths| < end - 1 then None
        else Some(ToTable(ZeroBook(encoded[1..end], lengths)))
  }

  /** `decodeHuffman` as a function. */
  function DecodeHuffmanSpec(encoded: seq<Byte>): Option<CodeTable>
  {
    match ZeroTable(encoded)
    case None => None
    case Some(table) => Some(CanonicalMap(table))
  }

  /** `ZeroTable` with the symbol count widened before adding one. */
  function ZeroTableFixed(encoded: seq<Byte>): Option<CodeTable>
  {
    if |encoded| == 0 then None
    else
      var end := encoded[0] as int + 1;
      if |encoded| < end then None
      else
        var lengths := Unpacked(encoded[end..]);
        if |lengths| < end - 1 then None
        else Some(ToTable(ZeroBook(encoded[1..end], lengths)))
  }

  /** `decodeHuffman` with the symbol count widened before adding one. */
  function DecodeHuffmanFixed(encoded: seq<Byte>): Option<CodeTable>
  {
    match ZeroTableFixed(encoded)
    case None => None
    case Some(table) => Some(CanonicalMap(table))
  }

  /** `decodeHuffman` (huffman.go:314-337): slice off the symbols, unpack the
      lengths, give each symbol a string of zeros of its length, and
      canonicalise. */
  method DecodeHuffman(encoded: seq<Byte>) returns (codes: Option<CodeTable>)
    ensures codes == DecodeHuffmanSpec(encoded)
  {
    if |encoded| == 0 {
      return None;
    }
    var numberOfSymbols := encoded[0];
    var end := (numberOfSymbols as int + 1) % 256;
    if end < 1 || |encoded| < end {
      return None;
    }
    var symbols := encoded[1..end];
    var packedLengths := encoded[end..];
    var lengths := UnpackLengths(packedLengths);
    var table := ZeroCodes(symbols, lengths);
    assert table == ZeroTable(encoded);
    if table.None? {
      return None;
    }
    var canonical := ConstructCanonical(table.value);
    codes := Some(canonical);
  }

  /** The loop of huffman.go:330-334: symbol `i` gets `lengths[i]` zeros; Go
      panics at the first symbol without a length. */
  method ZeroCodes(symbols: seq<Byte>, lengths: seq<nat>) returns (table: Option<CodeTable>)
    ensures table == if |lengths| < |symbols| then None else Some(ToTable(ZeroBook(symbols, lengths)))
  {
    var codes: CodeTable := map[];
    for i := 0 to |symbols|
      invariant i <= |lengths| && codes == ToTable(ZeroBook(symbols[..i], lengths))
    {
      if i >= |lengths| {
        return None;
      }
      assert ZeroBook(symbols[..i + 1], lengths)[..i] == ZeroBook(symbols[..i], lengths);
      codes := codes[symbols[i] := Zeros(lengths[i])];
    }
    assert symbols[..|symbols|] == symbols;
    table := Some(codes);
  }

  /** The unpacking loop of huffman.go:321-328. */
  method UnpackLengths(packed: seq<Byte>) returns (lengths: seq<nat>)
    ensures lengths == Unpacked(packed)
  {
    lengths := [];
    for i := 0 to |packed|
      invariant lengths == Unpacked(packed[..i])
    {
      var b := packed[i];
      var upperNibble := b / 16;
      lengths := lengths + [upperNibble];
      var lowerNibble := b % 16;
      lengths := lengths + [lowerNibble];
    }
    assert packed[..|packed|] == packed;
  }

  /** The zeros table read back from a codebook's lengths has the codebook's
      table's keys and code lengths. */
  lemma ZeroBookLengths(book: seq<Entry>, codes: CodeTable, lengths: seq<nat>)
    requires Lists(book, codes) && DistinctBytes(book)
    requires |book| <= |lengths|
    requires forall i :: 0 <= i < |book| ==> lengths[i] == |book[i].code|
    ensures ToTable(ZeroBook(Symbols(book), lengths)).Keys == codes.Keys
    ensures forall k :: k in codes ==> |ToTable(ZeroBook(Symbols(book), lengths))[k]| == |codes[k]|
  {
    var zb := ZeroBook(Symbols(book), lengths);
    var t := ToTable(zb);
    SameBytes(zb, book);
    ToTableLists(zb);
    ListedBytes(book, codes);
    forall k | k in codes
      ensures |t[k]| == |codes[k]|
    {
      assert Entry(k, codes[k]) in book;
      var i :| 0 <= i < |book| && book[i] == Entry(k, codes[k]);
      assert zb[i] in zb;
    }
  }

  /** The split of a header into count, symbols and lengths. */
  lemma WrittenParts(book: seq<Entry>)
    ensures Written(book)[1..|book| + 1] == Symbols(book)
    ensures Written(book)[|book| + 1..] == Nibbles(book)
  {
  }

  /** Reading back a header whose lengths fit in nibbles gives the table
      with every symbol at its code length, ready for canonicalising. */
  lemma ZeroTableRoundTrip(codes: CodeTable, end: nat)
    requires forall b :: b in codes ==> |codes[b]| < 16
    requires end == |codes| + 1 && |Written(SortedCodebook(codes))| >= end
    ensures var h := Written(SortedCodebook(codes));
      var lengths := Unpacked(h[end..]);
      |lengths| >= end - 1 &&
      ToTable(ZeroBook(h[1..end], lengths)).Keys == codes.Keys &&
      CanonicalMap(ToTable(ZeroBook(h[1..end], lengths))) == CanonicalMap(codes)
  {
    var book := SortedCodebook(codes);
    assert Lists(book, codes) && DistinctBytes(book) && |book| == |codes| by {
      SortedCodebookSpec(codes);
    }
    forall i | 0 <= i < |book|
      ensures |book[i].code| < 16
    {
      assert book[i] in book;
    }
    WrittenParts(book);
    NibbleRoundTrip(book);
    var lengths := Unpacked(Nibbles(book));
    ZeroBookLengths(book, codes, lengths);
    CanonicalLengthsOnly(ToTable(ZeroBook(Symbols(book), lengths)), codes);
  }

  /** `decodeHuffman` inverts `encodeHuffman`: for at most 254 symbols, all
      with codes shorter than 16 bits, reading the header back gives the
      canonical codes of the table that was written. */
  lemma HeaderRoundTrip(codes: CodeTable)
    requires |codes| <= 254
    requires forall b :: b in codes ==> |codes[b]| < 16
    ensures DecodeHuffmanSpec(HeaderBytes(codes)) == Some(CanonicalMap(codes))
  {
    var book := SortedCodebook(codes);
    var h := HeaderBytes(codes);
    assert |book| == |codes| by {
      SortedCodebookSpec(codes);
    }
    WrittenAt(book, 0);
    assert h[0] == |codes|;
    FixedAgrees(h);
    HeaderRoundTripFixed(codes);
  }

  /** Below a count of 255 the byte sum does not wrap, and the header is
      read the same with and without the widening. */
  lemma FixedAgrees(encoded: seq<Byte>)
    requires |encoded| == 0 || encoded[0] < 255
    ensures ZeroTable(encoded) == ZeroTableFixed(encoded)
    ensures DecodeHuffmanSpec(encoded) == DecodeHuffmanFixed(encoded)
  {
  }

  /** With the count widened, the round trip holds for every table that fits
      the count byte. */
  lemma HeaderRoundTripFixed(codes: CodeTable)
    requires |codes| <= 255
    requires forall b :: b in codes ==> |codes[b]| < 16
    ensures DecodeHuffmanFixed(HeaderBytes(codes)) == Some(CanonicalMap(codes))
  {
    var book := SortedCodebook(codes);
    var h := HeaderBytes(codes);
    assert |book| == |codes| by {
      SortedCodebookSpec(codes);
    }
    WrittenAt(book, 0);
    assert h[0] == |codes|;
    var end := |codes| + 1;
    ZeroTableRoundTrip(codes, end);
    ZeroTableFixedSome(h);
  }

  /** A header long enough for its symbols and their lengths is read. */
  lemma ZeroTableFixedSome(encoded: seq<Byte>)
    requires |encoded| > 0 && encoded[0] + 1 <= |encoded|
    requires |Unpacked(encoded[encoded[0] + 1..])| >= encoded[0]
    ensures DecodeHuffmanFixed(encoded) ==
      Some(CanonicalMap(ToTable(ZeroBook(encoded[1..encoded[0] + 1], Unpacked(encoded[encoded[0] + 1..])))))
  {
  }

  /** A header for 255 symbols makes `decodeHuffman` panic: the byte sum
      `255 + 1` is 0 and the symbol slice runs from 1 to 0. */
  lemma HeaderWraps(codes: CodeTable)
    requires |codes| == 255
    ensures |HeaderBytes(codes)| >= 1 && HeaderBytes(codes)[0] == 255
    ensures DecodeHuffmanSpec(HeaderBytes(codes)) == None
  {
    var book := SortedCodebook(codes);
    assert |book| == |codes| by {
      SortedCodebookSpec(codes);
    }
    WrittenAt(book, 0);
    ZeroTableWraps(HeaderBytes(codes));
  }

  /** A header that announces 255 symbols is never read. */
  lemma ZeroTableWraps(encoded: seq<Byte>)
    requires |encoded| >= 1 && encoded[0] == 255
    ensures DecodeHuffmanSpec(encoded) == None
  {
    assert (encoded[0] as int + 1) % 256 == 0;
  }
}
