/** The two entry points of huffman.go: `Encode` (huffman.go:153-213), which
    appends a 0 sentinel, builds a Huffman tree for the byte counts, makes
    its codes canonical and writes a header followed by the packed codes of
    the input, and `Decode` (huffman.go:215-230), which splits a stream at
    the header length, rebuilds the codes from the header and walks the
    payload with the tree of those codes. */
module Codec {
  import opened Bits
  import opened Util
  import opened HuffmanTree
  import opened Frequencies
  import opened Codebook
  import opened Codes
  import opened Canonical
  import opened Header
  import opened Payload
  import opened Trie

  /** The canonical codes `Encode` uses for a tree. */
  function CodesOf(t: Tree): CodeTable
  {
    CanonicalMap(BuildCodes(t, [], map[]))
  }

  /** What `Encode` returns for the sentinel-terminated data once the tree
      is built: the header of the canonical codes, then the payload. */
  function EncodeWith(data: seq<Byte>, t: Tree): seq<Byte>
  {
    HeaderBytes(CodesOf(t)) + PayloadBytes(CodesOf(t), data)
  }

  /** The bytes of a sequence, as a set. */
  function ByteSet(data: seq<Byte>): set<Byte>
  {
    set b | b in data
  }

  /** `t` is a tree over the byte counts of `data`: inner nodes weigh and
      are named by their children, the leaves carry each byte of `data`
      once, each weighing its number of occurrences, and the root weighs as
      much as `data` is long. The order of the merges is not fixed here. */
  ghost predicate TreeOfCounts(t: Tree, data: seq<Byte>)
  {
    WellFormed(t) && t.freq == |data| &&
    DistinctChars(Leaves(t)) && LeafChars(Leaves(t)) == ByteSet(data) &&
    forall x :: x in Leaves(t) ==> x.freq == multiset(data)[x.Char()]
  }

  /** `tree` is what `buildBinaryTree` returns for the leaves of the byte
      counts of `data` in some order sorted by weight; Go's map order picks
      the order among leaves of equal weight. */
  ghost predicate BuiltFor(data: seq<Byte>, tree: Option<Tree>)
  {
    exists s :: IsLeafList(s, Counts(data)) && SortedByWeight(s) && Build(s) == tree
  }

  /** `Encode` (huffman.go:153-213). Go's map order decides the order of
      equal-weight leaves, hence the tree; `tree` is what `buildBinaryTree`
      returned. None is the panic of `buildCodes` on a nil root: an input of
      zeros only, or a weight tie that `buildBinaryTree` drops. */
  method Encode(input: seq<Byte>) returns (encoded: Option<seq<Byte>>, ghost tree: Option<Tree>)
    ensures BuiltFor(input + [0], tree)
    ensures encoded.Some? <==> tree.Some?
    ensures tree.Some? ==>
      tree.value.Branch? && TreeOfCounts(tree.value, input + [0]) &&
      encoded.value == EncodeWith(input + [0], tree.value)
    ensures (forall i :: 0 <= i < |input| ==> input[i] == 0) ==> encoded.None?
  {
    var data := input + [0];
    var freq := CountFrequencies(data);
    var nodes := LeafNodes(freq);
    var a := new Tree[|nodes|](i requires 0 <= i < |nodes| => nodes[i]);
    assert a[..] == nodes;
    SortByWeight(a);
    var frequencies := a[..];
    var root := BuildBinaryTree(frequencies);
    LeafListPermutation(nodes, frequencies, freq);
    assert IsLeafList(frequencies, Counts(data)) && SortedByWeight(frequencies) && Build(frequencies) == root;
    if (forall i :: 0 <= i < |input| ==> input[i] == 0) {
      OnlyZeros(input, freq);
    }
    if root.None? {
      return None, None;
    }
    BuiltTree(nodes, freq, data, frequencies, root.value);
    var codes := BuildCodes(root.value, [], map[]);
    codes := ConstructCanonical(codes);
    var encodedInputBytes := Payload.Encode(data, codes);
    var encodedHuffmanBytes := EncodeHuffman(codes);
    encoded := Some(encodedHuffmanBytes + encodedInputBytes);
    tree := root;
  }

  /** An input of zeros, with its sentinel, has a single distinct byte. */
  lemma OnlyZeros(input: seq<Byte>, freq: map<Byte, nat>)
    requires forall i :: 0 <= i < |input| ==> input[i] == 0
    requires forall b :: b in freq <==> b in input + [0]
    ensures freq.Keys == {0} && |freq.Keys| == 1
  {
    assert freq.Keys == {0} by {
      forall b | b in freq
        ensures b == 0
      {
        var i :| 0 <= i < |input + [0]| && (input + [0])[i] == b;
      }
      assert (input + [0])[|input|] == 0;
    }
  }

  /** A sequence without repeated elements holds each value at most once. */
  lemma {:induction false} NoRepeats<T>(s: seq<T>)
    requires forall i, j :: 0 <= i < j < |s| ==> s[i] != s[j]
    ensures forall x :: multiset(s)[x] <= 1
  {
    if s != [] {
      var front := s[..|s| - 1];
      NoRepeats(front);
      assert s == front + [s[|s| - 1]];
      forall x
        ensures multiset(s)[x] <= 1
      {
        if x == s[|s| - 1] {
          assert x !in front by {
            forall i | 0 <= i < |front|
              ensures front[i] != x
            {
              assert front[i] == s[i];
            }
          }
        }
      }
    }
  }

  /** A value at two places of a sequence occurs at least twice. */
  lemma Twice<T>(s: seq<T>, i: nat, j: nat)
    requires i < j < |s|
    ensures s[i] == s[j] ==> multiset(s)[s[i]] >= 2
  {
    assert s == s[..j] + [s[j]] + s[j + 1..];
    assert s[..j][i] == s[i];
    assert s[i] in multiset(s[..j]);
  }

  /** A list of leaves is its own leaf list. */
  lemma {:induction false} LeafListLeaves(list: seq<Tree>)
    requires forall i :: 0 <= i < |list| ==> list[i].Leaf?
    ensures ListLeaves(list) == list
  {
    if list != [] {
      var front := list[..|list| - 1];
      LeafListLeaves(front);
      assert list == front + [list[|list| - 1]];
    }
  }

  /** A tree `buildBinaryTree` returns has a merge at its root. */
  lemma {:induction false} BuildBranch(list: seq<Tree>)
    ensures Build(list).Some? ==> Build(list).value.Branch?
    decreases |list|
  {
    if |list| >= 2 && list[2..] != [] {
      BuildBranch(InsertByWeight(list[2..], Merge(list[0], list[1])));
    }
  }

  /** The tree built from the leaves of a byte count, sorted by weight, is a
      tree over the counts of the data, and its leaves are the counted
      leaves. */
  lemma BuiltTree(nodes: seq<Tree>, freq: map<Byte, nat>, data: seq<Byte>, sorted: seq<Tree>, t: Tree)
    requires forall b :: b in freq <==> b in data
    requires forall b :: b in freq ==> freq[b] == multiset(data)[b] >= 1
    requires IsLeafList(nodes, freq)
    requires multiset(sorted) == multiset(nodes) && SortedByWeight(sorted)
    requires Build(sorted) == Some(t)
    ensures t.Branch? && TreeOfCounts(t, data)
    ensures multiset(Leaves(t)) == multiset(nodes)
  {
    BuiltWeights(nodes, freq, data, sorted, t);
    DistinctLeaves(Leaves(t), nodes, freq);
    LeafBytes(Leaves(t), nodes, freq, data);
    forall x | x in Leaves(t)
      ensures x.freq == multiset(data)[x.Char()]
    {
      assert x in multiset(nodes);
      var i :| 0 <= i < |nodes| && nodes[i] == x;
    }
  }

  /** Any tree `Encode` can build is a tree over the counts of its data. */
  lemma BuiltForCounts(data: seq<Byte>, t: Tree)
    requires BuiltFor(data, Some(t))
    ensures t.Branch? && TreeOfCounts(t, data)
  {
    var s :| IsLeafList(s, Counts(data)) && SortedByWeight(s) && Build(s) == Some(t);
    BuiltTree(s, Counts(data), data, s, t);
  }

  /** The counts of the one-byte input [1] with its sentinel build a tree in
      every order, so `Encode([1])` succeeds whatever Go's map order. */
  lemma OneByteBuilds(s: seq<Tree>)
    requires IsLeafList(s, Counts([1, 0])) && SortedByWeight(s)
    ensures Build(s).Some?
  {
    var counts := Counts([1, 0]);
    assert counts.Keys == {0, 1};
    forall i, j | 0 <= i < j < |s|
      ensures s[i].Char() != s[j].Char()
    {
      assert s[i].ch != s[j].ch;
    }
    CharsSize(s);
    assert |s| == 2;
    assert s[2..] == [];
  }

  /** A rearrangement of a leaf list is a leaf list of the same count. */
  lemma LeafListPermutation(nodes: seq<Tree>, sorted: seq<Tree>, freq: map<Byte, nat>)
    requires IsLeafList(nodes, freq)
    requires multiset(sorted) == multiset(nodes)
    ensures IsLeafList(sorted, freq)
  {
    forall i | 0 <= i < |sorted|
      ensures sorted[i].Leaf? && sorted[i].ch in freq
      ensures sorted[i] == Leaf(sorted[i].ch, freq[sorted[i].ch], [sorted[i].ch])
    {
      assert sorted[i] in multiset(nodes);
      var k :| 0 <= k < |nodes| && nodes[k] == sorted[i];
    }
    DistinctLeaves(sorted, nodes, freq);
    CharsMembers(nodes);
    CharsMembers(sorted);
    forall c
      ensures c in Chars(sorted) <==> c in Chars(nodes)
    {
      if c in Chars(sorted) {
        var i :| 0 <= i < |sorted| && sorted[i].Char() == c;
        assert sorted[i] in multiset(nodes);
        var k :| 0 <= k < |nodes| && nodes[k] == sorted[i];
      }
      if c in Chars(nodes) {
        var k :| 0 <= k < |nodes| && nodes[k].Char() == c;
        assert nodes[k] in multiset(sorted);
        var i :| 0 <= i < |sorted| && sorted[i] == nodes[k];
      }
    }
  }

  /** The tree weighs as much as the data is long and has the leaves of
      the count as its leaves. */
  lemma BuiltWeights(nodes: seq<Tree>, freq: map<Byte, nat>, data: seq<Byte>, sorted: seq<Tree>, t: Tree)
    requires forall b :: b in freq <==> b in data
    requires forall b :: b in freq ==> freq[b] == multiset(data)[b] >= 1
    requires IsLeafList(nodes, freq)
    requires multiset(sorted) == multiset(nodes) && SortedByWeight(sorted)
    requires Build(sorted) == Some(t)
    ensures t.Branch? && WellFormed(t) && t.freq == |data|
    ensures multiset(Leaves(t)) == multiset(nodes)
  {
    forall i | 0 <= i < |sorted|
      ensures sorted[i] in nodes
    {
      assert sorted[i] in multiset(nodes);
    }
    assert AllWellFormed(sorted);
    BuildSound(sorted);
    BuildBranch(sorted);
    LeafListWeight(nodes, freq, data);
    SumByPermutation(sorted, nodes, Freq);
    LeafListLeaves(sorted);
  }

  /** Leaves that are a rearrangement of a leaf list with one leaf per byte
      have distinct bytes. */
  lemma DistinctLeaves(leaves: seq<Tree>, nodes: seq<Tree>, freq: map<Byte, nat>)
    requires IsLeafList(nodes, freq)
    requires multiset(leaves) == multiset(nodes)
    ensures DistinctChars(leaves)
  {
    forall i, j | 0 <= i < j < |nodes|
      ensures nodes[i] != nodes[j]
    {
      assert nodes[i].ch != nodes[j].ch;
    }
    NoRepeats(nodes);
    forall i, j | 0 <= i < j < |leaves|
      ensures leaves[i].Char() != leaves[j].Char()
    {
      assert leaves[i] in multiset(nodes) && leaves[j] in multiset(nodes);
      Twice(leaves, i, j);
    }
  }

  /** The bytes of those leaves are the bytes of the data. */
  lemma LeafBytes(leaves: seq<Tree>, nodes: seq<Tree>, freq: map<Byte, nat>, data: seq<Byte>)
    requires forall b :: b in freq <==> b in data
    requires IsLeafList(nodes, freq)
    requires multiset(leaves) == multiset(nodes)
    ensures LeafChars(leaves) == ByteSet(data)
  {
    CharsMembers(nodes);
    forall c
      ensures c in LeafChars(leaves) <==> c in ByteSet(data)
    {
      if c in LeafChars(leaves) {
        var x :| x in leaves && x.Char() == c;
        assert x in multiset(nodes);
      }
      if c in ByteSet(data) {
        assert c in Chars(nodes);
        var i :| 0 <= i < |nodes| && nodes[i].Char() == c;
        assert nodes[i] in multiset(leaves);
      }
    }
  }

  /** Go's `huffmanBytesLength` (huffman.go:216-222): the symbols plus half
      as many bytes of lengths, rounded up. */
  function HeaderLength(numberOfSymbols: Byte): (r: nat)
    ensures r == numberOfSymbols + (numberOfSymbols + 1) / 2
  {
    if numberOfSymbols % 2 == 0 then numberOfSymbols + numberOfSymbols / 2
    else numberOfSymbols + numberOfSymbols / 2 + 1
  }

  /** The code table `Decode` reads from the front of a stream: the header
      is the first byte and the `HeaderLength` bytes after it. None is a Go
      panic: an empty stream, a stream shorter than its header, or a header
      `decodeHuffman` cannot read. */
  function HeaderOf(encoded: seq<Byte>): (r: Option<CodeTable>)
    ensures r.Some? ==> |encoded| >= 1 && HeaderLength(encoded[0]) + 1 <= |encoded|
  {
    if |encoded| == 0 || |encoded| < HeaderLength(encoded[0]) + 1 then None
    else DecodeHuffmanSpec(encoded[..HeaderLength(encoded[0]) + 1])
  }

  /** What `Decode` returns: the payload after the header walked with the
      tree of the header's codes. None is a Go panic, in the header or in a
      walk that runs off the tree. */
  function DecodeSpec(encoded: seq<Byte>): Option<seq<Byte>>
  {
    match HeaderOf(encoded)
    case None => None
    case Some(codes) => DecodeWithTreeSpec(encoded[HeaderLength(encoded[0]) + 1..], TrieOf(codes))
  }

  /** The length arithmetic of huffman.go:216-222, branch by branch. */
  method HuffmanBytesLength(numberOfSymbols: Byte) returns (huffmanBytesLength: nat)
    ensures huffmanBytesLength == HeaderLength(numberOfSymbols)
  {
    if numberOfSymbols % 2 == 0 {
      huffmanBytesLength := numberOfSymbols as nat + numberOfSymbols as nat / 2;
    } else {
      huffmanBytesLength := numberOfSymbols as nat + numberOfSymbols as nat / 2 + 1;
    }
  }

  /** A stream shorter than the length its first byte announces has no
      header: the slice `encoded[:huffmanBytesLength+1]` panics, the
      stream's capacity being taken as its length. */
  lemma HeaderShort(encoded: seq<Byte>, huffmanBytesLength: nat)
    requires |encoded| > 0 && huffmanBytesLength == HeaderLength(encoded[0])
    requires |encoded| < huffmanBytesLength + 1
    ensures HeaderOf(encoded) == None
  {
  }

  /** A stream at least as long as its announced header is read from its
      first `huffmanBytesLength + 1` bytes. */
  lemma HeaderLong(encoded: seq<Byte>, huffmanBytesLength: nat)
    requires |encoded| > 0 && huffmanBytesLength == HeaderLength(encoded[0])
    requires |encoded| >= huffmanBytesLength + 1
    ensures HeaderOf(encoded) == DecodeHuffmanSpec(encoded[..huffmanBytesLength + 1])
  {
    var header := encoded[..huffmanBytesLength + 1];
    assert header == encoded[..HeaderLength(encoded[0]) + 1];
  }

  /** The header part of `Decode` (huffman.go:216-224). */
  method ReadHeader(encoded: seq<Byte>) returns (codes: Option<CodeTable>)
    ensures codes == HeaderOf(encoded)
  {
    if |encoded| == 0 {
      return None;
    }
    var huffmanBytesLength := HuffmanBytesLength(encoded[0]);
    if |encoded| < huffmanBytesLength + 1 {
      HeaderShort(encoded, huffmanBytesLength);
      return None;
    }
    HeaderLong(encoded, huffmanBytesLength);
    codes := DecodeHuffman(encoded[..huffmanBytesLength + 1]);
  }

  /** `Decode` (huffman.go:215-230). */
  method Decode(encoded: seq<Byte>) returns (decoded: Option<seq<Byte>>)
    ensures decoded == DecodeSpec(encoded)
  {
    var codes := ReadHeader(encoded);
    if codes.None? {
      return None;
    }
    var rootNode := BuildHuffmanTree(codes.value);
    decoded := DecodeWithTree(encoded[HeaderLength(encoded[0]) + 1..], rootNode);
  }

  /** A tree with two leaves or more has at least two distinct bytes in its
      sorted codebook. */
  lemma TwoEntries(t: Tree, codes: CodeTable)
    requires t.Branch? && DistinctChars(Leaves(t))
    requires codes == BuildCodes(t, [], map[])
    ensures |SortedCodebook(codes)| >= 2
  {
    var book := SortedCodebook(codes);
    SortedCodebookSpec(codes);
    BuildCodesPrefixFree(t);
    var leaves := Leaves(t);
    assert |Leaves(t.l)| >= 1 && |Leaves(t.r)| >= 1 by {
      LeavesNonEmpty(t.l);
      LeavesNonEmpty(t.r);
    }
    var x, y := leaves[0].Char(), leaves[|leaves| - 1].Char();
    assert x != y;
    assert leaves[0] in leaves && leaves[|leaves| - 1] in leaves;
    assert x in codes && y in codes;
    assert Entry(x, codes[x]) in book && Entry(y, codes[y]) in book;
    var i :| 0 <= i < |book| && book[i] == Entry(x, codes[x]);
    var j :| 0 <= j < |book| && book[j] == Entry(y, codes[y]);
    assert i != j;
  }

  lemma LeavesNonEmpty(t: Tree)
    ensures |Leaves(t)| >= 1
  {
  }

  /** In a codebook whose lengths grow by at most one bit, with every code but
      the last at most 7 bits long, no code is longer than 8 bits. */
  lemma EightBits(book: seq<Entry>)
    requires |book| >= 2 && SmallSteps(book) && ShortCodes(book)
    ensures forall i :: 0 <= i < |book| ==> |book[i].code| <= 8
  {
    assert |book[|book| - 1].code| <= |book[|book| - 2].code| + 1;
  }

  /** The canonical codes of a Huffman tree whose sorted raw lengths grow by
      at most one bit, every code but the last at most 7 bits long, keep the
      raw code of every byte's length, stay prefix-free, fit a nibble, and
      are their own canonical form. */
  lemma CanonicalCodes(t: Tree)
    requires t.Branch? && DistinctChars(Leaves(t))
    requires SmallSteps(SortedCodebook(BuildCodes(t, [], map[])))
    requires ShortCodes(SortedCodebook(BuildCodes(t, [], map[])))
    ensures CodesOf(t).Keys == LeafChars(Leaves(t))
    ensures PrefixFreeTable(CodesOf(t))
    ensures forall b :: b in CodesOf(t) ==> 1 <= |CodesOf(t)[b]| <= 8
    ensures CanonicalMap(CodesOf(t)) == CodesOf(t)
  {
    var raw := BuildCodes(t, [], map[]);
    BuildCodesPrefixFree(t);
    CanonicalTree(t, raw);
    CanonicalLengths(t);
    CanonicalLengthsOnly(CodesOf(t), raw);
  }

  /** Under the same conditions every canonical code has 1 to 8 bits, the
      length of the raw code of its byte. */
  lemma CanonicalLengths(t: Tree)
    requires t.Branch? && DistinctChars(Leaves(t))
    requires SmallSteps(SortedCodebook(BuildCodes(t, [], map[])))
    requires ShortCodes(SortedCodebook(BuildCodes(t, [], map[])))
    ensures forall b :: b in CodesOf(t) ==> 1 <= |CodesOf(t)[b]| <= 8
  {
    var raw := BuildCodes(t, [], map[]);
    var codes := CodesOf(t);
    var book := SortedCodebook(raw);
    BuildCodesPrefixFree(t);
    CanonicalTree(t, raw);
    TwoEntries(t, raw);
    EightBits(book);
    SortedCodebookSpec(raw);
    forall b | b in codes
      ensures 1 <= |codes[b]| <= 8
    {
      assert Entry(b, raw[b]) in book;
    }
  }

  /** The header `Encode` writes is as long as `Decode` computes from its
      first byte. */
  lemma HeaderSize(codes: CodeTable)
    requires |codes| <= 255
    ensures |HeaderBytes(codes)| >= 1 && HeaderBytes(codes)[0] == |codes|
    ensures HeaderLength(HeaderBytes(codes)[0]) + 1 == |HeaderBytes(codes)|
  {
    var book := SortedCodebook(codes);
    assert |book| == |codes| by {
      SortedCodebookSpec(codes);
    }
    HeaderLayout(book);
  }

  /** A stream made of a header `Decode` reads and a payload decodes as
      the payload does under the tree of the header's codes. */
  lemma DecodeParts(h: seq<Byte>, p: seq<Byte>, codes: CodeTable)
    requires |h| >= 1 && HeaderLength(h[0]) + 1 == |h|
    requires DecodeHuffmanSpec(h) == Some(codes)
    ensures DecodeSpec(h + p) == DecodeWithTreeSpec(p, TrieOf(codes))
  {
    var e := h + p;
    assert e[0] == h[0];
    assert e[..|h|] == h && e[|h|..] == p;
  }

  /** `Decode` inverts `Encode`: the stream written for a message that
      holds a 0, with the canonical codes of a tree for at most 254
      bytes whose sorted raw lengths grow by at most one bit and are at most
      7 bits long before the last, decodes to the message up to and
      including its first 0. */
  lemma RoundTrip(m: seq<Byte>, t: Tree)
    requires t.Branch? && DistinctChars(Leaves(t))
    requires forall j :: 0 <= j < |m| ==> m[j] in LeafChars(Leaves(t))
    requires 0 in m
    requires |LeafChars(Leaves(t))| <= 254
    requires SmallSteps(SortedCodebook(BuildCodes(t, [], map[])))
    requires ShortCodes(SortedCodebook(BuildCodes(t, [], map[])))
    ensures DecodeSpec(EncodeWith(m, t)) == Some(UpToZero(m))
  {
    var codes := CodesOf(t);
    CanonicalCodes(t);
    assert |codes| == |LeafChars(Leaves(t))| by {
      assert codes.Keys == LeafChars(Leaves(t));
    }
    var h := HeaderBytes(codes);
    var p := PayloadBytes(codes, m);
    HeaderSize(codes);
    HeaderRoundTrip(codes);
    DecodeParts(h, p, codes);
    PayloadRun(codes, m);
  }

  /** The payload of a message that holds a 0, under a prefix-free table of
      non-empty codes covering it, decodes to the message up to its first 0:
      the padding after it is never read. */
  lemma PayloadRun(codes: CodeTable, m: seq<Byte>)
    requires PrefixFreeTable(codes)
    requires forall b :: b in codes ==> |codes[b]| >= 1
    requires forall j :: 0 <= j < |m| ==> m[j] in codes
    requires 0 in m
    ensures DecodeWithTreeSpec(PayloadBytes(codes, m), TrieOf(codes)) == Some(UpToZero(m))
  {
    var pad := PayloadPadding(codes, m);
    TableRun(codes, m, pad);
  }

  /** The tree walks the payload's code bits and then some padding. */
  lemma PayloadPadding(codes: CodeTable, m: seq<Byte>) returns (pad: seq<bool>)
    ensures DecodeWithTreeSpec(PayloadBytes(codes, m), TrieOf(codes)) ==
      Run(TrieOf(codes), TrieOf(codes), Concat(codes, m) + pad)
  {
    PayloadRoundTrip(codes, m);
    pad := Zeros(8 - |Concat(codes, m)| % 8);
  }

  /** The message up to its first 0: a prefix of the message that ends in
      its only 0, or the whole message when it has none. */
  lemma {:induction false} UpToZeroSpec(m: seq<Byte>)
    ensures |UpToZero(m)| <= |m| && UpToZero(m) == m[..|UpToZero(m)|]
    ensures 0 in m ==> UpToZero(m) != [] && UpToZero(m)[|UpToZero(m)| - 1] == 0
    ensures forall i :: 0 <= i < |UpToZero(m)| - 1 ==> UpToZero(m)[i] != 0
    ensures 0 !in m ==> UpToZero(m) == m
  {
    if m != [] && m[0] != 0 {
      UpToZeroSpec(m[1..]);
      assert 0 in m ==> 0 in m[1..];
      assert m == [m[0]] + m[1..];
    }
  }

  /** A message without a 0 of its own, followed by the sentinel, is kept
      whole up to and including the sentinel. */
  lemma UpToSentinel(input: seq<Byte>)
    requires 0 !in input
    ensures UpToZero(input + [0]) == input + [0]
  {
    var m := input + [0];
    UpToZeroSpec(m);
    assert m[|input|] == 0;
  }

  /** `Decode(Encode(input))` is the input followed by the sentinel when
      the input has no 0 byte of its own, and the input up to its first 0
      otherwise; the conditions are those of `RoundTrip`, on the tree
      `Encode` built. */
  lemma EncodeDecode(input: seq<Byte>, t: Tree)
    requires t.Branch? && TreeOfCounts(t, input + [0])
    requires |ByteSet(input + [0])| <= 254
    requires SmallSteps(SortedCodebook(BuildCodes(t, [], map[])))
    requires ShortCodes(SortedCodebook(BuildCodes(t, [], map[])))
    ensures DecodeSpec(EncodeWith(input + [0], t)) == Some(UpToZero(input + [0]))
    ensures 0 !in input ==> DecodeSpec(EncodeWith(input + [0], t)) == Some(input + [0])
  {
    var m := input + [0];
    assert m[|input|] == 0;
    LeavesCover(Leaves(t), m);
    RoundTrip(m, t);
    if 0 !in input {
      UpToSentinel(input);
    }
  }

  /** Leaves carrying every byte of a message cover each of its bytes. */
  lemma LeavesCover(leaves: seq<Tree>, m: seq<Byte>)
    requires LeafChars(leaves) == ByteSet(m)
    ensures forall j :: 0 <= j < |m| ==> m[j] in LeafChars(leaves)
  {
    forall j | 0 <= j < |m|
      ensures m[j] in LeafChars(leaves)
    {
      assert m[j] in ByteSet(m);
    }
  }
}
