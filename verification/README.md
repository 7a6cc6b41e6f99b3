# Canonical Huffman byte codec, modelled in Dafny

This project models the Go package `huffman` (`huffman.go`) and the older
command-line copy of the same codec in `main.go`.

`Encode` compresses a byte slice as follows:
- it appends a 0 byte as an end marker and counts how often each byte occurs;
- it orders one leaf per byte by weight with a bubble sort, then merges the
  two lightest nodes until one tree remains (`buildBinaryTree`);
- it reads a code for every leaf off the tree (`buildCodes`) and rewrites the
  codes into canonical form (`constructCanoncial`);
- it writes a header (symbol count, symbols in canonical order, code lengths
  packed two to a byte) followed by the packed code bits, padded to a whole
  byte (`encodeHuffman`, `encode`).

`Decode` runs the same steps in reverse:
- it computes the header length from the first byte;
- it rebuilds the canonical codes from the symbols and lengths
  (`decodeHuffman`);
- it threads the codes into a decoding tree (`buildHuffmanTree`);
- it walks the payload bit by bit, emitting a byte at every leaf and stopping
  after the 0 marker (`decodeWithTree`).

`main.go` carries a second copy of these functions. Two of them differ:
- its `buildBinaryTree` cannot put a merged node at the front of the list;
- its `decode` reads the header and then returns nil.

Those two are modelled in module `Legacy`. The copies identical to
huffman.go are modelled once.

## How the model is organised

| module | models |
|---|---|
| `Bits` | bit strings (`seq<bool>`, most significant bit first), their values, `%0Nb` printing and `strconv.ParseInt(s, 2, 8)` |
| `Frequencies` | the counting, leaf-making and bubble-sort loops of `Encode` |
| `HuffmanTree` | the `Node` tree as a datatype, and `buildBinaryTree` |
| `Codes` | `buildCodes`, prefix-freeness and the Kraft sum of a tree's codes |
| `Codebook` | `codebookEntry`, `sortCodes`, and turning a codebook back into a map |
| `Canonical` | `constructCanoncial`, and the canonical construction it sets out to follow |
| `Header` | `encodeHuffman` and `decodeHuffman` |
| `Payload` | `encode`, and the digit string `decodeWithTree` prints |
| `Trie` | `buildHuffmanTree` and `decodeWithTree` |
| `Codec` | `Encode` and `Decode` |
| `Legacy` | main.go's `buildBinaryTree` and `decode` |

Modelling choices:
- Every Go loop that builds a value step by step is a `method` with a loop,
  proved equal to a specification function. The lemmas are stated about
  those functions.
- A Go panic is `None`: a nil-pointer dereference, or a slice or index out of
  range.
- A Go map is a Dafny `map`. Where Go iterates over a map, its unspecified
  order is an arbitrary choice (`:|`), so the proofs hold for every order.

## Model

| member | source | states |
|---|---|---|
| Frequencies.CountFrequencies | huffman.go:156-164 | the map has exactly the bytes of the input as keys, each mapped to its number of occurrences (at least 1): it is the input's byte count |
| Frequencies.LeafNodes | huffman.go:166-170 | for any map visiting order: one leaf per key, the leaf of byte k weighs freq[k], no byte twice |
| Frequencies.SortByWeight | huffman.go:177-194 | the array ends sorted by weight and is a permutation of its old contents |
| Frequencies.LeafListWeight | huffman.go:156-170 | the leaves' weights add up to the input length and every leaf weighs at least 1 |
| HuffmanTree.BuildBinaryTree | huffman.go:19-58 | returns `Build` of the list. Fewer than two nodes give nil. From a sorted well-formed list it returns a tree whose inner nodes weigh the sum of their children, whose root weighs the list's total, and whose leaves are the list's leaves |
| HuffmanTree.Scan | huffman.go:46-53 | the inner search loop inserts the node after the first pair that brackets its weight, or leaves the list unchanged |
| HuffmanTree.InsertByWeightSorted | huffman.go:42-54 | the three-way insertion keeps a sorted list sorted. It drops the node exactly when one node of equal weight remains |
| HuffmanTree.BuildSound | huffman.go:19-58 | any tree built from a sorted well-formed list is well formed, weighs the list's total, and has exactly the list's leaves |
| HuffmanTree.EqualWeightDrop | huffman.go:42-57 | weights [1,1,2] build no tree (a nil root), while the corrected insertion builds one |
| HuffmanTree.BuildFixedSound | huffman.go:42-54 | with the insertion that never drops the merged node, every sorted well-formed list of two or more nodes builds a sound tree over all its leaves |
| HuffmanTree.BuildFixedAgrees | huffman.go:19-58 | wherever the code as written builds a tree, the corrected builder builds the same tree |
| Codes.CodewordsShape | huffman.go:69-77 | there is one codeword per leaf, in leaf order. Each extends the path to its subtree and is at most the tree's height longer. Under a branch each is strictly longer than the path |
| Codes.CodewordsPrefixFree | huffman.go:69-77 | no codeword of a tree is a prefix of another |
| Codes.BuildCodesInto | huffman.go:69-77 | the recursive map updates equal writing the tree's codewords, left to right, into the map |
| Codes.BuildCodesPrefixFree | huffman.go:69-77 | the map's keys are the leaf bytes. No code is a prefix of another. Under a branch every code has at least one bit |
| Codes.TreeKraft | huffman.go:69-77 | the tree's codes satisfy the Kraft equality: the sum of 2^(h-len) is exactly 2^(h-depth) |
| Codebook.SortEntries | huffman.go:92-111 | the restart-on-swap bubble sort ends with no adjacent pair out of (length, byte) order and keeps the entries as a permutation |
| Codebook.SortCodes | huffman.go:84-114 | the codebook lists exactly the map's entries, strictly ordered by code length then byte, and is the unique such listing |
| Codebook.SortedCodebookSpec | huffman.go:84-114 | the sorted codebook is strictly ordered, lists the map, has distinct bytes and one entry per key |
| Codebook.IsSortedCodebook | huffman.go:92-111 | any strictly ordered listing of a map is the sorted codebook, so the result does not depend on map order |
| Codebook.ToTableLists | huffman.go:145-148 | collecting a codebook with distinct bytes into a map gives a map with exactly those entries |
| Canonical.ConstructCanonical | huffman.go:116-151 | the new map has the same keys, and lists the rewritten sorted codebook |
| Canonical.RewriteCodebook | huffman.go:118-143 | the loop gives the first entry zeros of its length and each later entry the increment of the previous rewritten code, with one 0 appended when its length grows |
| Canonical.CollectCodes | huffman.go:145-148 | the new map holds each rewritten entry's code under its byte |
| Canonical.CanonicalKeys | huffman.go:116-151 | canonicalisation keeps the key set and lists the rewritten codebook |
| Canonical.CanonicalLengthsOnly | huffman.go:116-151 | the canonical codes depend only on the keys and the code lengths, which is what lets `decodeHuffman` rebuild them from lengths |
| Canonical.FixedPrefixFree | huffman.go:133-140 | the corrected canonical construction on a length-sorted codebook that satisfies Kraft's inequality is prefix free and keeps every length |
| Canonical.RewriteAgrees | huffman.go:125-140 | the rewrite as written equals the canonical construction when lengths grow by at most one bit per step and all codes but the last have at most 7 bits |
| Canonical.CanonicalTree | huffman.go:116-151 | under those two conditions, the canonical codes of a tree are prefix free, have the same keys and keep each code's length |
| Canonical.SkippedLength | huffman.go:138-140 | lengths [1,3,3,3,3] rewrite to codes in which "10" is a prefix of "1000" |
| Canonical.SkippedLengthFixed | huffman.go:138-140 | shifting by the full growth in length makes the same codebook prefix free, with "100" as the second code |
| Canonical.SaturatedParse | huffman.go:126-131 | lengths 1..8 then 8 rewrite the last code to "10000000", which "10" prefixes, because ParseInt saturates at 127 |
| Canonical.SaturatedParseFixed | huffman.go:126-131 | without saturation, the last code of that codebook is "11111111" |
| Canonical.StairAgrees | huffman.go:125-140 | on lengths 1..8 the rewrite as written and the canonical construction agree |
| Header.EncodeHuffman | huffman.go:285-312 | returns the count byte, the sorted symbols and the packed lengths of the table |
| Header.AppendSymbols | huffman.go:290-293 | appends the codebook's bytes in order |
| Header.AppendNibbles | huffman.go:296-307 | appends one byte per pair of entries: the first length in the high nibble, the second (or 0) in the low nibble |
| Header.HeaderLayout | huffman.go:286-293 | the header has 1 + n + ceil(n/2) bytes. Byte 0 is n mod 256 and bytes 1..n are the symbols |
| Header.NibbleByte | huffman.go:296-307 | for lengths below 16, byte k's high nibble is length 2k and its low nibble is length 2k+1, or 0 past the end |
| Header.NibbleRoundTrip | huffman.go:321-328 | unpacking the packed lengths gives every length back in order, plus one trailing 0 when n is odd |
| Header.UnpackLengths | huffman.go:321-328 | every byte yields its high nibble then its low nibble |
| Header.ZeroCodes | huffman.go:330-334 | each symbol gets a string of zeros of its length. Too few lengths is the index panic |
| Header.DecodeHuffman | huffman.go:314-337 | returns the canonical codes of the symbols' zero strings, and None on a slice or index panic |
| Header.HeaderRoundTrip | huffman.go:285-337 | for at most 254 symbols with lengths below 16, decoding the header gives back exactly the canonical codes of the table |
| Header.HeaderWraps | huffman.go:315-317 | a table of 255 symbols writes count byte 255, and `decodeHuffman` then fails because the count plus one wraps to 0 |
| Header.HeaderRoundTripFixed | huffman.go:315-317 | with the count widened before adding one, the header round trip holds for up to 255 symbols |
| Header.FixedAgrees | huffman.go:314-337 | below count 255 the widened reading is the reading as written |
| Payload.Encode | huffman.go:233-282 | returns the codes of the input concatenated, padded with zeros and packed eight bits to a byte |
| Payload.PackAll | huffman.go:249-279 | every eight bits become one byte, in order |
| Payload.PackByte | huffman.go:254-276 | the byte is the value of its eight bits, most significant first, and never wraps |
| Payload.PaddedShape | huffman.go:242-245 | padding adds 1 to 8 zero bits, keeps the code bits in front and fills whole bytes, adding a full zero byte when the bits already fill whole bytes |
| Payload.DigitsPackBits | huffman.go:371-374 | printing packed bytes with `%08b` gives the packed bits back |
| Payload.PayloadRoundTrip | huffman.go:233-282 | the payload is len/8 + 1 bytes, and its printed digits are the code bits followed by the 1 to 8 padding zeros |
| Trie.BuildHuffmanTree | huffman.go:339-368 | returns the trie made by threading every sorted codebook entry from a fresh root |
| Trie.PlantWalk | huffman.go:345-365 | a path reaches a node exactly when it is a prefix of some entry's code |
| Trie.CodeLeaf | huffman.go:339-368 | for a prefix-free codebook, every code ends at a childless node tagged with its byte |
| Trie.DecodeWithTree | huffman.go:370-396 | returns the walk of the bytes' `%08b` digits from the root. Stepping to a missing child is None |
| Trie.MessageRun | huffman.go:376-395 | walking the codes of a message from a prefix-free codebook, followed by any padding, returns the message up to and including its first 0 |
| Trie.TableRun | huffman.go:339-395 | the same holds for the trie built from a prefix-free code table |
| Codec.Encode | huffman.go:153-213 | for any map order, the tree is what `buildBinaryTree` returns for the leaves of the byte counts of input+[0] in some weight-sorted order. It fails (None) exactly when that build returns nil, which includes every input of only zeros. Otherwise the output is the header and then the payload of the tree's canonical codes. The tree is a branch whose leaves carry each byte once with its count as weight, and whose root weighs len(input)+1 |
| Codec.BuiltTree | huffman.go:156-197 | the tree built from the counted, sorted leaves has exactly those leaves. Each byte of the data occurs at one leaf, weighing its count. Inner nodes weigh the sum of their children and the root weighs the data's length |
| Codec.BuiltForCounts | huffman.go:166-197 | every tree `Encode` can build, for any map order, has those properties, so `Codec.EncodeDecode` applies to it |
| Codec.OneByteBuilds | huffman.go:153-197 | for the input [1], every weight-sorted order of the counted leaves builds a tree, so by `Codec.Encode`'s contract `Encode` succeeds on it whatever the map order |
| Codec.HuffmanBytesLength | huffman.go:216-222 | the computed header length is n + ceil(n/2) |
| Codec.HeaderLength | huffman.go:216-222 | the header length after the count byte is n + ceil(n/2), the number of symbol and nibble bytes |
| Codec.ReadHeader | huffman.go:215-224 | an empty stream, a stream shorter than its header (capacity taken as length), or an unreadable header is None. Otherwise the result is the table `decodeHuffman` reads from the header bytes |
| Codec.Decode | huffman.go:215-231 | reads the header, builds the trie of its codes and walks the bytes after the header |
| Codec.CanonicalCodes | huffman.go:197-200 | under the two rewrite conditions, the tree's canonical codes have the leaf bytes as keys, are prefix free, are 1 to 8 bits long, and are unchanged by canonicalising again |
| Codec.PayloadRun | huffman.go:229-230 | decoding the payload of a message containing 0 with prefix-free codes of at least one bit gives the message up to its first 0 |
| Codec.RoundTrip | huffman.go:153-231 | decoding the encoding of a message with a tree's canonical codes gives the message up to and including its first 0 (conditions below) |
| Codec.EncodeDecode | huffman.go:153-231 | for a tree `Encode` can build, `Decode` returns the input up to its first 0. For input without 0 bytes it returns input + [0], the end marker included |
| Legacy.BuildBinaryTree | main.go:20-62 | returns the legacy build of the list. Fewer than two nodes give nil |
| Legacy.InsertLegacySorted | main.go:48-58 | the two-way insertion keeps a sorted list sorted, but may drop the node |
| Legacy.BuildLegacySound | main.go:20-62 | any tree built is well formed, weighs at most the list's total, and has a sub-multiset of the list's leaves |
| Legacy.LightMergeLost | main.go:48-58 | weights [1,1,3,4] build the tree of the 3 and the 4 only, losing both weight-1 leaves, where huffman.go keeps all four |
| Legacy.Decode | main.go:230-250 | panics where the header cannot be read, and otherwise returns nothing |
| Legacy.StubDropsMessage | main.go:230-250 | wherever huffman.go's `Decode` returns a message, main.go's `decode` returns the empty result, and it fails only where `Decode` fails |

## Left out

- File output: `os.WriteFile("test", …)` in `encodeHuffman` is not modelled, nor are the progress messages printed with `fmt.Printf`/`fmt.Println` (including the ParseInt error message, whose value is kept).
- `printTree`, main.go's `main`, and the demo program: command-line I/O only.
- Node names: the `name` field is computed (the concatenation of the leaf bytes) but never read by the codec. Go's `string(k)` rune conversion is modelled as the one-byte list `[k]`.
- Pointers: Go's `*Node` trees are immutable values here. `buildHuffmanTree`'s pointer descent that creates missing children is the recursive function `Trie.Place`, applied by a loop over the codebook. Aliasing between nodes is not modelled, since no node is shared.
- main.go's `buildBinaryTree` copies nodes by value and sets a parent pointer `p` that nothing reads. The model keeps only the merge and insertion logic.
- main.go's `buildHuffmanTree` is empty and is not modelled beyond its effect on `decode` (`Legacy.DecodeLegacy`).
- Map iteration order: the leaf order and thus the tree depend on it. `Codec.Encode` returns the tree it built as a ghost out-parameter and proves its properties for every order, not one particular order.
- Codec.Encode: the tree is pinned down up to the order of equal-weight leaves, which Go's map order picks; which order Go picks is not modelled.
- Codec.RoundTrip: assumes at most 254 distinct symbols, steps of at most one bit between consecutive sorted code lengths, and all codes but the last at most 7 bits long. Each assumption excludes one of the defects listed under Findings, so the round trip is not claimed for inputs that hit them.
- Codec.EncodeDecode: same assumptions as `Codec.RoundTrip`.
- Header.HeaderRoundTrip: assumes code lengths below 16, since `byte(len) << 4` drops high bits of longer lengths. Under the assumptions of `Codec.RoundTrip` every code has at most 8 bits (`Codec.CanonicalCodes`), so the round trip loses nothing to this.
- Go slices are modelled by their contents and length; capacity and shared backing arrays are not. Two effects are lost. First, `append(input, 0x00)` (huffman.go:154) writes the 0 into the caller's array when it has spare capacity. Second, `encoded[:huffmanBytesLength+1]` (huffman.go:224, main.go:240) panics only past the capacity, so main.go's `decode` returns nil on a short stream whose spare capacity holds a readable header, where `Legacy.DecodeLegacy` gives None. huffman.go's `Decode` still fails on such a stream, at `encoded[huffmanBytesLength+1:]` (huffman.go:230), so `Codec.DecodeSpec` is unaffected.
- Decoded output keeps the 0 end marker. `Decode` returns the input followed by the 0 byte, not the input alone. The model follows the code (`Codec.EncodeDecode`).

## Findings

| source | as written | input that shows it | evidently intended | confidence | as-written member | corrected member |
|---|---|---|---|---|---|---|
| huffman.go:138-140 | one 0 is appended when the code length grows, whatever the growth | "aaaaabcd" (sorted lengths 1,3,3,3,3) gives codes 0, 10, 110, 111, 1000, and "10" is a prefix of "1000" | shift the incremented code left by the full growth in length | high, not executed | Canonical.SkippedLength | Canonical.SkippedLengthFixed |
| huffman.go:126-131 | `strconv.ParseInt(prev, 2, 8)` saturates at 127 for codes of value 128 or more | sorted lengths 1,2,…,8,8 give the last code "10000000", which "10" prefixes | parse without an 8-bit limit | high, not executed | Canonical.SaturatedParse | Canonical.SaturatedParseFixed |
| huffman.go:42-54 | when one node remains and it weighs the same as the merged node, no branch inserts the merged node | input "aab" (weights 1,1,2) gives a nil root and `buildCodes` panics | insert the merged node in every case | high, not executed | HuffmanTree.EqualWeightDrop | HuffmanTree.BuildFixedSound |
| main.go:48-58 | with no front-insertion branch, a merged node lighter than the first node is dropped | weights 1,1,3,4 build a tree of the 3 and the 4 only | the three-way insertion of huffman.go:42-54 | high, not executed | Legacy.LightMergeLost | HuffmanTree.BuildSound |
| huffman.go:315-317 | `numberOfSymbols+1` is computed in a byte and wraps to 0 for 255 symbols | any input using 255 distinct byte values (with the 0 marker) writes count 255, and the header slice `encoded[1:0]` panics | widen the count before adding one | high, not executed | Header.HeaderWraps | Header.HeaderRoundTripFixed |
