/** The decoding side of huffman.go: `buildHuffmanTree` (huffman.go:339-368),
    which threads every code of the sorted codebook from a fresh root,
    creating the nodes it is missing and tagging the last with the symbol,
    and `decodeWithTree` (huffman.go:370-396), which walks that tree bit by
    bit, emitting a symbol at every leaf and stopping after a 0 byte. In
    main.go, `buildHuffmanTree` is empty (main.go:358-359). */
module Trie {
  import opened Bits
  import opened Util
  import opened Codebook
  import opened Codes
  import opened Payload

  /** A node of the decoding tree: Go's `*Node` with only `char`, `l` and `r`
      in use; `Nil` is Go's nil pointer. The Go nodes are each made once and
      linked once, so they form a tree and a value models them. */
  datatype Trie = Nil | Node(ch: Byte, l: Trie, r: Trie)

  /** The child a digit leads to: '0' left, '1' right. */
  function Child(t: Trie, bit: bool): Trie
    requires t.Node?
  {
    if bit then t.r else t.l
  }

  /** The node reached from `t` along `path`; Nil once the path leaves the tree. */
  function Walk(t: Trie, path: seq<bool>): Trie
  {
    if path == [] then t
    else if t == Nil then Nil
    else Walk(Child(t, path[0]), path[1..])
  }

  lemma {:induction false} WalkSnoc(t: Trie, path: seq<bool>, bit: bool)
    ensures Walk(t, path + [bit]) == if Walk(t, path) == Nil then Nil else Child(Walk(t, path), bit)
  {
    if path != [] && t != Nil {
      assert (path + [bit])[1..] == path[1..] + [bit];
      WalkSnoc(Child(t, path[0]), path[1..], bit);
    }
  }

  /** The inner loop of huffman.go:346-364 for one codebook entry: descend
      from `t` along `code`, creating an empty node wherever a child is
      missing, and tag the node at the end of the code with `b`. An empty
      code changes nothing. */
  function Place(t: Trie, code: seq<bool>, b: Byte): (r: Trie)
    requires t.Node?
    ensures r.Node?
    decreases |code|
  {
    if code == [] then t
    else
      var child := if Child(t, code[0]) == Nil then Node(0, Nil, Nil) else Child(t, code[0]);
      var child' := if |code| == 1 then child.(ch := b) else Place(child, code[1..], b);
      if code[0] then t.(r := child') else t.(l := child')
  }

  /** The tree `buildHuffmanTree` makes for a codebook: a fresh root, then
      every entry placed in codebook order. */
  function Plant(book: seq<Entry>): (r: Trie)
    ensures r.Node?
  {
    if book == [] then Node(0, Nil, Nil)
    else Place(Plant(book[..|book| - 1]), book[|book| - 1].code, book[|book| - 1].b)
  }

  /** The tree `buildHuffmanTree` returns for a code table. */
  function TrieOf(codes: CodeTable): Trie
  {
    Plant(SortedCodebook(codes))
  }

  /** `buildHuffmanTree` (huffman.go:339-368): sort the codes, then thread
      every entry from the root. */
  method BuildHuffmanTree(codes: CodeTable) returns (root: Trie)
    ensures root == TrieOf(codes)
  {
    var codebook := SortCodes(codes);
    root := Node(0, Nil, Nil);
    for i := 0 to |codebook|
      invariant root == Plant(codebook[..i])
    {
      assert codebook[..i + 1][..i] == codebook[..i];
      root := Place(root, codebook[i].code, codebook[i].b);
    }
    assert codebook[..|codebook|] == codebook;
  }

  /** A path that leaves a fresh node at once reaches nothing. */
  lemma FreshWalk(q: seq<bool>)
    ensures Walk(Node(0, Nil, Nil), q).Node? <==> q == []
  {
    if q != [] {
      assert Walk(Node(0, Nil, Nil), q) == Walk(Nil, q[1..]);
    }
  }

  /** A retagged node has the same paths below it. */
  lemma RetagWalk(t: Trie, b: Byte, q: seq<bool>)
    requires t.Node? && q != []
    ensures Walk(t.(ch := b), q) == Walk(t, q)
  {
  }

  /** Placing a code adds exactly the nodes on its path, tags the node at
      its end and leaves every other tag alone. */
  lemma {:induction false} PlaceWalk(t: Trie, code: seq<bool>, b: Byte, p: seq<bool>)
    requires t.Node?
    ensures Walk(Place(t, code, b), p).Node? <==> Walk(t, p).Node? || IsPrefix(p, code)
    ensures |code| >= 1 && p == code ==> Walk(Place(t, code, b), p).ch == b
    ensures p != code && Walk(t, p).Node? ==> Walk(Place(t, code, b), p).ch == Walk(t, p).ch
    decreases |code|
  {
    if code != [] && p != [] {
      var child := if Child(t, code[0]) == Nil then Node(0, Nil, Nil) else Child(t, code[0]);
      var child' := if |code| == 1 then child.(ch := b) else Place(child, code[1..], b);
      var q := p[1..];
      assert Walk(Place(t, code, b), p) == Walk(Child(Place(t, code, b), p[0]), q);
      assert Walk(t, p) == Walk(Child(t, p[0]), q);
      if p[0] == code[0] {
        assert Child(Place(t, code, b), p[0]) == child';
        assert IsPrefix(p, code) <==> IsPrefix(q, code[1..]) by {
          assert p == [p[0]] + q && code == [code[0]] + code[1..];
        }
        assert p == code <==> q == code[1..] by {
          assert p == [p[0]] + q && code == [code[0]] + code[1..];
        }
        if Child(t, code[0]) == Nil {
          FreshWalk(q);
          assert Walk(Nil, q) == Nil;
        }
        if |code| == 1 {
          if q != [] {
            RetagWalk(child, b, q);
          }
        } else {
          PlaceWalk(child, code[1..], b, q);
        }
      } else {
        assert Child(Place(t, code, b), p[0]) == Child(t, p[0]);
        assert !IsPrefix(p, code) by {
          if |p| <= |code| {
            assert code[..|p|][0] == code[0];
          }
        }
      }
    }
  }

  /** A path reaches a node of the tree of a codebook exactly when it is the
      root path or leads into some entry's code. */
  ghost predicate Reached(book: seq<Entry>, p: seq<bool>)
  {
    p == [] || exists i :: 0 <= i < |book| && IsPrefix(p, book[i].code)
  }

  lemma {:induction false} PlantWalk(book: seq<Entry>, p: seq<bool>)
    ensures Walk(Plant(book), p).Node? <==> Reached(book, p)
  {
    if book == [] {
      FreshWalk(p);
    } else {
      var front := book[..|book| - 1];
      var last := book[|book| - 1];
      PlantWalk(front, p);
      PlaceWalk(Plant(front), last.code, last.b, p);
      if Reached(book, p) && p != [] {
        var i :| 0 <= i < |book| && IsPrefix(p, book[i].code);
        if i < |front| {
          assert front[i] == book[i];
        }
      }
      if Reached(front, p) && p != [] {
        var i :| 0 <= i < |front| && IsPrefix(p, front[i].code);
        assert book[i] == front[i];
      }
    }
  }

  /** The node at the end of an entry's code carries the entry's byte, when
      no later entry has the same code. */
  lemma {:induction false} PlantTag(book: seq<Entry>, i: nat)
    requires i < |book| && |book[i].code| >= 1
    requires forall j :: i < j < |book| ==> book[j].code != book[i].code
    ensures Walk(Plant(book), book[i].code).Node?
    ensures Walk(Plant(book), book[i].code).ch == book[i].b
  {
    var front := book[..|book| - 1];
    var last := book[|book| - 1];
    var c := book[i].code;
    PlaceWalk(Plant(front), last.code, last.b, c);
    if i < |book| - 1 {
      assert front[i] == book[i];
      PlantTag(front, i);
    }
  }

  /** huffman.go:339-368: in the tree built for a prefix-free codebook,
      every non-empty code leads to a leaf tagged with its byte. */
  lemma CodeLeaf(book: seq<Entry>, i: nat)
    requires PrefixFree(book) && i < |book| && |book[i].code| >= 1
    ensures IsLeaf(Walk(Plant(book), book[i].code))
    ensures Walk(Plant(book), book[i].code).ch == book[i].b
  {
    var t := Plant(book);
    var c := book[i].code;
    forall j | i < j < |book|
      ensures book[j].code != c
    {
      assert !IsPrefix(book[i].code, book[j].code);
    }
    PlantTag(book, i);
    forall x: bool
      ensures Child(Walk(t, c), x) == Nil
    {
      WalkSnoc(t, c, x);
      PlantWalk(book, c + [x]);
      forall j | 0 <= j < |book|
        ensures !IsPrefix(c + [x], book[j].code)
      {
        PrefixOfLonger(c, x, book[j].code);
      }
    }
    assert Child(Walk(t, c), false) == Nil && Child(Walk(t, c), true) == Nil;
  }

  /** A prefix of `d` one digit longer than `c` makes `c` a proper prefix of `d`. */
  lemma PrefixOfLonger(c: seq<bool>, x: bool, d: seq<bool>)
    ensures IsPrefix(c + [x], d) ==> IsPrefix(c, d) && c != d
  {
    if IsPrefix(c + [x], d) {
      assert d[..|c|] == (c + [x])[..|c|];
    }
  }

  /** Every node on the way along a code is in the tree, and the next digit
      of the code leads to a child; before the end, that child is not a leaf. */
  lemma CodeStep(book: seq<Entry>, i: nat, k: nat)
    requires i < |book| && k < |book[i].code|
    ensures Walk(Plant(book), book[i].code[..k]).Node?
    ensures Child(Walk(Plant(book), book[i].code[..k]), book[i].code[k]) == Walk(Plant(book), book[i].code[..k + 1])
    ensures k + 1 < |book[i].code| ==> !IsLeaf(Walk(Plant(book), book[i].code[..k + 1]))
  {
    var t := Plant(book);
    var c := book[i].code;
    PlantWalk(book, c[..k]);
    assert IsPrefix(c[..k], book[i].code);
    assert c[..k + 1] == c[..k] + [c[k]];
    WalkSnoc(t, c[..k], c[k]);
    if k + 1 < |c| {
      PlantWalk(book, c[..k + 2]);
      assert IsPrefix(c[..k + 2], book[i].code);
      assert c[..k + 2] == c[..k + 1] + [c[k + 1]];
      WalkSnoc(t, c[..k + 1], c[k + 1]);
    }
  }

  /** A node with no children: where `decodeWithTree` emits a symbol. */
  predicate IsLeaf(t: Trie)
  {
    t.Node? && t.l == Nil && t.r == Nil
  }

  /** `prefix` in front of a result; a failure stays a failure. */
  function Prepend(prefix: seq<Byte>, o: Option<seq<Byte>>): Option<seq<Byte>>
  {
    match o
    case None => None
    case Some(s) => Some(prefix + s)
  }

  /** The walk of huffman.go:376-395 over `digits`, from node `cur`: step to
      a child, and at a leaf emit its tag and start again from the root,
      stopping after a 0. None is the Go panic of reading a missing child. */
  function Run(root: Trie, cur: Trie, digits: seq<bool>): Option<seq<Byte>>
    requires root.Node? && cur.Node?
    decreases |digits|
  {
    if digits == [] then Some([])
    else
      var next := Child(cur, digits[0]);
      if next == Nil then None
      else if IsLeaf(next) then
        if next.ch == 0 then Some([0]) else Prepend([next.ch], Run(root, root, digits[1..]))
      else Run(root, next, digits[1..])
  }

  /** What `decodeWithTree` returns for the payload bytes. */
  function DecodeWithTreeSpec(encoded: seq<Byte>, root: Trie): Option<seq<Byte>>
    requires root.Node?
  {
    Run(root, root, Digits(encoded))
  }

  /** `decodeWithTree` (huffman.go:370-396). */
  method DecodeWithTree(encoded: seq<Byte>, root: Trie) returns (decoded: Option<seq<Byte>>)
    requires root.Node?
    ensures decoded == DecodeWithTreeSpec(encoded, root)
  {
    var digits: seq<bool> := [];
    for i := 0 to |encoded|
      invariant digits == Digits(encoded[..i])
    {
      assert encoded[..i + 1] == encoded[..i] + [encoded[i]];
      DigitsSnoc(encoded[..i], encoded[i]);
      digits := digits + FormatBinary(encoded[i], 8);
    }
    assert encoded[..|encoded|] == encoded;
    var currentNode := root;
    var out: seq<Byte> := [];
    assert digits[0..] == digits;
    assert Prepend(out, Run(root, currentNode, digits[0..])) == Run(root, root, digits) by {
      match Run(root, root, digits)
      case None =>
      case Some(s) => assert out + s == s;
    }
    for i := 0 to |digits|
      invariant currentNode.Node?
      invariant Prepend(out, Run(root, currentNode, digits[i..])) == Run(root, root, digits)
    {
      assert digits[i..][1..] == digits[i + 1..];
      assert digits[i..][0] == digits[i];
      if !digits[i] {
        currentNode := currentNode.l;
      } else {
        currentNode := currentNode.r;
      }
      if currentNode == Nil {
        return None;
      }
      if currentNode.l == Nil && currentNode.r == Nil {
        PrependTwice(out, [currentNode.ch], Run(root, root, digits[i + 1..]));
        out := out + [currentNode.ch];
        if currentNode.ch == 0 {
          return Some(out);
        }
        currentNode := root;
      }
    }
    assert digits[|digits|..] == [] && out + [] == out;
    decoded := Some(out);
  }

  lemma PrependTwice(a: seq<Byte>, b: seq<Byte>, o: Option<seq<Byte>>)
    ensures Prepend(a, Prepend(b, o)) == Prepend(a + b, o)
  {
    if o.Some? {
      assert a + (b + o.value) == (a + b) + o.value;
    }
  }

  /** The message up to and including its first 0 byte. */
  function UpToZero(m: seq<Byte>): seq<Byte>
  {
    if m == [] then []
    else if m[0] == 0 then [0]
    else [m[0]] + UpToZero(m[1..])
  }

  /** Walking one code from the node its first `k` digits reach emits its
      byte; a 0 ends the walk, any other byte starts it again at the root. */
  lemma {:induction false} CodeRun(book: seq<Entry>, i: nat, k: nat, rest: seq<bool>)
    requires PrefixFree(book) && i < |book| && k < |book[i].code|
    ensures Walk(Plant(book), book[i].code[..k]).Node?
    ensures Run(Plant(book), Walk(Plant(book), book[i].code[..k]), book[i].code[k..] + rest) ==
      if book[i].b == 0 then Some([0]) else Prepend([book[i].b], Run(Plant(book), Plant(book), rest))
    decreases |book[i].code| - k
  {
    var t := Plant(book);
    var c := book[i].code;
    CodeStep(book, i, k);
    var cur := Walk(t, c[..k]);
    var digits := c[k..] + rest;
    assert digits[0] == c[k];
    var next := Child(cur, c[k]);
    assert next == Walk(t, c[..k + 1]);
    if k + 1 == |c| {
      assert c[..k + 1] == c;
      CodeLeaf(book, i);
      assert digits[1..] == rest;
    } else {
      assert digits[1..] == c[k + 1..] + rest;
      CodeRun(book, i, k + 1, rest);
    }
  }

  /** `decodeWithTree` inverts the code concatenation of `encode`: for a
      prefix-free codebook of non-empty codes that covers the message, the
      bits of a message that holds a 0, followed by anything, decode to the
      message up to and including its first 0. */
  lemma {:induction false} MessageRun(book: seq<Entry>, codes: CodeTable, m: seq<Byte>, pad: seq<bool>)
    requires PrefixFree(book) && Lists(book, codes)
    requires forall b :: b in codes ==> |codes[b]| >= 1
    requires forall j :: 0 <= j < |m| ==> m[j] in codes
    requires 0 in m
    ensures Run(Plant(book), Plant(book), Concat(codes, m) + pad) == Some(UpToZero(m))
  {
    var t := Plant(book);
    var b := m[0];
    assert Entry(b, codes[b]) in book;
    var i :| 0 <= i < |book| && book[i] == Entry(b, codes[b]);
    var rest := Concat(codes, m[1..]) + pad;
    assert Concat(codes, m) + pad == book[i].code[0..] + rest;
    assert book[i].code[..0] == [];
    CodeRun(book, i, 0, rest);
    if b != 0 {
      assert 0 in m[1..] by {
        var j :| 0 <= j < |m| && m[j] == 0;
        assert j > 0 && m[1..][j - 1] == 0;
      }
      MessageRun(book, codes, m[1..], pad);
    }
  }

  /** A table with no code a prefix of another lists as a prefix-free codebook. */
  lemma BookPrefixFree(book: seq<Entry>, codes: CodeTable)
    requires Lists(book, codes) && DistinctBytes(book) && PrefixFreeTable(codes)
    ensures PrefixFree(book)
  {
    forall i, j | 0 <= i < |book| && 0 <= j < |book| && i != j
      ensures !IsPrefix(book[i].code, book[j].code)
    {
      assert book[i] in book && book[j] in book;
      if i < j {
        assert book[i].b != book[j].b;
      } else {
        assert book[j].b != book[i].b;
      }
    }
  }

  /** huffman.go:370-396 with the tree of huffman.go:339-368: the payload
      bits of a message that holds a 0, under a prefix-free table of
      non-empty codes covering the message, followed by anything, decode to
      the message up to and including its first 0. */
  lemma TableRun(codes: CodeTable, m: seq<Byte>, pad: seq<bool>)
    requires PrefixFreeTable(codes)
    requires forall b :: b in codes ==> |codes[b]| >= 1
    requires forall j :: 0 <= j < |m| ==> m[j] in codes
    requires 0 in m
    ensures Run(TrieOf(codes), TrieOf(codes), Concat(codes, m) + pad) == Some(UpToZero(m))
  {
    var book := SortedCodebook(codes);
    SortedCodebookSpec(codes);
    BookPrefixFree(book, codes);
    MessageRun(book, codes, m, pad);
  }
}
