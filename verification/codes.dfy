/** The raw codes of huffman.go's `buildCodes` (huffman.go:69-77; main.go:73-81
    is the same): every leaf gets the path from the root to it, a left step
    written 0 and a right step 1. */
module Codes {
  import opened Bits
  import opened Util
  import opened HuffmanTree
  import opened Codebook

  /** `buildCodes`: walk the tree, threading the table through the calls. */
  function BuildCodes(t: Tree, code: seq<bool>, codes: CodeTable): CodeTable
  {
    match t
    case Leaf(ch, _, _) => codes[ch := code]
    case Branch(l, r, _, _) => BuildCodes(r, code + [true], BuildCodes(l, code + [false], codes))
  }

  /** The code of every leaf below `t`, left to right, when `t` is reached by `code`. */
  function Codewords(t: Tree, code: seq<bool>): seq<Entry>
  {
    match t
    case Leaf(ch, _, _) => [Entry(ch, code)]
    case Branch(l, r, _, _) => Codewords(l, code + [false]) + Codewords(r, code + [true])
  }

  function Height(t: Tree): nat
  {
    match t
    case Leaf(_, _, _) => 0
    case Branch(l, r, _, _) => 1 + if Height(l) < Height(r) then Height(r) else Height(l)
  }

  /** No code of a codebook is a prefix of another entry's code. */
  predicate PrefixFree(book: seq<Entry>)
  {
    forall i, j :: 0 <= i < |book| && 0 <= j < |book| && i != j ==> !IsPrefix(book[i].code, book[j].code)
  }

  /** No code of a table is a prefix of another byte's code. */
  ghost predicate PrefixFreeTable(codes: CodeTable)
  {
    forall a, b :: a in codes && b in codes && a != b ==> !IsPrefix(codes[a], codes[b])
  }

  /** Every leaf's code extends the path to `t`, by at least one step below a
      branch and by at most the height of `t`. */
  lemma {:induction false} CodewordsShape(t: Tree, code: seq<bool>)
    ensures |Codewords(t, code)| == |Leaves(t)|
    ensures forall i :: 0 <= i < |Leaves(t)| ==>
      Codewords(t, code)[i].b == Leaves(t)[i].Char() &&
      IsPrefix(code, Codewords(t, code)[i].code) &&
      |Codewords(t, code)[i].code| <= |code| + Height(t) &&
      (t.Branch? ==> |code| < |Codewords(t, code)[i].code|)
  {
    match t
    case Leaf(_, _, _) =>
    case Branch(l, r, _, _) =>
      var c0, c1 := code + [false], code + [true];
      CodewordsShape(l, c0);
      CodewordsShape(r, c1);
      var w, wl, wr := Codewords(t, code), Codewords(l, c0), Codewords(r, c1);
      forall i | 0 <= i < |Leaves(t)|
        ensures w[i].b == Leaves(t)[i].Char() && IsPrefix(code, w[i].code)
        ensures |code| < |w[i].code| <= |code| + Height(t)
      {
        if i < |wl| {
          assert w[i] == wl[i] && Leaves(t)[i] == Leaves(l)[i];
          assert w[i].code[..|c0|] == c0;
          assert w[i].code[..|code|] == c0[..|code|];
        } else {
          var k := i - |wl|;
          assert w[i] == wr[k] && Leaves(t)[i] == Leaves(r)[k];
          assert w[i].code[..|c1|] == c1;
          assert w[i].code[..|code|] == c1[..|code|];
        }
      }
  }

  /** Two paths that leave a node by different steps part there. */
  lemma Parted(code: seq<bool>, s: bool, t: bool, x: seq<bool>, y: seq<bool>)
    requires s != t && IsPrefix(code + [s], x) && IsPrefix(code + [t], y)
    ensures !IsPrefix(x, y)
  {
    var n := |code|;
    assert x[n] == (code + [s])[n];
    assert y[n] == (code + [t])[n];
  }

  /** Two prefix-free codebooks, one below the left step from `code` and one
      below the right step, stay prefix-free side by side. */
  lemma PrefixFreeJoin(a: seq<Entry>, b: seq<Entry>, code: seq<bool>)
    requires PrefixFree(a) && PrefixFree(b)
    requires forall i :: 0 <= i < |a| ==> IsPrefix(code + [false], a[i].code)
    requires forall j :: 0 <= j < |b| ==> IsPrefix(code + [true], b[j].code)
    ensures PrefixFree(a + b)
  {
    var w := a + b;
    forall i, j | 0 <= i < |w| && 0 <= j < |w| && i != j
      ensures !IsPrefix(w[i].code, w[j].code)
    {
      if i < |a| && j < |a| {
        assert w[i] == a[i] && w[j] == a[j];
      } else if i >= |a| && j >= |a| {
        assert w[i] == b[i - |a|] && w[j] == b[j - |a|];
      } else if i < |a| {
        assert w[i] == a[i] && w[j] == b[j - |a|];
        Parted(code, false, true, w[i].code, w[j].code);
      } else {
        assert w[i] == b[i - |a|] && w[j] == a[j];
        Parted(code, true, false, w[i].code, w[j].code);
      }
    }
  }

  /** The paths to two different leaves part somewhere: no leaf's code is a
      prefix of another leaf's code. */
  lemma {:induction false} CodewordsPrefixFree(t: Tree, code: seq<bool>)
    ensures PrefixFree(Codewords(t, code))
  {
    match t
    case Leaf(_, _, _) =>
    case Branch(l, r, _, _) =>
      var c0, c1 := code + [false], code + [true];
      CodewordsPrefixFree(l, c0);
      CodewordsPrefixFree(r, c1);
      CodewordsShape(l, c0);
      CodewordsShape(r, c1);
      PrefixFreeJoin(Codewords(l, c0), Codewords(r, c1), code);
  }

  /** `buildCodes` sets, in leaf order, the code of every leaf below `t`. */
  lemma {:induction false} BuildCodesInto(t: Tree, code: seq<bool>, codes: CodeTable)
    ensures BuildCodes(t, code, codes) == Into(codes, Codewords(t, code))
  {
    match t
    case Leaf(ch, _, _) =>
      assert [Entry(ch, code)][..0] == [];
    case Branch(l, r, _, _) =>
      BuildCodesInto(l, code + [false], codes);
      BuildCodesInto(r, code + [true], BuildCodes(l, code + [false], codes));
      IntoAppend(codes, Codewords(l, code + [false]), Codewords(r, code + [true]));
  }

  /** No symbol occurs at two leaves. */
  predicate DistinctChars(leaves: seq<Tree>)
  {
    forall i, j :: 0 <= i < j < |leaves| ==> leaves[i].Char() != leaves[j].Char()
  }

  /** The symbols of a list of leaves. */
  function LeafChars(leaves: seq<Tree>): set<Byte>
  {
    set t | t in leaves :: t.Char()
  }

  /** The codes of a tree's leaves name each leaf's symbol once when no
      symbol occurs at two leaves. */
  lemma CodewordsDistinct(t: Tree, code: seq<bool>)
    requires DistinctChars(Leaves(t))
    ensures DistinctBytes(Codewords(t, code))
    ensures Bytes(Codewords(t, code)) == LeafChars(Leaves(t))
  {
    var w := Codewords(t, code);
    CodewordsShape(t, code);
    forall i, j | 0 <= i < j < |w|
      ensures w[i].b != w[j].b
    {
      assert w[i].b == Leaves(t)[i].Char() && w[j].b == Leaves(t)[j].Char();
    }
    forall c
      ensures c in Bytes(w) <==> c in LeafChars(Leaves(t))
    {
      if c in Bytes(w) {
        var e :| e in w && e.b == c;
        var i :| 0 <= i < |w| && w[i] == e;
        assert Leaves(t)[i] in Leaves(t);
      }
      if c in LeafChars(Leaves(t)) {
        var x :| x in Leaves(t) && x.Char() == c;
        var i :| 0 <= i < |Leaves(t)| && Leaves(t)[i] == x;
        assert w[i] in w;
      }
    }
  }

  /** A table listed by a prefix-free codebook is prefix-free. */
  lemma ListedPrefixFree(book: seq<Entry>, codes: CodeTable)
    requires Lists(book, codes) && PrefixFree(book)
    ensures PrefixFreeTable(codes)
  {
    forall a, b | a in codes && b in codes && a != b
      ensures !IsPrefix(codes[a], codes[b])
    {
      assert Entry(a, codes[a]) in book && Entry(b, codes[b]) in book;
      var i :| 0 <= i < |book| && book[i] == Entry(a, codes[a]);
      var j :| 0 <= j < |book| && book[j] == Entry(b, codes[b]);
    }
  }

  /** For a tree whose symbols are all different, `buildCodes` gives one code
      per leaf, keyed by its symbol, and no code is a prefix of another. */
  lemma BuildCodesPrefixFree(t: Tree)
    requires DistinctChars(Leaves(t))
    ensures BuildCodes(t, [], map[]).Keys == LeafChars(Leaves(t))
    ensures Lists(Codewords(t, []), BuildCodes(t, [], map[]))
    ensures PrefixFreeTable(BuildCodes(t, [], map[]))
    ensures t.Branch? ==> forall b :: b in BuildCodes(t, [], map[]) ==> |BuildCodes(t, [], map[])[b]| >= 1
  {
    var w := Codewords(t, []);
    var codes := BuildCodes(t, [], map[]);
    CodewordsDistinct(t, []);
    CodewordsPrefixFree(t, []);
    BuildCodesInto(t, [], map[]);
    ToTableLists(w);
    ListedPrefixFree(w, codes);
    if t.Branch? {
      CodewordsShape(t, []);
      forall b | b in codes
        ensures |codes[b]| >= 1
      {
        assert Entry(b, codes[b]) in w;
        var i :| 0 <= i < |w| && w[i] == Entry(b, codes[b]);
      }
    }
  }

  /** The share of a code of length `len` in the code space of depth `h`. */
  function Scaled(h: nat, len: nat): nat
  {
    if len <= h then Pow2(h - len) else 0
  }

  /** The Kraft sum of a codebook, scaled by `2^h`. */
  function KraftSum(book: seq<Entry>, h: nat): int
  {
    SumBy(book, (e: Entry) => Scaled(h, |e.code|))
  }

  lemma KraftSumAppend(a: seq<Entry>, b: seq<Entry>, h: nat)
    ensures KraftSum(a + b, h) == KraftSum(a, h) + KraftSum(b, h)
  {
    SumByAppend(a, b, (e: Entry) => Scaled(h, |e.code|));
  }

  lemma KraftSumPermutation(a: seq<Entry>, b: seq<Entry>, h: nat)
    requires multiset(a) == multiset(b)
    ensures KraftSum(a, h) == KraftSum(b, h)
  {
    SumByPermutation(a, b, (e: Entry) => Scaled(h, |e.code|));
  }

  /** The codes of a tree's leaves fill the code space exactly: the sum of
      `2^-len` over the leaves below a node at depth `d` is `2^-d`. */
  lemma {:induction false} TreeKraft(t: Tree, code: seq<bool>, h: nat)
    requires |code| + Height(t) <= h
    ensures KraftSum(Codewords(t, code), h) == Pow2(h - |code|)
  {
    match t
    case Leaf(ch, _, _) =>
      SumBySingle(Entry(ch, code), (e: Entry) => Scaled(h, |e.code|));
    case Branch(l, r, _, _) =>
      TreeKraft(l, code + [false], h);
      TreeKraft(r, code + [true], h);
      KraftSumAppend(Codewords(l, code + [false]), Codewords(r, code + [true]), h);
      assert Pow2(h - |code|) == 2 * Pow2(h - |code| - 1);
  }
}
