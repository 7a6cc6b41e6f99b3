/** The Huffman tree of huffman.go: the `Node` record and `buildBinaryTree`,
    which keeps a weight-sorted working list and repeatedly merges its two
    front nodes, inserting the merged node back by weight. */
module HuffmanTree {
  import opened Bits
  import opened Util

  /** A tree node. Every node carries its weight (`freq`) and its `name`: for a
      leaf its symbol, for an inner node the concatenated names of its
      children. Every inner node `buildBinaryTree` makes has two children. */
  datatype Tree =
    | Leaf(ch: Byte, freq: nat, name: seq<Byte>)
    | Branch(l: Tree, r: Tree, freq: nat, name: seq<Byte>)
  {
    /** Go's `char` field: the symbol of a leaf, zero for an inner node. */
    function Char(): Byte
    {
      if Leaf? then ch else 0
    }
  }

  /** The leaves of a tree, left to right. */
  function Leaves(t: Tree): seq<Tree>
  {
    match t
    case Leaf(_, _, _) => [t]
    case Branch(l, r, _, _) => Leaves(l) + Leaves(r)
  }

  /** The leaves of every tree of a working list, list order then tree order. */
  function ListLeaves(list: seq<Tree>): seq<Tree>
  {
    FlatBy(list, Leaves)
  }

  function Freq(t: Tree): int
  {
    t.freq
  }

  function SumFreq(list: seq<Tree>): int
  {
    SumBy(list, Freq)
  }

  /** The weights of a working list, in order. */
  function Weights(list: seq<Tree>): (w: seq<nat>)
    ensures |w| == |list| && forall i :: 0 <= i < |list| ==> w[i] == list[i].freq
  {
    seq(|list|, i requires 0 <= i < |list| => list[i].freq)
  }

  /** A leaf is named by its symbol; an inner node weighs what its children
      weigh together and is named by their names, left then right. */
  predicate WellFormed(t: Tree)
  {
    match t
    case Leaf(ch, _, name) => name == [ch]
    case Branch(l, r, freq, name) =>
      WellFormed(l) && WellFormed(r) && freq == l.freq + r.freq && name == l.name + r.name
  }

  predicate AllWellFormed(list: seq<Tree>)
  {
    forall i :: 0 <= i < |list| ==> WellFormed(list[i])
  }

  predicate SortedByWeight(list: seq<Tree>)
  {
    forall i, j :: 0 <= i < j < |list| ==> list[i].freq <= list[j].freq
  }

  /** The node `buildBinaryTree` makes from the two front nodes. */
  function Merge(l: Tree, r: Tree): Tree
  {
    Branch(l, r, l.freq + r.freq, l.name + r.name)
  }

  function InsertAt(list: seq<Tree>, k: nat, p: Tree): (r: seq<Tree>)
    requires k <= |list|
    ensures |r| == |list| + 1
    ensures multiset(r) == multiset(list) + multiset{p}
  {
    assert list == list[..k] + list[k..];
    list[..k] + [p] + list[k..]
  }

  /** The scan of huffman.go:47-53: from index `i` on, insert `p` after the
      first node `i` with `w[i] <= p <= w[i+1]`; when no such pair is left, the
      list comes back unchanged and `p` is lost. */
  function ScanInsert(list: seq<Tree>, p: Tree, i: nat): (r: seq<Tree>)
    ensures r == list || (|r| == |list| + 1 && multiset(r) == multiset(list) + multiset{p})
    decreases |list| - i
  {
    if i + 1 >= |list| then list
    else if list[i].freq <= p.freq <= list[i + 1].freq then InsertAt(list, i + 1, p)
    else ScanInsert(list, p, i + 1)
  }

  /** The re-insertion of huffman.go:42-54: append a node heavier than the
      last, prepend one lighter than the first, otherwise scan. */
  function InsertByWeight(list: seq<Tree>, p: Tree): (r: seq<Tree>)
    requires |list| >= 1
    ensures r == list || (|r| == |list| + 1 && multiset(r) == multiset(list) + multiset{p})
  {
    if p.freq > list[|list| - 1].freq then list + [p]
    else if p.freq < list[0].freq then [p] + list
    else ScanInsert(list, p, 0)
  }

  /** `buildBinaryTree` (huffman.go:19-58) as a function: None is Go's nil. */
  function Build(list: seq<Tree>): Option<Tree>
    decreases |list|
  {
    if |list| <= 1 then None
    else
      var p := Merge(list[0], list[1]);
      var rest := list[2..];
      if rest == [] then Some(p) else Build(InsertByWeight(rest, p))
  }

  lemma InsertAtSorted(list: seq<Tree>, k: nat, p: Tree)
    requires SortedByWeight(list) && 0 < k < |list|
    requires list[k - 1].freq <= p.freq <= list[k].freq
    ensures SortedByWeight(InsertAt(list, k, p))
  {
    var r := InsertAt(list, k, p);
    forall i, j | 0 <= i < j < |r|
      ensures r[i].freq <= r[j].freq
    {
      if j < k || i > k {
      } else if i == k {
        assert r[j] == list[j - 1];
      } else if j == k {
        assert r[i] == list[i];
      } else {
        assert r[i] == list[i] && r[j] == list[j - 1];
      }
    }
  }

  /** Once `w[i] <= p <= w[last]`, the scan finds its place and keeps the list sorted. */
  lemma {:induction false} ScanInsertSorted(list: seq<Tree>, p: Tree, i: nat)
    requires SortedByWeight(list) && i + 1 < |list|
    requires list[i].freq <= p.freq <= list[|list| - 1].freq
    ensures |ScanInsert(list, p, i)| == |list| + 1
    ensures SortedByWeight(ScanInsert(list, p, i))
    decreases |list| - i
  {
    if list[i].freq <= p.freq <= list[i + 1].freq {
      InsertAtSorted(list, i + 1, p);
    } else {
      ScanInsertSorted(list, p, i + 1);
    }
  }

  /** The insertion keeps the working list ascending, and it loses `p` exactly
      when a single node of the same weight is left. */
  lemma InsertByWeightSorted(list: seq<Tree>, p: Tree)
    requires SortedByWeight(list) && |list| >= 1
    ensures InsertByWeight(list, p) == list <==> (|list| == 1 && p.freq == list[0].freq)
    ensures SortedByWeight(InsertByWeight(list, p))
  {
    var r := InsertByWeight(list, p);
    if p.freq > list[|list| - 1].freq {
      assert r == list + [p];
      assert |r| != |list|;
    } else if p.freq < list[0].freq {
      assert r == [p] + list;
      assert |r| != |list|;
    } else if |list| >= 2 {
      ScanInsertSorted(list, p, 0);
    }
  }

  lemma LeavesOfPair(a: Tree, b: Tree)
    ensures ListLeaves([a, b]) == Leaves(a) + Leaves(b)
    ensures SumFreq([a, b]) == a.freq + b.freq
  {
    assert [a, b] == [a] + [b];
    FlatByAppend([a], [b], Leaves);
    SumByAppend([a], [b], Freq);
    FlatBySingle(a, Leaves);
    FlatBySingle(b, Leaves);
    SumBySingle(a, Freq);
    SumBySingle(b, Freq);
  }

  lemma SplitFront(list: seq<Tree>)
    requires |list| >= 2
    ensures ListLeaves(list) == ListLeaves([list[0], list[1]]) + ListLeaves(list[2..])
    ensures SumFreq(list) == SumFreq([list[0], list[1]]) + SumFreq(list[2..])
  {
    assert list == [list[0], list[1]] + list[2..];
    FlatByAppend([list[0], list[1]], list[2..], Leaves);
    SumByAppend([list[0], list[1]], list[2..], Freq);
  }

  lemma Snoc(list: seq<Tree>, p: Tree)
    ensures ListLeaves(list + [p]) == ListLeaves(list) + Leaves(p)
    ensures SumFreq(list + [p]) == SumFreq(list) + p.freq
  {
    assert (list + [p])[..|list|] == list;
  }

  lemma WellFormedIn(r: seq<Tree>, rest: seq<Tree>, p: Tree)
    requires AllWellFormed(rest) && WellFormed(p)
    requires multiset(r) == multiset(rest) + multiset{p}
    ensures AllWellFormed(r)
  {
    forall i | 0 <= i < |r|
      ensures WellFormed(r[i])
    {
      assert r[i] in multiset(r);
      if r[i] != p {
        assert r[i] in multiset(rest);
      }
    }
  }

  /** Merging the two front nodes and re-inserting the merged node keeps
      the working list's weight and its leaves. */
  lemma MergeStep(list: seq<Tree>, r: seq<Tree>)
    requires |list| >= 3 && AllWellFormed(list)
    requires multiset(r) == multiset(list[2..]) + multiset{Merge(list[0], list[1])}
    ensures AllWellFormed(r)
    ensures SumFreq(r) == SumFreq(list)
    ensures multiset(ListLeaves(r)) == multiset(ListLeaves(list))
  {
    var p := Merge(list[0], list[1]);
    var rest := list[2..];
    assert WellFormed(list[0]) && WellFormed(list[1]);
    SplitFront(list);
    LeavesOfPair(list[0], list[1]);
    WellFormedIn(r, rest, p);
    Snoc(rest, p);
    assert multiset(rest + [p]) == multiset(r);
    SumByPermutation(r, rest + [p], Freq);
    FlatByPermutation(r, rest + [p], Leaves);
  }

  /** A tree built from a sorted list of well-formed nodes weighs what the list
      weighs and has exactly the list's leaves. */
  lemma {:induction false} BuildSound(list: seq<Tree>)
    requires SortedByWeight(list) && AllWellFormed(list)
    ensures Build(list).Some? ==>
      WellFormed(Build(list).value) &&
      Build(list).value.freq == SumFreq(list) &&
      multiset(Leaves(Build(list).value)) == multiset(ListLeaves(list))
    decreases |list|
  {
    if |list| == 2 {
      assert list == [list[0], list[1]];
      assert WellFormed(list[0]) && WellFormed(list[1]);
      LeavesOfPair(list[0], list[1]);
    } else if |list| >= 3 {
      var p := Merge(list[0], list[1]);
      var rest := list[2..];
      var r := InsertByWeight(rest, p);
      assert Build(list) == Build(r);
      InsertByWeightSorted(rest, p);
      if r != rest {
        MergeStep(list, r);
        BuildSound(r);
      }
    }
  }

  /** `buildBinaryTree` (huffman.go:19-58): the working list `frequencies` is
      re-sliced and re-inserted into until one merge empties it. */
  method BuildBinaryTree(frequencies: seq<Tree>) returns (root: Option<Tree>)
    ensures root == Build(frequencies)
    ensures |frequencies| < 2 ==> root.None?
    ensures SortedByWeight(frequencies) && AllWellFormed(frequencies) && root.Some? ==>
      WellFormed(root.value) &&
      root.value.freq == SumFreq(frequencies) &&
      multiset(Leaves(root.value)) == multiset(ListLeaves(frequencies))
  {
    if SortedByWeight(frequencies) && AllWellFormed(frequencies) {
      BuildSound(frequencies);
    }
    var list := frequencies;
    while true
      invariant Build(list) == Build(frequencies)
      decreases |list|
    {
      if |list| <= 1 {
        break;
      }
      ghost var whole := list;
      var l := list[0];
      var r := list[1];
      var p := Branch(l, r, l.freq + r.freq, l.name + r.name);
      list := list[2..];
      assert p == Merge(whole[0], whole[1]) && list == whole[2..];
      if |list| == 0 {
        return Some(p);
      }
      ghost var rest := list;
      assert Build(whole) == Build(InsertByWeight(rest, p));
      if p.freq > list[|list| - 1].freq {
        list := list + [p];
      } else if p.freq < list[0].freq {
        list := [p] + list;
      } else {
        list := Scan(list, p);
      }
      assert list == InsertByWeight(rest, p);
    }
    return None;
  }

  /** The scan of huffman.go:46-53 (main.go:51-57 is the same loop): insert
      `p` after the first node `i` with `w[i] <= p <= w[i+1]`, or leave the
      list as it is. */
  method Scan(list: seq<Tree>, p: Tree) returns (r: seq<Tree>)
    ensures r == ScanInsert(list, p, 0)
  {
    r := list;
    var maxIndex := |list| - 1;
    var i := 0;
    while i < maxIndex
      invariant 0 <= i <= |list|
      invariant ScanInsert(list, p, i) == ScanInsert(list, p, 0)
    {
      if list[i].freq <= p.freq && p.freq <= list[i + 1].freq {
        r := list[..i + 1] + [p] + list[i + 1..];
        return;
      }
      i := i + 1;
    }
  }

  /** The insertion without the equal-weight loss: where huffman.go drops the
      merged node, it is appended instead. */
  function InsertFixed(list: seq<Tree>, p: Tree): (r: seq<Tree>)
    requires |list| >= 1
    ensures |r| == |list| + 1 && multiset(r) == multiset(list) + multiset{p}
  {
    var r := InsertByWeight(list, p);
    if r == list then list + [p] else r
  }

  /** `buildBinaryTree` with `InsertFixed` in place of the re-insertion. */
  function BuildFixed(list: seq<Tree>): Option<Tree>
    decreases |list|
  {
    if |list| <= 1 then None
    else
      var p := Merge(list[0], list[1]);
      var rest := list[2..];
      if rest == [] then Some(p) else BuildFixed(InsertFixed(rest, p))
  }

  lemma InsertFixedSorted(list: seq<Tree>, p: Tree)
    requires SortedByWeight(list) && |list| >= 1
    ensures SortedByWeight(InsertFixed(list, p))
  {
    InsertByWeightSorted(list, p);
    if InsertByWeight(list, p) == list {
      var r := list + [p];
      forall i, j | 0 <= i < j < |r|
        ensures r[i].freq <= r[j].freq
      {
      }
    }
  }

  /** The corrected builder always yields a tree for two or more nodes, and
      that tree weighs what the list weighs and has exactly its leaves. */
  lemma {:induction false} BuildFixedSound(list: seq<Tree>)
    requires SortedByWeight(list) && AllWellFormed(list) && |list| >= 2
    ensures BuildFixed(list).Some?
    ensures WellFormed(BuildFixed(list).value)
    ensures BuildFixed(list).value.freq == SumFreq(list)
    ensures multiset(Leaves(BuildFixed(list).value)) == multiset(ListLeaves(list))
    decreases |list|
  {
    var p := Merge(list[0], list[1]);
    var rest := list[2..];
    assert WellFormed(list[0]) && WellFormed(list[1]);
    SplitFront(list);
    LeavesOfPair(list[0], list[1]);
    if rest == [] {
      assert list == [list[0], list[1]];
    } else {
      var r := InsertFixed(rest, p);
      InsertFixedSorted(rest, p);
      WellFormedIn(r, rest, p);
      BuildFixedSound(r);
      Snoc(rest, p);
      SumByPermutation(r, rest + [p], Freq);
      FlatByPermutation(r, rest + [p], Leaves);
    }
  }

  /** Where huffman.go's builder succeeds, the corrected one builds the same tree. */
  lemma {:induction false} BuildFixedAgrees(list: seq<Tree>)
    requires SortedByWeight(list) && Build(list).Some?
    ensures BuildFixed(list) == Build(list)
    decreases |list|
  {
    var p := Merge(list[0], list[1]);
    var rest := list[2..];
    if rest != [] {
      InsertByWeightSorted(rest, p);
      var r := InsertByWeight(rest, p);
      assert InsertFixed(rest, p) == r;
      BuildFixedAgrees(r);
    }
  }

  /** Weights 1, 1, 2 (the input "aab" plus the sentinel): the merged node of
      weight 2 meets a single node of weight 2 and is dropped, so huffman.go's
      builder returns nil, while the corrected builder makes the full tree. */
  lemma EqualWeightDrop(x: Tree, y: Tree, z: Tree)
    requires x.freq == 1 && y.freq == 1 && z.freq == 2
    ensures Build([x, y, z]).None?
    ensures BuildFixed([x, y, z]) == Some(Merge(z, Merge(x, y)))
  {
    var p := Merge(x, y);
    assert [x, y, z][2..] == [z];
    assert InsertByWeight([z], p) == [z];
    assert InsertFixed([z], p) == [z, p];
    assert BuildFixed([z, p]) == Some(Merge(z, p));
  }
}
