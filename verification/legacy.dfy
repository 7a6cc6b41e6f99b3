/** The two places where main.go, the earlier copy of the encoder, differs
    from huffman.go: its `buildBinaryTree` (main.go:20-62) has no branch that
    puts a light merged node at the front, and its `decode` (main.go:230-250)
    stops after reading the header. The rest of main.go's helpers are the same
    as huffman.go's and are modelled once, in the other modules. */
module Legacy {
  import opened Bits
  import opened Util
  import opened HuffmanTree
  import opened Header
  import opened Codec

  /** The re-insertion of main.go:48-57: append a node heavier than the last,
      otherwise scan; a node lighter than the first finds no place and is lost. */
  function InsertLegacy(list: seq<Tree>, p: Tree): (r: seq<Tree>)
    requires |list| >= 1
    ensures r == list || (|r| == |list| + 1 && multiset(r) == multiset(list) + multiset{p})
  {
    if p.freq > list[|list| - 1].freq then list + [p]
    else ScanInsert(list, p, 0)
  }

  /** main.go's `buildBinaryTree` as a function: None is Go's nil. */
  function BuildLegacy(list: seq<Tree>): Option<Tree>
    decreases |list|
  {
    if |list| <= 1 then None
    else
      var p := Merge(list[0], list[1]);
      var rest := list[2..];
      if rest == [] then Some(p) else BuildLegacy(InsertLegacy(rest, p))
  }

  /** The scan inserts, if at all, between two nodes that bound the new weight. */
  lemma {:induction false} ScanInsertKeepsSorted(list: seq<Tree>, p: Tree, i: nat)
    requires SortedByWeight(list)
    ensures SortedByWeight(ScanInsert(list, p, i))
    decreases |list| - i
  {
    if i + 1 < |list| {
      if list[i].freq <= p.freq <= list[i + 1].freq {
        InsertAtSorted(list, i + 1, p);
      } else {
        ScanInsertKeepsSorted(list, p, i + 1);
      }
    }
  }

  lemma InsertLegacySorted(list: seq<Tree>, p: Tree)
    requires SortedByWeight(list) && |list| >= 1
    ensures SortedByWeight(InsertLegacy(list, p))
  {
    if p.freq > list[|list| - 1].freq {
      var r := list + [p];
      forall i, j | 0 <= i < j < |r|
        ensures r[i].freq <= r[j].freq
      {
      }
    } else {
      ScanInsertKeepsSorted(list, p, 0);
    }
  }

  /** Dropping the two front nodes loses weight and leaves, never gains any. */
  lemma DropStep(list: seq<Tree>)
    requires |list| >= 3 && AllWellFormed(list)
    ensures AllWellFormed(list[2..])
    ensures SumFreq(list[2..]) <= SumFreq(list)
    ensures multiset(ListLeaves(list[2..])) <= multiset(ListLeaves(list))
  {
    SplitFront(list);
    LeavesOfPair(list[0], list[1]);
    assert AllWellFormed(list[2..]) by {
      forall i | 0 <= i < |list[2..]|
        ensures WellFormed(list[2..][i])
      {
        assert list[2..][i] == list[i + 2];
      }
    }
  }

  /** Whatever main.go's builder returns is a well-formed tree over some of
      the list's leaves, weighing no more than the whole list. */
  lemma {:induction false} BuildLegacySound(list: seq<Tree>)
    requires SortedByWeight(list) && AllWellFormed(list)
    ensures BuildLegacy(list).Some? ==>
      WellFormed(BuildLegacy(list).value) &&
      BuildLegacy(list).value.freq <= SumFreq(list) &&
      multiset(Leaves(BuildLegacy(list).value)) <= multiset(ListLeaves(list))
    decreases |list|
  {
    if |list| == 2 {
      assert list == [list[0], list[1]];
      assert WellFormed(list[0]) && WellFormed(list[1]);
      LeavesOfPair(list[0], list[1]);
    } else if |list| >= 3 {
      var p := Merge(list[0], list[1]);
      var rest := list[2..];
      var r := InsertLegacy(rest, p);
      assert BuildLegacy(list) == BuildLegacy(r);
      InsertLegacySorted(rest, p);
      if r != rest {
        MergeStep(list, r);
        BuildLegacySound(r);
      } else {
        DropStep(list);
        BuildLegacySound(rest);
      }
    }
  }

  /** main.go's `buildBinaryTree` (main.go:20-62). The Go nodes are copied by
      value and get parent pointers; neither is visible in the returned tree. */
  method BuildBinaryTree(frequencies: seq<Tree>) returns (root: Option<Tree>)
    ensures root == BuildLegacy(frequencies)
    ensures |frequencies| < 2 ==> root.None?
  {
    var list := frequencies;
    while true
      invariant BuildLegacy(list) == BuildLegacy(frequencies)
      decreases |list|
    {
      if |list| <= 1 {
        break;
      }
      ghost var whole := list;
      var l := list[0];
      var r := list[1];
      var p := Branch(l, r, l.freq + r.freq, l.name + r.name);
      list := list[2..];
      assert p == Merge(whole[0], whole[1]) && list == whole[2..];
      if |list| == 0 {
        return Some(p);
      }
      ghost var rest := list;
      assert BuildLegacy(whole) == BuildLegacy(InsertLegacy(rest, p));
      if p.freq > list[|list| - 1].freq {
        list := list + [p];
      } else {
        list := Scan(list, p);
      }
      assert list == InsertLegacy(rest, p);
    }
    return None;
  }

  /** Weights 1, 1, 3, 4: the merged node of weight 2 is lighter than every
      node left, so main.go's builder loses both weight-1 leaves, while
      huffman.go's builder puts it at the front and keeps all four. */
  lemma LightMergeLost(a: Tree, b: Tree, c: Tree, d: Tree)
    requires a.freq == 1 && b.freq == 1 && c.freq == 3 && d.freq == 4
    ensures BuildLegacy([a, b, c, d]) == Some(Merge(c, d))
    ensures Build([a, b, c, d]) == Some(Merge(d, Merge(Merge(a, b), c)))
  {
    var p := Merge(a, b);
    assert [a, b, c, d][2..] == [c, d];
    assert ScanInsert([c, d], p, 0) == [c, d];
    assert InsertLegacy([c, d], p) == [c, d];
    assert InsertByWeight([c, d], p) == [p, c, d];
    var q := Merge(p, c);
    assert [p, c, d][2..] == [d];
    assert InsertByWeight([d], q) == [d, q];
    assert Build([d, q]) == Some(Merge(d, q));
  }

  /** What main.go's `decode` (main.go:230-250) returns: it splits off the
      header as `Decode` does and reads it, then calls the empty
      `buildHuffmanTree` (main.go:358-359) and returns nil, the empty
      result. None is a Go panic. */
  function DecodeLegacy(encoded: seq<Byte>): Option<seq<Byte>>
  {
    match HeaderOf(encoded)
    case None => None
    case Some(_) => Some([])
  }

  /** main.go's `decode`. The printing of the codes is not modelled. */
  method Decode(encoded: seq<Byte>) returns (decoded: Option<seq<Byte>>)
    ensures decoded == DecodeLegacy(encoded)
  {
    var codes := ReadHeader(encoded);
    if codes.None? {
      return None;
    }
    decoded := Some([]);
  }

  /** main.go's `decode` fails exactly where huffman.go's `Decode` fails on
      the header, and otherwise returns nothing of the message, wherever
      `Decode` would have returned one. */
  lemma StubDropsMessage(encoded: seq<Byte>)
    ensures DecodeSpec(encoded).Some? ==> DecodeLegacy(encoded) == Some([])
    ensures DecodeLegacy(encoded).None? ==> DecodeSpec(encoded).None?
  {
  }
}
