/** The first half of huffman.go's `Encode` (huffman.go:153-194): counting how
    often each byte occurs, making one leaf per byte, and ordering the leaves
    by weight with a bubble sort that restarts after every swap. */
module Frequencies {
  import opened Bits
  import opened Util
  import opened HuffmanTree

  /** The counting loop of huffman.go:156-164: `frequenciesMap` ends up with an
      entry for exactly the bytes of the input, each with its number of
      occurrences. */
  method CountFrequencies(input: seq<Byte>) returns (freq: map<Byte, nat>)
    ensures forall b :: b in freq <==> b in input
    ensures forall b :: b in freq ==> freq[b] == multiset(input)[b] >= 1
    ensures freq == Counts(input)
  {
    freq := map[];
    for i := 0 to |input|
      invariant forall b :: b in freq <==> b in input[..i]
      invariant forall b :: b in freq ==> freq[b] == multiset(input[..i])[b]
    {
      var b := input[i];
      assert input[..i + 1] == input[..i] + [b];
      if b in freq {
        freq := freq[b := freq[b] + 1];
      } else {
        freq := freq[b := 1];
      }
    }
    assert input[..|input|] == input;
    assert freq.Keys == Counts(input).Keys;
  }

  /** The byte counts of a sequence: each of its bytes with its number of
      occurrences. */
  function Counts(input: seq<Byte>): map<Byte, nat>
  {
    map b | b in input :: multiset(input)[b]
  }

  /** The symbols of a list of nodes, as a set. */
  function Chars(nodes: seq<Tree>): set<Byte>
  {
    if nodes == [] then {} else Chars(nodes[..|nodes| - 1]) + {nodes[|nodes| - 1].Char()}
  }

  lemma {:induction false} CharsMembers(nodes: seq<Tree>)
    ensures forall i :: 0 <= i < |nodes| ==> nodes[i].Char() in Chars(nodes)
    ensures forall c :: c in Chars(nodes) ==> exists i :: 0 <= i < |nodes| && nodes[i].Char() == c
  {
    if nodes != [] {
      var front := nodes[..|nodes| - 1];
      CharsMembers(front);
      forall c | c in Chars(nodes)
        ensures exists i :: 0 <= i < |nodes| && nodes[i].Char() == c
      {
        if c in Chars(front) {
          var i :| 0 <= i < |front| && front[i].Char() == c;
          assert nodes[i] == front[i];
        } else {
          assert nodes[|nodes| - 1].Char() == c;
        }
      }
      forall i | 0 <= i < |nodes|
        ensures nodes[i].Char() in Chars(nodes)
      {
        if i < |front| {
          assert nodes[i] == front[i];
        }
      }
    }
  }

  /** Nodes with distinct symbols have as many symbols as nodes. */
  lemma {:induction false} CharsSize(nodes: seq<Tree>)
    requires forall i, j :: 0 <= i < j < |nodes| ==> nodes[i].Char() != nodes[j].Char()
    ensures |Chars(nodes)| == |nodes|
  {
    if nodes != [] {
      var front := nodes[..|nodes| - 1];
      var last := nodes[|nodes| - 1];
      CharsSize(front);
      CharsMembers(front);
      assert last.Char() !in Chars(front) by {
        forall c | c in Chars(front)
          ensures c != last.Char()
        {
          var i :| 0 <= i < |front| && front[i].Char() == c;
          assert nodes[i] == front[i];
        }
      }
    }
  }

  /** `nodes` holds one leaf per entry of `freq`: the leaf of byte `k` weighs
      `freq[k]` and is named by `k`. */
  predicate IsLeafList(nodes: seq<Tree>, freq: map<Byte, nat>)
  {
    && (forall i :: 0 <= i < |nodes| ==>
          nodes[i].Leaf? && nodes[i].ch in freq && nodes[i] == Leaf(nodes[i].ch, freq[nodes[i].ch], [nodes[i].ch]))
    && (forall i, j :: 0 <= i < j < |nodes| ==> nodes[i].ch != nodes[j].ch)
    && Chars(nodes) == freq.Keys
  }

  /** The loop of huffman.go:166-170 over `frequenciesMap`. Go visits a map in
      an unspecified order, so the next key is any key not yet visited. */
  method LeafNodes(freq: map<Byte, nat>) returns (nodes: seq<Tree>)
    ensures IsLeafList(nodes, freq)
    ensures |nodes| == |freq.Keys|
  {
    nodes := [];
    var rest := freq.Keys;
    while rest != {}
      invariant LeavesSoFar(nodes, freq, rest)
      decreases |rest|
    {
      var k :| k in rest;
      AddLeaf(nodes, freq, rest, k);
      nodes := nodes + [Leaf(k, freq[k], [k])];
      rest := rest - {k};
    }
  }

  /** The invariant of `LeafNodes`: one leaf for every key visited so far,
      and `rest` the keys not yet visited. */
  predicate LeavesSoFar(nodes: seq<Tree>, freq: map<Byte, nat>, rest: set<Byte>)
  {
    && rest <= freq.Keys
    && (forall i :: 0 <= i < |nodes| ==>
          nodes[i].Leaf? && nodes[i].ch in freq && nodes[i] == Leaf(nodes[i].ch, freq[nodes[i].ch], [nodes[i].ch]))
    && (forall i, j :: 0 <= i < j < |nodes| ==> nodes[i].ch != nodes[j].ch)
    && Chars(nodes) == freq.Keys - rest
    && |nodes| + |rest| == |freq.Keys|
  }

  /** Visiting one more key adds its leaf and keeps the invariant. */
  lemma AddLeaf(nodes: seq<Tree>, freq: map<Byte, nat>, rest: set<Byte>, k: Byte)
    requires LeavesSoFar(nodes, freq, rest) && k in rest
    ensures LeavesSoFar(nodes + [Leaf(k, freq[k], [k])], freq, rest - {k})
  {
    var leaf := Leaf(k, freq[k], [k]);
    assert (nodes + [leaf])[..|nodes|] == nodes;
    CharsMembers(nodes);
    forall i | 0 <= i < |nodes|
      ensures nodes[i].ch != k
    {
      assert nodes[i].Char() in Chars(nodes);
    }
  }

  /** No adjacent pair is out of order. */
  predicate AdjacentSorted(list: seq<Tree>)
  {
    forall j :: 0 <= j < |list| - 1 ==> list[j].freq <= list[j + 1].freq
  }

  lemma {:induction false} AdjacentSortedIsSorted(list: seq<Tree>)
    requires AdjacentSorted(list)
    ensures SortedByWeight(list)
  {
    if |list| >= 2 {
      var front := list[..|list| - 1];
      assert AdjacentSorted(front);
      AdjacentSortedIsSorted(front);
      forall i, j | 0 <= i < j < |list|
        ensures list[i].freq <= list[j].freq
      {
        if j < |list| - 1 {
          assert list[i] == front[i] && list[j] == front[j];
        } else if i < j - 1 {
          assert list[i] == front[i] && list[j - 1] == front[j - 1];
        }
      }
    }
  }

  /** How far a list is from sorted: every swap of an inverted pair lowers it. */
  function Disorder(list: seq<Tree>): nat
  {
    WeightedSumBound(Weights(list));
    |list| * Total(Weights(list)) - WeightedSum(Weights(list))
  }

  lemma SwapLowersDisorder(list: seq<Tree>, i: nat)
    requires i + 1 < |list| && list[i].freq > list[i + 1].freq
    ensures Disorder(Swap(list, i)) < Disorder(list)
  {
    var w := Weights(list);
    assert Weights(Swap(list, i)) == w[i := w[i + 1]][i + 1 := w[i]];
    SwapRaisesWeightedSum(w, i);
  }

  /** The sort of huffman.go:176-194, in place on the slice of leaves: scan for
      the first inverted adjacent pair, swap it and start over, until a scan
      finds none. */
  method SortByWeight(a: array<Tree>)
    modifies a
    ensures SortedByWeight(a[..])
    ensures multiset(a[..]) == multiset(old(a[..]))
  {
    while true
      invariant multiset(a[..]) == multiset(old(a[..]))
      decreases Disorder(a[..])
    {
      ghost var before := a[..];
      var resort := false;
      var i := 0;
      while i < a.Length - 1
        invariant 0 <= i <= if a.Length == 0 then 0 else a.Length - 1
        invariant a[..] == before
        invariant forall j :: 0 <= j < i ==> a[j].freq <= a[j + 1].freq
      {
        if a[i].freq > a[i + 1].freq {
          a[i], a[i + 1] := a[i + 1], a[i];
          assert a[..] == Swap(before, i);
          SwapLowersDisorder(before, i);
          resort := true;
          break;
        }
        i := i + 1;
      }
      if !resort {
        assert AdjacentSorted(a[..]);
        AdjacentSortedIsSorted(a[..]);
        break;
      }
    }
  }

  /** The input with every occurrence of `c` removed. */
  function Without(s: seq<Byte>, c: Byte): seq<Byte>
  {
    if s == [] then []
    else Without(s[..|s| - 1], c) + (if s[|s| - 1] == c then [] else [s[|s| - 1]])
  }

  lemma {:induction false} WithoutCounts(s: seq<Byte>, c: Byte)
    ensures |s| == |Without(s, c)| + multiset(s)[c]
    ensures multiset(Without(s, c))[c] == 0
    ensures forall y :: y != c ==> multiset(Without(s, c))[y] == multiset(s)[y]
  {
    if s != [] {
      var s' := s[..|s| - 1];
      assert s == s' + [s[|s| - 1]];
      WithoutCounts(s', c);
    }
  }

  lemma FirstIsMember(s: seq<Byte>)
    ensures s == [] || s[0] in s
  {
  }

  /** The leaves of one input weigh as much, together, as the input is long. */
  lemma {:induction false} LeafWeightsSum(nodes: seq<Tree>, input: seq<Byte>)
    requires forall i :: 0 <= i < |nodes| ==> nodes[i].Leaf? && nodes[i].freq == multiset(input)[nodes[i].ch]
    requires forall i, j :: 0 <= i < j < |nodes| ==> nodes[i].ch != nodes[j].ch
    requires forall b :: b in input ==> b in Chars(nodes)
    ensures SumFreq(nodes) == |input|
  {
    if nodes == [] {
      assert Chars(nodes) == {};
      FirstIsMember(input);
    } else {
      var front := nodes[..|nodes| - 1];
      var last := nodes[|nodes| - 1];
      var c := last.ch;
      var rest: seq<Byte> := Without(input, c);
      WithoutCounts(input, c);
      assert Chars(nodes) == Chars(front) + {c};
      forall i | 0 <= i < |front|
        ensures front[i].Leaf? && front[i].freq == multiset(rest)[front[i].ch]
      {
        assert front[i] == nodes[i];
        assert front[i].ch != c;
      }
      forall b | b in rest
        ensures b in Chars(front)
      {
        assert multiset(rest)[b] > 0;
        assert b != c && b in multiset(input);
        assert b in input && b in Chars(nodes);
      }
      LeafWeightsSum(front, rest);
      assert nodes == front + [last];
      Snoc(front, last);
    }
  }

  /** A list of leaves made from a byte count of `input` weighs `|input|` in
      all, each leaf at least one. */
  lemma LeafListWeight(nodes: seq<Tree>, freq: map<Byte, nat>, input: seq<Byte>)
    requires forall b :: b in freq <==> b in input
    requires forall b :: b in freq ==> freq[b] == multiset(input)[b]
    requires IsLeafList(nodes, freq)
    ensures SumFreq(nodes) == |input|
    ensures forall i :: 0 <= i < |nodes| ==> nodes[i].freq >= 1
  {
    LeafWeightsSum(nodes, input);
  }
}
