/** huffman.go's `constructCanoncial` (huffman.go:116-151; main.go:120-155 is
    the same code): the codebook is sorted by code length and byte, the first
    code becomes all zeros, and every later code is the previous one plus one,
    with a single 0 appended when the length grows. Beside it sits the
    canonical construction the function sets out to follow, which shifts by
    the whole growth in length and never saturates; the two agree on the
    codebooks characterised by `RewriteAgrees`. */
module Canonical {
  import opened Bits
  import opened Util
  import opened HuffmanTree
  import opened Codebook
  import opened Codes

  /** huffman.go:125-136: the rewritten code `prev` parsed as an int8
      (saturating at 127), plus one, printed at least `|prev|` digits wide. */
  function Increment(prev: seq<bool>): seq<bool>
  {
    FormatBinary(ParseInt8(prev) + 1, |prev|)
  }

  /** The code huffman.go:125-142 gives an entry whose raw code has `len`
      bits, after the already rewritten code `prev`: the increment of `prev`,
      with one 0 more when `len` exceeds `|prev|`. */
  function NextCode(prev: seq<bool>, len: nat): seq<bool>
  {
    if len > |prev| then Increment(prev) + [false] else Increment(prev)
  }

  /** The value of the canonical code after `prev`: one more than `prev`,
      shifted left by the growth in length. */
  function Successor(prev: seq<bool>, len: nat): nat
  {
    (Value(prev) + 1) * Pow2(if len >= |prev| then len - |prev| else 0)
  }

  /** The canonical step: the successor value printed `len` digits wide. */
  function NextFixed(prev: seq<bool>, len: nat): seq<bool>
  {
    FormatBinary(Successor(prev, len), len)
  }

  /** The rewrite of a sorted codebook: the first code becomes zeros of its
      length, and each later code is `next` of the rewritten code before it
      and its own raw length. */
  function RewriteWith(book: seq<Entry>, next: (seq<bool>, nat) -> seq<bool>): (r: seq<Entry>)
    ensures |r| == |book|
  {
    if book == [] then []
    else if |book| == 1 then [Entry(book[0].b, Zeros(|book[0].code|))]
    else
      var front := RewriteWith(book[..|book| - 1], next);
      var last := book[|book| - 1];
      front + [Entry(last.b, next(front[|front| - 1].code, |last.code|))]
  }

  /** The rewrite keeps every byte in its place. */
  lemma {:induction false} RewriteBytes(book: seq<Entry>, next: (seq<bool>, nat) -> seq<bool>)
    ensures forall i :: 0 <= i < |book| ==> RewriteWith(book, next)[i].b == book[i].b
  {
    if |book| >= 2 {
      RewriteBytes(book[..|book| - 1], next);
      RewriteStep(book, next);
    }
  }

  /** One step of the rewrite: the last entry's new code is `next` of the
      code rewritten before it. */
  lemma RewriteStep(book: seq<Entry>, next: (seq<bool>, nat) -> seq<bool>)
    requires |book| >= 2
    ensures RewriteWith(book, next) == RewriteWith(book[..|book| - 1], next) +
      [Entry(book[|book| - 1].b, next(RewriteWith(book[..|book| - 1], next)[|book| - 2].code, |book[|book| - 1].code|))]
  {
  }

  /** The loop of huffman.go:118-143. */
  function Rewrite(book: seq<Entry>): seq<Entry>
  {
    RewriteWith(book, NextCode)
  }

  /** The canonical construction the loop is meant to perform. */
  function RewriteFixed(book: seq<Entry>): seq<Entry>
  {
    RewriteWith(book, NextFixed)
  }

  /** `constructCanoncial` as a function of the raw code table. */
  function CanonicalMap(codes: CodeTable): CodeTable
  {
    ToTable(Rewrite(SortedCodebook(codes)))
  }

  /** `constructCanoncial` (huffman.go:116-151): sort the table into a
      codebook, rewrite the codes in place in codebook order, then collect
      them into a fresh table. */
  method ConstructCanonical(codes: CodeTable) returns (newCodes: CodeTable)
    ensures newCodes == CanonicalMap(codes)
    ensures newCodes.Keys == codes.Keys
    ensures Lists(Rewrite(SortedCodebook(codes)), newCodes)
  {
    var codebook := SortCodes(codes);
    codebook := RewriteCodebook(codebook);
    newCodes := CollectCodes(codebook);
    CanonicalKeys(codes);
  }

  /** The loop of huffman.go:118-143, in place on the sorted codebook: the
      first code becomes zeros of its length; every later one is the previous
      rewritten code parsed as an int8, plus one, printed as wide as that code,
      with a 0 appended when the entry's own code was longer. */
  method RewriteCodebook(sorted: seq<Entry>) returns (codebook: seq<Entry>)
    ensures codebook == Rewrite(sorted)
  {
    codebook := sorted;
    for i := 0 to |codebook|
      invariant |codebook| == |sorted|
      invariant codebook == Rewrite(sorted[..i]) + sorted[i..]
    {
      ghost var done := Rewrite(sorted[..i]);
      RewritePrefixStep(sorted, i, NextCode);
      assert codebook[i] == sorted[i];
      var s;
      if i == 0 {
        s := Zeros(|codebook[0].code|);
      } else {
        var prev := codebook[i - 1].code;
        assert prev == done[i - 1].code;
        var asInt := ParseInt8(prev);
        asInt := asInt + 1;
        s := FormatBinary(asInt, |prev|);
        assert s == Increment(prev);
        if |codebook[i].code| > |prev| {
          s := s + [false];
        }
      }
      UpdateSplit(codebook, done, sorted, i, Entry(sorted[i].b, s));
      codebook := codebook[i := Entry(codebook[i].b, s)];
    }
    assert sorted[..|sorted|] == sorted;
    assert codebook == Rewrite(sorted) + [];
  }

  /** The loop of huffman.go:145-148: every entry sets its byte's code in a
      fresh table. */
  method CollectCodes(codebook: seq<Entry>) returns (newCodes: CodeTable)
    ensures newCodes == ToTable(codebook)
  {
    newCodes := map[];
    for i := 0 to |codebook|
      invariant newCodes == Into(map[], codebook[..i])
    {
      assert codebook[..i + 1][..i] == codebook[..i];
      newCodes := newCodes[codebook[i].b := codebook[i].code];
    }
    assert codebook[..|codebook|] == codebook;
  }

  /** Overwriting the first entry of the unrewritten part moves it over. */
  lemma UpdateSplit(codebook: seq<Entry>, done: seq<Entry>, sorted: seq<Entry>, i: nat, e: Entry)
    requires |done| == i < |sorted| && codebook == done + sorted[i..]
    ensures codebook[i := e] == done + [e] + sorted[i + 1..]
  {
  }

  /** The rewrite of a prefix one entry longer. */
  lemma RewritePrefixStep(book: seq<Entry>, i: nat, next: (seq<bool>, nat) -> seq<bool>)
    requires i < |book|
    ensures RewriteWith(book[..i + 1], next) == RewriteWith(book[..i], next) +
      [Entry(book[i].b, if i == 0 then Zeros(|book[i].code|)
                        else next(RewriteWith(book[..i], next)[i - 1].code, |book[i].code|))]
  {
    assert book[..i + 1][..i] == book[..i];
    if i > 0 {
      RewriteStep(book[..i + 1], next);
    }
  }

  /** Two codebooks with the same bytes in the same places have the same set
      of bytes, and one has each byte once exactly when the other does. */
  lemma SameBytes(a: seq<Entry>, b: seq<Entry>)
    requires |a| == |b| && forall i :: 0 <= i < |a| ==> a[i].b == b[i].b
    ensures Bytes(a) == Bytes(b)
    ensures DistinctBytes(a) <==> DistinctBytes(b)
  {
    forall x | x in Bytes(a)
      ensures x in Bytes(b)
    {
      var e :| e in a && e.b == x;
      var i :| 0 <= i < |a| && a[i] == e;
      assert b[i] in b;
    }
    forall x | x in Bytes(b)
      ensures x in Bytes(a)
    {
      var e :| e in b && e.b == x;
      var i :| 0 <= i < |b| && b[i] == e;
      assert a[i] in a;
    }
  }

  /** A listing names exactly the table's bytes. */
  lemma ListedBytes(book: seq<Entry>, codes: CodeTable)
    requires Lists(book, codes)
    ensures Bytes(book) == codes.Keys
  {
    forall x | x in codes
      ensures x in Bytes(book)
    {
      assert Entry(x, codes[x]) in book;
    }
  }

  /** Canonicalisation gives a code to exactly the bytes that had one, and the
      new table lists the rewritten codebook. */
  lemma CanonicalKeys(codes: CodeTable)
    ensures CanonicalMap(codes).Keys == codes.Keys
    ensures Lists(Rewrite(SortedCodebook(codes)), CanonicalMap(codes))
  {
    var book := SortedCodebook(codes);
    SortedCodebookSpec(codes);
    var r := Rewrite(book);
    RewriteBytes(book, NextCode);
    SameBytes(book, r);
    ToTableLists(r);
    ListedBytes(book, codes);
  }

  /** The rewrite reads nothing of the raw codes but their lengths. */
  lemma {:induction false} RewriteLengthsOnly(a: seq<Entry>, b: seq<Entry>, next: (seq<bool>, nat) -> seq<bool>)
    requires |a| == |b|
    requires forall i :: 0 <= i < |a| ==> a[i].b == b[i].b && |a[i].code| == |b[i].code|
    ensures RewriteWith(a, next) == RewriteWith(b, next)
  {
    if |a| >= 2 {
      RewriteLengthsOnly(a[..|a| - 1], b[..|b| - 1], next);
    }
  }

  /** Two tables with the same bytes and the same code lengths canonicalise
      to the same table: the decoder, which only learns the lengths, rebuilds
      the encoder's canonical codes. */
  lemma CanonicalLengthsOnly(c1: CodeTable, c2: CodeTable)
    requires c1.Keys == c2.Keys
    requires forall k :: k in c1 ==> |c1[k]| == |c2[k]|
    ensures CanonicalMap(c1) == CanonicalMap(c2)
  {
    var a := SortedCodebook(c1);
    SortedCodebookSpec(c1);
    var b := Relabel(a, c1, c2);
    IsSortedCodebook(b, c2);
    RewriteLengthsOnly(a, b, NextCode);
  }

  /** The codebook of `c1` with every code replaced by the code `c2` gives
      the same byte: when the lengths agree it is still sorted, and it lists
      `c2`. */
  lemma Relabel(a: seq<Entry>, c1: CodeTable, c2: CodeTable) returns (b: seq<Entry>)
    requires StrictlySorted(a) && Lists(a, c1)
    requires c1.Keys == c2.Keys
    requires forall k :: k in c1 ==> |c1[k]| == |c2[k]|
    ensures StrictlySorted(b) && Lists(b, c2)
    ensures |a| == |b| && forall i :: 0 <= i < |a| ==> a[i].b == b[i].b && |a[i].code| == |b[i].code|
  {
    assert forall i :: 0 <= i < |a| ==> a[i] in a;
    b := seq(|a|, i requires 0 <= i < |a| => Entry(a[i].b, c2[a[i].b]));
    forall i, j | 0 <= i < j < |b|
      ensures Key(b[i]) < Key(b[j])
    {
      assert a[i] in a && a[j] in a;
    }
    forall e
      ensures e in b <==> e.b in c2 && c2[e.b] == e.code
    {
      if e.b in c2 && c2[e.b] == e.code {
        assert Entry(e.b, c1[e.b]) in a;
        var i :| 0 <= i < |a| && a[i] == Entry(e.b, c1[e.b]);
        assert b[i] == e;
      }
    }
  }

  /** Code lengths never decrease along the codebook. */
  predicate LengthSorted(book: seq<Entry>)
  {
    forall i, j :: 0 <= i < j < |book| ==> |book[i].code| <= |book[j].code|
  }

  lemma SortedByLength(book: seq<Entry>)
    requires StrictlySorted(book)
    ensures LengthSorted(book)
  {
    forall i, j | 0 <= i < j < |book|
      ensures |book[i].code| <= |book[j].code|
    {
      KeyOrder(book[i], book[j]);
    }
  }

  /** No code is longer than `h`. */
  predicate Within(book: seq<Entry>, h: nat)
  {
    forall i :: 0 <= i < |book| ==> |book[i].code| <= h
  }

  lemma PowerScale(x: nat, a: nat, b: nat)
    ensures x * Pow2(a) * Pow2(b) == x * Pow2(a + b)
  {
    Pow2Add(a, b);
    assert x * Pow2(a) * Pow2(b) == x * (Pow2(a) * Pow2(b));
  }

  lemma Cancel(x: nat, y: nat, p: nat)
    requires p >= 1 && x * p <= y * p
    ensures x <= y
  {
    if x > y {
      MulMonotone(y + 1, x, p);
      MulSucc(y, p);
    }
  }

  /** The Kraft sum of a prefix grows with the prefix. */
  lemma {:induction false} KraftPrefixMonotone(book: seq<Entry>, i: nat, j: nat, h: nat)
    requires i <= j <= |book|
    ensures KraftSum(book[..i], h) <= KraftSum(book[..j], h)
    decreases j - i
  {
    if i < j {
      KraftPrefixMonotone(book, i, j - 1, h);
      assert book[..j][..j - 1] == book[..j - 1];
    }
  }

  /** The last step of the canonical construction on a codebook of two or
      more entries: the new code has the wanted length, and its value, scaled
      to depth `h`, is the Kraft sum of the entries before it. */
  lemma FixedLast(book: seq<Entry>, h: nat)
    requires |book| >= 2 && |book[|book| - 2].code| <= |book[|book| - 1].code| <= h
    requires KraftSum(book, h) <= Pow2(h)
    requires FixedAt(book[..|book| - 1], h, |book| - 2)
    ensures FixedAt(book, h, |book| - 1)
    ensures Successor(RewriteFixed(book[..|book| - 1])[|book| - 2].code, |book[|book| - 1].code|)
      < Pow2(|book[|book| - 1].code|)
  {
    var n := |book|;
    var front := book[..n - 1];
    var prev := RewriteFixed(front)[n - 2].code;
    var lp, l := |book[n - 2].code|, |book[n - 1].code|;
    var before := KraftSum(book[..n - 2], h);
    assert |prev| == lp && Value(prev) * Pow2(h - lp) == before by {
      assert FixedAt(front, h, n - 2);
      assert front[..n - 2] == book[..n - 2] && front[n - 2] == book[n - 2];
    }
    KraftSnoc(book, n - 2, h);
    KraftLast(book, h);
    NextFixedFits(prev, l, h, before, KraftSum(book, h));
    RewriteStep(book, NextFixed);
    var last := RewriteFixed(book)[n - 1].code;
    assert last == NextFixed(prev, l);
    assert KraftSum(book[..n - 1], h) == before + Pow2(h - lp);
    assert |last| == l && Value(last) * Pow2(h - l) == KraftSum(book[..n - 1], h);
  }

  /** The Kraft sum of a prefix, one entry longer. */
  lemma KraftSnoc(book: seq<Entry>, i: nat, h: nat)
    requires i < |book|
    ensures KraftSum(book[..i + 1], h) == KraftSum(book[..i], h) + Scaled(h, |book[i].code|)
  {
    assert book[..i + 1] == book[..i] + [book[i]];
    KraftSumAppend(book[..i], [book[i]], h);
    SumBySingle(book[i], (e: Entry) => Scaled(h, |e.code|));
  }

  lemma KraftLast(book: seq<Entry>, h: nat)
    requires |book| >= 1
    ensures KraftSum(book, h) == KraftSum(book[..|book| - 1], h) + Scaled(h, |book[|book| - 1].code|)
  {
    KraftSnoc(book, |book| - 1, h);
    assert book[..|book|] == book;
  }

  /** The canonical successor of a code of length `lp` whose value, scaled to
      depth `h`, is `before` has length `l`, and its value scales to `before`
      plus the earlier code's share, when the Kraft sum `all` of a codebook
      holding both fits. */
  lemma NextFixedFits(prev: seq<bool>, l: nat, h: nat, before: nat, all: nat)
    requires |prev| <= l <= h
    requires Value(prev) * Pow2(h - |prev|) == before
    requires all == before + Pow2(h - |prev|) + Pow2(h - l) && all <= Pow2(h)
    ensures |NextFixed(prev, l)| == l
    ensures Value(NextFixed(prev, l)) * Pow2(h - l) == before + Pow2(h - |prev|)
    ensures Successor(prev, l) < Pow2(l)
  {
    var v := Successor(prev, l);
    NextFits(Value(prev), |prev|, l, h, before, all);
    assert v == (Value(prev) + 1) * Pow2(l - |prev|);
    FormatBinaryFits(v, l);
  }

  /** The arithmetic of one canonical step: the successor of a code of
      length `lp` whose value, scaled to depth `h`, is `before`, shifted to
      length `l`, scales to `before` plus the earlier code's share, and fits
      `l` bits when the Kraft sum `all` of the whole codebook fits. */
  lemma NextFits(x: nat, lp: nat, l: nat, h: nat, before: nat, all: nat)
    requires lp <= l <= h
    requires x * Pow2(h - lp) == before
    requires all == before + Pow2(h - lp) + Pow2(h - l) && all <= Pow2(h)
    ensures (x + 1) * Pow2(l - lp) * Pow2(h - l) == before + Pow2(h - lp)
    ensures 1 <= (x + 1) * Pow2(l - lp) < Pow2(l)
    ensures 1 <= l
  {
    var p, q, r := Pow2(h - lp), Pow2(h - l), Pow2(l - lp);
    var v := (x + 1) * r;
    PowerScale(x + 1, l - lp, h - l);
    assert l - lp + (h - l) == h - lp;
    MulSucc(x, p);
    assert v * q == before + p;
    MulSucc(v, q);
    assert all == (v + 1) * q;
    Pow2Add(l, h - l);
    assert l + (h - l) == h;
    Cancel(v + 1, Pow2(l), q);
    MulMonotone(1, x + 1, r);
  }

  /** The canonical construction keeps every code length, and each code's
      value, scaled to depth `h`, is the Kraft sum of the codes before it —
      provided the lengths are sorted and satisfy Kraft's inequality. */
  lemma {:induction false} FixedValues(book: seq<Entry>, h: nat)
    requires LengthSorted(book) && Within(book, h) && KraftSum(book, h) <= Pow2(h)
    ensures forall i :: 0 <= i < |book| ==> FixedAt(book, h, i)
  {
    var n := |book|;
    if n == 1 {
      ValueZeros(|book[0].code|);
      assert book[..0] == [];
    } else if n >= 2 {
      var front := book[..n - 1];
      assert KraftSum(front, h) <= Pow2(h) by {
        KraftPrefixMonotone(book, n - 1, n, h);
        assert book[..n] == book;
      }
      FixedValues(front, h);
      FixedLast(book, h);
      FixedAtFronts(book, front, h);
      forall i | 0 <= i < n
        ensures FixedAt(book, h, i)
      {
        if i < n - 1 {
          assert FixedAt(book, h, i);
        }
      }
    }
  }

  /** The canonical code of entry `i` keeps its length, and its value,
      scaled to depth `h`, is the Kraft sum of the entries before it. */
  predicate FixedAt(book: seq<Entry>, h: nat, i: nat)
    requires i < |book|
  {
    |RewriteFixed(book)[i].code| == |book[i].code| <= h &&
    Value(RewriteFixed(book)[i].code) * Pow2(h - |book[i].code|) == KraftSum(book[..i], h)
  }

  lemma FixedAtFronts(book: seq<Entry>, front: seq<Entry>, h: nat)
    requires |book| >= 1 && front == book[..|book| - 1]
    requires forall i :: 0 <= i < |front| ==> FixedAt(front, h, i)
    ensures forall i :: 0 <= i < |book| - 1 ==> FixedAt(book, h, i)
  {
    forall i | 0 <= i < |book| - 1
      ensures FixedAt(book, h, i)
    {
      FixedAtFront(book, h, i);
    }
  }

  lemma FixedAtFront(book: seq<Entry>, h: nat, i: nat)
    requires i + 1 < |book|
    requires FixedAt(book[..|book| - 1], h, i)
    ensures FixedAt(book, h, i)
  {
    var front := book[..|book| - 1];
    RewriteStep(book, NextFixed);
    assert RewriteFixed(book)[i] == RewriteFixed(front)[i] && front[i] == book[i];
    assert front[..i] == book[..i];
  }

  /** A code of an earlier entry is never a prefix of a later entry's code:
      the later code's value lies past the whole range the earlier code covers. */
  lemma FixedApart(book: seq<Entry>, h: nat, i: nat, j: nat)
    requires LengthSorted(book) && Within(book, h) && KraftSum(book, h) <= Pow2(h)
    requires i < j < |book|
    ensures !IsPrefix(RewriteFixed(book)[i].code, RewriteFixed(book)[j].code)
  {
    FixedValues(book, h);
    assert FixedAt(book, h, i) && FixedAt(book, h, j);
    var r := RewriteFixed(book);
    KraftGap(book, h, i, j);
    CodesApart(r[i].code, r[j].code, h);
  }

  /** The entries from `i` up to `j` add at least entry `i`'s share. */
  lemma KraftGap(book: seq<Entry>, h: nat, i: nat, j: nat)
    requires i < j <= |book| && |book[i].code| <= h
    ensures KraftSum(book[..i], h) + Pow2(h - |book[i].code|) <= KraftSum(book[..j], h)
  {
    KraftSnoc(book, i, h);
    KraftPrefixMonotone(book, i + 1, j, h);
  }

  /** A code whose successor, scaled to depth `h`, does not pass a later
      code's scaled value is not a prefix of that code. */
  lemma CodesApart(x: seq<bool>, y: seq<bool>, h: nat)
    requires |x| <= |y| <= h
    requires Value(x) * Pow2(h - |x|) + Pow2(h - |x|) <= Value(y) * Pow2(h - |y|)
    ensures !IsPrefix(x, y)
  {
    Apart(Value(x), Value(y), |x|, |y|, h);
    PrefixBound(x, y);
  }

  /** A code's successor, scaled to depth `h`, lies at or below a later code's
      value scaled the same way: then the later code's value is at least the
      successor shifted to its length. */
  lemma Apart(vx: nat, vy: nat, lx: nat, ly: nat, h: nat)
    requires lx <= ly <= h
    requires vx * Pow2(h - lx) + Pow2(h - lx) <= vy * Pow2(h - ly)
    ensures (vx + 1) * Pow2(ly - lx) <= vy
  {
    PowerScale(vx + 1, ly - lx, h - ly);
    assert ly - lx + (h - ly) == h - lx;
    MulSucc(vx, Pow2(h - lx));
    Cancel((vx + 1) * Pow2(ly - lx), vy, Pow2(h - ly));
  }

  /** A prefix's value bounds the value of every extension of it. */
  lemma PrefixBound(a: seq<bool>, b: seq<bool>)
    ensures IsPrefix(a, b) ==> |a| <= |b| && Value(b) < (Value(a) + 1) * Pow2(|b| - |a|)
  {
    if IsPrefix(a, b) {
      PrefixValue(a, b);
    }
  }

  /** A code is a prefix of one no longer than itself only when they are equal. */
  lemma SameLengthPrefix(a: seq<bool>, b: seq<bool>)
    requires |b| <= |a|
    ensures IsPrefix(a, b) ==> a == b && IsPrefix(b, a)
  {
  }

  /** The canonical construction makes a prefix-free code, keeping every
      length, out of any sorted lengths that satisfy Kraft's inequality. */
  lemma FixedPrefixFree(book: seq<Entry>, h: nat)
    requires LengthSorted(book) && Within(book, h) && KraftSum(book, h) <= Pow2(h)
    ensures PrefixFree(RewriteFixed(book))
    ensures forall i :: 0 <= i < |book| ==> |RewriteFixed(book)[i].code| == |book[i].code|
  {
    var r := RewriteFixed(book);
    forall i, j | 0 <= i < |r| && 0 <= j < |r| && i != j
      ensures !IsPrefix(r[i].code, r[j].code)
    {
      if i < j {
        FixedApart(book, h, i, j);
      } else {
        FixedApart(book, h, j, i);
        FixedLengths(book, h, j, i);
        SameLengthPrefix(r[i].code, r[j].code);
      }
    }
    forall i | 0 <= i < |book|
      ensures |r[i].code| == |book[i].code|
    {
      FixedLengths(book, h, i, i);
    }
  }

  /** The canonical construction keeps the lengths, so they stay sorted. */
  lemma FixedLengths(book: seq<Entry>, h: nat, i: nat, j: nat)
    requires LengthSorted(book) && Within(book, h) && KraftSum(book, h) <= Pow2(h)
    requires i <= j < |book|
    ensures |RewriteFixed(book)[i].code| == |book[i].code| <= |book[j].code| == |RewriteFixed(book)[j].code|
  {
    FixedValues(book, h);
    assert FixedAt(book, h, i) && FixedAt(book, h, j);
  }

  /** Two tables listed by codebooks with the same elements have the same
      multiset of entries once each byte occurs once. */
  lemma SameMultiset(a: seq<Entry>, b: seq<Entry>)
    requires DistinctBytes(a) && DistinctBytes(b)
    requires forall e :: e in a <==> e in b
    ensures multiset(a) == multiset(b)
  {
    forall e
      ensures multiset(a)[e] == multiset(b)[e]
    {
      DistinctOnce(a, e);
      DistinctOnce(b, e);
      assert e in a <==> e in multiset(a);
      assert e in b <==> e in multiset(b);
    }
  }

  /** Two codebooks that list one table, each byte once, hold the same entries. */
  lemma CommonListing(a: seq<Entry>, b: seq<Entry>, codes: CodeTable)
    requires Lists(a, codes) && Lists(b, codes) && DistinctBytes(a) && DistinctBytes(b)
    ensures multiset(a) == multiset(b)
  {
    SameMultiset(a, b);
  }

  /** A tree's leaf codes, in leaf order, list the table `buildCodes` makes,
      each byte once and none longer than the tree is high. */
  lemma TreeListing(t: Tree, codes: CodeTable)
    requires DistinctChars(Leaves(t)) && codes == BuildCodes(t, [], map[])
    ensures Lists(Codewords(t, []), codes) && DistinctBytes(Codewords(t, []))
    ensures Within(Codewords(t, []), Height(t))
  {
    var w := Codewords(t, []);
    BuildCodesInto(t, [], map[]);
    CodewordsDistinct(t, []);
    ToTableLists(w);
    CodewordsShape(t, []);
  }

  /** A sorted listing of a tree's raw codes meets the conditions of the
      canonical construction: its lengths are sorted, at most the tree's
      height, and fill the code space exactly. */
  lemma TreeCodebook(t: Tree, codes: CodeTable, book: seq<Entry>)
    requires DistinctChars(Leaves(t)) && codes == BuildCodes(t, [], map[])
    requires StrictlySorted(book) && Lists(book, codes)
    ensures LengthSorted(book) && Within(book, Height(t))
    ensures KraftSum(book, Height(t)) == Pow2(Height(t))
  {
    var root: seq<bool> := [];
    var w := Codewords(t, root);
    var h := Height(t);
    TreeListing(t, codes);
    SortedDistinct(book, codes);
    SortedByLength(book);
    CommonListing(book, w, codes);
    KraftSumPermutation(book, w, h);
    TreeKraft(t, root, h);
    assert KraftSum(w, h) == Pow2(h) by {
      assert h - |root| == h;
    }
    WithinPermutation(book, w, h);
  }

  /** Reordering a codebook keeps its codes within depth `h`. */
  lemma WithinPermutation(a: seq<Entry>, b: seq<Entry>, h: nat)
    requires multiset(a) == multiset(b) && Within(b, h)
    ensures Within(a, h)
  {
    forall i | 0 <= i < |a|
      ensures |a[i].code| <= h
    {
      assert a[i] in multiset(b);
      var k :| 0 <= k < |b| && b[k] == a[i];
    }
  }

  /** The canonical construction applied to a Huffman tree's codes gives a
      prefix-free code with the tree's code lengths. */
  lemma FixedTreePrefixFree(t: Tree, codes: CodeTable)
    requires DistinctChars(Leaves(t)) && codes == BuildCodes(t, [], map[])
    ensures PrefixFree(RewriteFixed(SortedCodebook(codes)))
  {
    SortedCodebookSpec(codes);
    TreeCodebook(t, codes, SortedCodebook(codes));
    FixedPrefixFree(SortedCodebook(codes), Height(t));
  }

  /** One as-written step equals the canonical step when the length grows by
      at most one bit, the previous code is below the int8 limit, and the
      canonical code fits its length. */
  lemma NextAgrees(prev: seq<bool>, len: nat)
    requires len == |prev| || len == |prev| + 1
    requires Value(prev) < 128
    requires Successor(prev, len) < Pow2(len)
    ensures NextCode(prev, len) == NextFixed(prev, len)
  {
    var v := Value(prev);
    assert ParseInt8(prev) == v;
    if len == |prev| + 1 {
      assert Pow2(1) == 2;
      assert Successor(prev, len) == (v + 1) * 2;
      assert Pow2(len) == 2 * Pow2(|prev|);
      var s := FormatBinary(v + 1, |prev|);
      FormatBinaryFits(v + 1, |prev|);
      ValueAppend(s, [false]);
      assert Value([false]) == 0;
      FormatBinaryOfValue(s + [false]);
      assert NextCode(prev, len) == s + [false];
    } else {
      assert Successor(prev, len) == v + 1;
    }
  }

  /** Steps of at most one bit between consecutive lengths. */
  predicate SmallSteps(book: seq<Entry>)
  {
    forall i :: 1 <= i < |book| ==> |book[i].code| <= |book[i - 1].code| + 1
  }

  /** Codes of at most 7 bits, except possibly the last. */
  predicate ShortCodes(book: seq<Entry>)
  {
    forall i :: 0 <= i < |book| - 1 ==> |book[i].code| <= 7
  }

  /** huffman.go's rewrite is the canonical construction whenever consecutive
      lengths grow by at most one bit and every code before the last is at
      most 7 bits long, so that the int8 parse never saturates. */
  lemma {:induction false} RewriteAgrees(book: seq<Entry>, h: nat)
    requires LengthSorted(book) && Within(book, h) && KraftSum(book, h) <= Pow2(h)
    requires SmallSteps(book) && ShortCodes(book)
    ensures Rewrite(book) == RewriteFixed(book)
  {
    var n := |book|;
    if n >= 2 {
      var front := book[..n - 1];
      KraftLast(book, h);
      FrontKeeps(book, front);
      RewriteAgrees(front, h);
      FixedValues(front, h);
      assert FixedAt(front, h, n - 2);
      FixedLast(book, h);
      var prev := RewriteFixed(front)[n - 2].code;
      var lp, l := |book[n - 2].code|, |book[n - 1].code|;
      assert |prev| == lp <= 7 by {
        assert front[n - 2] == book[n - 2];
      }
      ValueBound(prev);
      Pow2Monotone(lp, 7);
      assert Pow2(7) == 128;
      NextAgrees(prev, l);
      RewriteStep(book, NextCode);
      RewriteStep(book, NextFixed);
    }
  }

  /** Dropping the last entry keeps the conditions of `RewriteAgrees`. */
  lemma FrontKeeps(book: seq<Entry>, front: seq<Entry>)
    requires |book| >= 1 && front == book[..|book| - 1]
    ensures LengthSorted(book) ==> LengthSorted(front)
    ensures forall h: nat :: Within(book, h) ==> Within(front, h)
    ensures SmallSteps(book) ==> SmallSteps(front)
    ensures ShortCodes(book) ==> ShortCodes(front)
  {
  }

  /** A table whose raw codes come from a tree with distinct symbols, and whose
      sorted lengths grow by at most one bit with all but the last code at
      most 7 bits long, canonicalises to a prefix-free table with the same
      code lengths. */
  lemma CanonicalTree(t: Tree, codes: CodeTable)
    requires DistinctChars(Leaves(t)) && codes == BuildCodes(t, [], map[])
    requires SmallSteps(SortedCodebook(codes)) && ShortCodes(SortedCodebook(codes))
    ensures PrefixFreeTable(CanonicalMap(codes))
    ensures CanonicalMap(codes).Keys == codes.Keys
    ensures forall b :: b in codes ==> |CanonicalMap(codes)[b]| == |codes[b]|
  {
    var book := SortedCodebook(codes);
    SortedCodebookSpec(codes);
    TreeCodebook(t, codes, book);
    RewriteAgrees(book, Height(t));
    FixedPrefixFree(book, Height(t));
    CanonicalKeys(codes);
    var r := Rewrite(book);
    var canon := CanonicalMap(codes);
    ListedPrefixFree(r, canon);
    ListedLengths(codes, book, canon);
  }

  /** When the rewrite of a listing of `codes` keeps every length, the table
      it lists gives every byte a code as long as its code in `codes`. */
  lemma ListedLengths(codes: CodeTable, book: seq<Entry>, canon: CodeTable)
    requires Lists(book, codes) && Lists(Rewrite(book), canon)
    requires forall i :: 0 <= i < |book| ==> |Rewrite(book)[i].code| == |book[i].code|
    ensures forall b :: b in codes ==> b in canon && |canon[b]| == |codes[b]|
  {
    var r := Rewrite(book);
    RewriteBytes(book, NextCode);
    forall b | b in codes
      ensures b in canon && |canon[b]| == |codes[b]|
    {
      assert Entry(b, codes[b]) in book;
      var i :| 0 <= i < |book| && book[i] == Entry(b, codes[b]);
      assert r[i] in r && r[i].b == b;
    }
  }

  /** Sorted lengths 1, 3, 3, 3, 3 (the raw codes of "aaaaabcd" with its
      sentinel) skip length 2, and huffman.go appends a single 0 for the
      skip: the codes come out as 0, 10, 110, 111, 1000, where 10 is a prefix
      of 1000 and the last code has grown by a bit. */
  lemma SkippedLength(book: seq<Entry>)
    requires |book| == 5
    requires |book[0].code| == 1 && |book[1].code| == 3 && |book[2].code| == 3
    requires |book[3].code| == 3 && |book[4].code| == 3
    ensures Rewrite(book)[1].code == [true, false]
    ensures Rewrite(book)[4].code == [true, false, false, false]
    ensures IsPrefix(Rewrite(book)[1].code, Rewrite(book)[4].code)
  {
    var c := [[false], [true, false], [true, true, false], [true, true, true], [true, false, false, false]];
    forall i | 1 <= i < 5
      ensures c[i] == NextCode(c[i - 1], |book[i].code|)
    {
      if i == 1 {
        IncrementIs(c[0], [true]);
      } else if i == 2 {
        Value2(true, false);
        IncrementIs(c[1], [true, true]);
      } else if i == 3 {
        Value3(true, true, false);
        IncrementIs(c[2], c[3]);
      } else {
        Value3(true, true, true);
        IncrementIs(c[3], c[4]);
      }
    }
    assert Zeros(1) == c[0];
    RewriteCodes(book, c, NextCode);
    assert c[4][..2] == c[1];
  }

  /** The rewrite of a codebook gives the codes `codes` when its first is
      zeros of the first length and each later one is `next` of the one
      before. */
  lemma {:induction false} RewriteCodes(book: seq<Entry>, codes: seq<seq<bool>>, next: (seq<bool>, nat) -> seq<bool>)
    requires |codes| == |book| >= 1 && codes[0] == Zeros(|book[0].code|)
    requires forall i :: 1 <= i < |book| ==> codes[i] == next(codes[i - 1], |book[i].code|)
    ensures forall i :: 0 <= i < |book| ==> RewriteWith(book, next)[i].code == codes[i]
  {
    var n := |book|;
    if n >= 2 {
      RewriteCodes(book[..n - 1], codes[..n - 1], next);
      RewriteStep(book, next);
    }
  }

  /** The values of two- and three-bit codes. */
  lemma Value2(x: bool, y: bool)
    ensures Value([x, y]) == 2 * (if x then 1 else 0) + (if y then 1 else 0)
  {
    assert [x][..0] == [];
    assert Value([x]) == if x then 1 else 0;
    assert [x, y][..1] == [x];
  }

  lemma Value3(x: bool, y: bool, z: bool)
    ensures Value([x, y, z]) == 4 * (if x then 1 else 0) + 2 * (if y then 1 else 0) + (if z then 1 else 0)
  {
    Value2(x, y);
    assert [x, y, z][..2] == [x, y];
  }

  /** The increment of a code below the int8 limit, from the digits of its
      value plus one. */
  lemma IncrementIs(prev: seq<bool>, digits: seq<bool>)
    requires Value(prev) < 128 && Binary(Value(prev) + 1) == digits && |digits| >= |prev|
    ensures Increment(prev) == digits
  {
    assert ParseInt8(prev) + 1 == Value(prev) + 1;
    FormatBinaryWide(Value(prev) + 1, |prev|);
  }

  /** With the lengths 1, 3, 3, 3, 3 the canonical construction gives
      0, 100, 101, 110, 111. */
  lemma SkippedLengthFixed(book: seq<Entry>)
    requires |book| == 5
    requires |book[0].code| == 1 && |book[1].code| == 3 && |book[2].code| == 3
    requires |book[3].code| == 3 && |book[4].code| == 3
    ensures PrefixFree(RewriteFixed(book))
    ensures RewriteFixed(book)[1].code == [true, false, false]
  {
    var s := (e: Entry) => Scaled(3, |e.code|);
    assert book == [book[0]] + [book[1]] + [book[2]] + [book[3]] + [book[4]];
    SumByAppend([book[0]] + [book[1]] + [book[2]] + [book[3]], [book[4]], s);
    SumByAppend([book[0]] + [book[1]] + [book[2]], [book[3]], s);
    SumByAppend([book[0]] + [book[1]], [book[2]], s);
    SumByAppend([book[0]], [book[1]], s);
    SumBySingle(book[0], s);
    SumBySingle(book[1], s);
    SumBySingle(book[2], s);
    SumBySingle(book[3], s);
    SumBySingle(book[4], s);
    assert Pow2(3) == 8 && Pow2(2) == 4;
    FixedPrefixFree(book, 3);
    FixedValues(book, 3);
    assert FixedAt(book, 3, 1);
    assert book[..1] == [book[0]];
    assert Pow2(0) == 1;
    Value3(true, false, false);
    ValueInjective(RewriteFixed(book)[1].code, [true, false, false]);
  }

  /** `n` one bits. */
  function Ones(n: nat): (r: seq<bool>)
    ensures |r| == n
  {
    seq(n, _ => true)
  }

  lemma {:induction false} ValueOnes(n: nat)
    ensures Value(Ones(n)) + 1 == Pow2(n)
  {
    if n > 0 {
      assert Ones(n)[..n - 1] == Ones(n - 1);
      ValueOnes(n - 1);
    }
  }

  /** On the staircase of lengths 1, 2, ..., the code of length k + 1 is k
      ones and a zero, up to length 8. */
  lemma StairStep(k: nat)
    requires 1 <= k <= 7
    ensures NextCode(Ones(k - 1) + [false], k + 1) == Ones(k) + [false]
  {
    var prev := Ones(k - 1) + [false];
    ValueAppend(Ones(k - 1), [false]);
    assert Value([false]) == 0;
    ValueOnes(k - 1);
    ValueOnes(k);
    Pow2Monotone(k, 7);
    assert Pow2(7) == 128;
    assert Value(prev) + 1 == Value(Ones(k));
    FormatBinaryOfValue(Ones(k));
  }

  lemma {:induction false} Staircase(book: seq<Entry>)
    requires 1 <= |book| <= 8
    requires forall i :: 0 <= i < |book| ==> |book[i].code| == i + 1
    ensures forall i :: 0 <= i < |book| ==> Rewrite(book)[i].code == Ones(i) + [false]
  {
    var n := |book|;
    if n >= 2 {
      var front := book[..n - 1];
      Staircase(front);
      assert Rewrite(book) == Rewrite(front) + [Rewrite(book)[n - 1]];
      StairStep(n - 1);
    } else {
      assert Zeros(1) == Ones(0) + [false];
    }
  }

  /** Sorted lengths 1, 2, 3, 4, 5, 6, 7, 8, 8: the eighth code is 11111110,
      whose value 254 parses as 127, so the ninth code comes out as 10000000,
      which has the second code, 10, as a prefix. */
  lemma SaturatedParse(book: seq<Entry>)
    requires |book| == 9
    requires forall i :: 0 <= i < 8 ==> |book[i].code| == i + 1
    requires |book[8].code| == 8
    ensures Rewrite(book)[7].code == Ones(7) + [false]
    ensures Rewrite(book)[8].code == [true] + Zeros(7)
    ensures IsPrefix(Rewrite(book)[1].code, Rewrite(book)[8].code)
  {
    var front := book[..8];
    Staircase(front);
    RewriteStep(book, NextCode);
    SaturatedStep();
    assert Ones(1) + [false] == [true, false];
    assert ([true] + Zeros(7))[..2] == [true, false];
  }

  /** After 11111110 the int8 parse saturates at 127, so the next code of
      the same length is 10000000. */
  lemma SaturatedStep()
    ensures NextCode(Ones(7) + [false], 8) == [true] + Zeros(7)
  {
    var prev := Ones(7) + [false];
    ValueAppend(Ones(7), [false]);
    assert Value([false]) == 0;
    ValueOnes(7);
    assert Pow2(7) == 128;
    assert ParseInt8(prev) == 127;
    var c := [true] + Zeros(7);
    ValueAppend([true], Zeros(7));
    ValueZeros(7);
    assert Value([true]) == 1;
    FormatBinaryOfValue(c);
  }

  /** With the same lengths the canonical construction gives the ninth code
      11111111, the all-ones code that completes the code space. */
  lemma SaturatedParseFixed(book: seq<Entry>)
    requires |book| == 9
    requires forall i :: 0 <= i < 8 ==> |book[i].code| == i + 1
    requires |book[8].code| == 8
    ensures RewriteFixed(book)[8].code == Ones(8)
  {
    var front := book[..8];
    Staircase(front);
    assert RewriteFixed(book) == RewriteFixed(front) + [RewriteFixed(book)[8]];
    StairAgrees(front);
    var prev := Ones(7) + [false];
    ValueAppend(Ones(7), [false]);
    assert Value([false]) == 0;
    ValueOnes(7);
    ValueOnes(8);
    assert Pow2(8) == 256 && Pow2(7) == 128;
    FormatBinaryOfValue(Ones(8));
  }

  /** Below length 8 the staircase is built the same way by both rewrites. */
  lemma {:induction false} StairAgrees(book: seq<Entry>)
    requires 1 <= |book| <= 8
    requires forall i :: 0 <= i < |book| ==> |book[i].code| == i + 1
    ensures RewriteFixed(book) == Rewrite(book)
  {
    var n := |book|;
    if n >= 2 {
      var front := book[..n - 1];
      StairAgrees(front);
      Staircase(front);
      var prev := Ones(n - 2) + [false];
      ValueAppend(Ones(n - 2), [false]);
      assert Value([false]) == 0;
      ValueOnes(n - 2);
      ValueOnes(n - 1);
      Pow2Monotone(n - 1, 7);
      assert Pow2(7) == 128;
      assert Pow2(n) == 2 * Pow2(n - 1);
      NextAgrees(prev, n);
    }
  }
}
