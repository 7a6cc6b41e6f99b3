/** The codebook of huffman.go: `codebookEntry` and `sortCodes`
    (huffman.go:79-114), which lists a code table and orders it by code
    length, then by byte; and the loop that turns a codebook back into a
    table (huffman.go:145-148). main.go:83-118 is the same code. */
module Codebook {
  import opened Bits
  import opened Util

  /** A code table: the code of each byte that has one. */
  type CodeTable = map<Byte, seq<bool>>

  datatype Entry = Entry(b: Byte, code: seq<bool>)

  /** The order `sortCodes` sorts by: code length first, then the byte. */
  function Key(e: Entry): nat
  {
    |e.code| * 256 + e.b
  }

  lemma KeyOrder(x: Entry, y: Entry)
    ensures Key(x) < Key(y) <==> |x.code| < |y.code| || (|x.code| == |y.code| && x.b < y.b)
    ensures Key(x) == Key(y) <==> |x.code| == |y.code| && x.b == y.b
  {
    if |x.code| < |y.code| {
      MulMonotoneStrict(|x.code|, |y.code|);
    } else if |x.code| > |y.code| {
      MulMonotoneStrict(|y.code|, |x.code|);
    }
  }

  lemma MulMonotoneStrict(p: nat, q: nat)
    requires p < q
    ensures p * 256 + 256 <= q * 256
  {
  }

  predicate StrictlySorted(book: seq<Entry>)
  {
    forall i, j :: 0 <= i < j < |book| ==> Key(book[i]) < Key(book[j])
  }

  /** `book` lists exactly the entries of `codes`. */
  ghost predicate Lists(book: seq<Entry>, codes: CodeTable)
  {
    forall e :: e in book <==> e.b in codes && codes[e.b] == e.code
  }

  /** No byte occurs twice in a codebook. */
  predicate DistinctBytes(book: seq<Entry>)
  {
    forall i, j :: 0 <= i < j < |book| ==> book[i].b != book[j].b
  }

  /** The entries of `codes` for the bytes `b` and up, in byte order. */
  function EntriesFrom(codes: CodeTable, b: nat): seq<Entry>
    decreases 256 - b
  {
    if b >= 256 then []
    else
      var here := if b in codes then [Entry(b, codes[b])] else [];
      here + EntriesFrom(codes, b + 1)
  }

  /** The listing holds exactly the table's entries from byte `b` on, in
      ascending byte order. */
  lemma {:induction false} EntriesFromSpec(codes: CodeTable, b: nat)
    ensures forall e :: e in EntriesFrom(codes, b) <==> b <= e.b && e.b in codes && codes[e.b] == e.code
    ensures forall i, j :: 0 <= i < j < |EntriesFrom(codes, b)| ==> EntriesFrom(codes, b)[i].b < EntriesFrom(codes, b)[j].b
    decreases 256 - b
  {
    if b < 256 {
      EntriesFromSpec(codes, b + 1);
      var rest := EntriesFrom(codes, b + 1);
      var r := EntriesFrom(codes, b);
      if b in codes {
        assert r == [Entry(b, codes[b])] + rest;
        forall i, j | 0 <= i < j < |r|
          ensures r[i].b < r[j].b
        {
          assert r[j] == rest[j - 1] && rest[j - 1] in rest;
          if i > 0 {
            assert r[i] == rest[i - 1];
          }
        }
      } else {
        assert r == rest;
      }
    }
  }

  /** Insertion of one entry into a list sorted by key. */
  function InsertByKey(e: Entry, book: seq<Entry>): seq<Entry>
  {
    if book == [] || Key(e) < Key(book[0]) then [e] + book
    else [book[0]] + InsertByKey(e, book[1..])
  }

  /** Insertion sort by key. */
  function SortByKey(book: seq<Entry>): seq<Entry>
  {
    if book == [] then [] else InsertByKey(book[0], SortByKey(book[1..]))
  }

  lemma {:induction false} InsertByKeyMultiset(e: Entry, book: seq<Entry>)
    ensures multiset(InsertByKey(e, book)) == multiset(book) + multiset{e}
  {
    if book != [] && Key(e) >= Key(book[0]) {
      assert book == [book[0]] + book[1..];
      InsertByKeyMultiset(e, book[1..]);
    }
  }

  /** Sorting only reorders. */
  lemma {:induction false} SortByKeyMultiset(book: seq<Entry>)
    ensures multiset(SortByKey(book)) == multiset(book)
  {
    if book != [] {
      assert book == [book[0]] + book[1..];
      SortByKeyMultiset(book[1..]);
      InsertByKeyMultiset(book[0], SortByKey(book[1..]));
    }
  }

  /** The codebook `sortCodes` returns for a table, as a function. */
  function SortedCodebook(codes: CodeTable): seq<Entry>
  {
    SortByKey(EntriesFrom(codes, 0))
  }

  lemma {:induction false} InsertByKeySorted(e: Entry, book: seq<Entry>)
    requires StrictlySorted(book)
    requires forall x :: x in book ==> Key(x) != Key(e)
    ensures StrictlySorted(InsertByKey(e, book))
  {
    if book != [] && Key(e) >= Key(book[0]) {
      var tail := book[1..];
      assert forall x :: x in tail ==> x in book;
      InsertByKeySorted(e, tail);
      var t := InsertByKey(e, tail);
      InsertByKeyMultiset(e, tail);
      assert InsertByKey(e, book) == [book[0]] + t;
      assert book[0] in book;
      forall j | 0 <= j < |t|
        ensures Key(book[0]) < Key(t[j])
      {
        assert t[j] in multiset(t);
        if t[j] != e {
          assert t[j] in multiset(tail);
          var k :| 0 <= k < |tail| && tail[k] == t[j];
          assert book[k + 1] == t[j];
        }
      }
      ConsSorted(book[0], t);
    }
  }

  /** An entry below every key of a sorted codebook heads it, sorted. */
  lemma ConsSorted(x: Entry, book: seq<Entry>)
    requires StrictlySorted(book)
    requires forall j :: 0 <= j < |book| ==> Key(x) < Key(book[j])
    ensures StrictlySorted([x] + book)
  {
    var r := [x] + book;
    forall i, j | 0 <= i < j < |r|
      ensures Key(r[i]) < Key(r[j])
    {
      assert r[j] == book[j - 1];
      if i > 0 {
        assert r[i] == book[i - 1];
      }
    }
  }


  lemma {:induction false} SortByKeySorted(book: seq<Entry>)
    requires DistinctBytes(book)
    ensures StrictlySorted(SortByKey(book))
  {
    if book != [] {
      var tail := book[1..];
      assert DistinctBytes(tail) by {
        forall i, j | 0 <= i < j < |tail|
          ensures tail[i].b != tail[j].b
        {
          assert tail[i] == book[i + 1] && tail[j] == book[j + 1];
        }
      }
      SortByKeySorted(tail);
      SortByKeyMultiset(tail);
      forall x | x in SortByKey(tail)
        ensures Key(x) != Key(book[0])
      {
        assert x in multiset(SortByKey(tail));
        var k :| 0 <= k < |tail| && tail[k] == x;
        assert book[k + 1] == x;
        KeyOrder(x, book[0]);
      }
      InsertByKeySorted(book[0], SortByKey(tail));
    }
  }

  /** The codebook of a table lists the table, each byte once, strictly
      ascending by (code length, byte). */
  lemma SortedCodebookSpec(codes: CodeTable)
    ensures StrictlySorted(SortedCodebook(codes))
    ensures Lists(SortedCodebook(codes), codes)
    ensures DistinctBytes(SortedCodebook(codes))
    ensures |SortedCodebook(codes)| == |codes|
  {
    var entries := EntriesFrom(codes, 0);
    EntriesFromSpec(codes, 0);
    assert DistinctBytes(entries);
    SortByKeySorted(entries);
    var book := SortedCodebook(codes);
    SortByKeyMultiset(entries);
    SameElements(book, entries);
    SortedDistinct(book, codes);
    CountOfListing(book, codes);
  }

  lemma SameElements(a: seq<Entry>, b: seq<Entry>)
    requires multiset(a) == multiset(b)
    ensures forall e :: e in a <==> e in b
  {
    forall e
      ensures e in a <==> e in b
    {
      assert e in a <==> e in multiset(a);
      assert e in b <==> e in multiset(b);
    }
  }

  /** In a strictly sorted codebook that lists a table, no byte occurs twice. */
  lemma SortedDistinct(book: seq<Entry>, codes: CodeTable)
    requires StrictlySorted(book) && Lists(book, codes)
    ensures DistinctBytes(book)
  {
    forall i, j | 0 <= i < j < |book|
      ensures book[i].b != book[j].b
    {
      assert book[i] in book && book[j] in book;
      assert book[i].code == codes[book[i].b] && book[j].code == codes[book[j].b];
      KeyOrder(book[i], book[j]);
    }
  }

  lemma ListedKeys(book: seq<Entry>, codes: CodeTable)
    requires Lists(book, codes)
    ensures forall k :: k in codes ==> Entry(k, codes[k]) in book
  {
  }

  /** A codebook that lists a table with each byte once is as long as the table. */
  lemma {:induction false} CountOfListing(book: seq<Entry>, codes: CodeTable)
    requires Lists(book, codes) && DistinctBytes(book)
    ensures |book| == |codes|
  {
    if book == [] {
      ListedKeys(book, codes);
      assert codes.Keys == {};
    } else {
      var last := book[|book| - 1];
      var front := book[..|book| - 1];
      var rest := map k | k in codes && k != last.b :: codes[k];
      assert book == front + [last];
      forall e
        ensures e in front <==> e.b in rest && rest[e.b] == e.code
      {
        if e in front {
          var i :| 0 <= i < |front| && front[i] == e;
          assert book[i] == e && e.b != last.b;
        }
        if e.b in rest && rest[e.b] == e.code {
          assert e in book && e != last;
        }
      }
      assert DistinctBytes(front);
      CountOfListing(front, rest);
      assert codes.Keys == rest.Keys + {last.b};
    }
  }

  /** Two strictly sorted codebooks with the same entries are equal: the order
      `sortCodes` produces does not depend on the order it starts from. */
  lemma {:induction false} SortedUnique(a: seq<Entry>, b: seq<Entry>)
    requires StrictlySorted(a) && StrictlySorted(b)
    requires forall e :: e in a <==> e in b
    ensures a == b
  {
    EmptyOrFirst(a);
    EmptyOrFirst(b);
    if a != [] {
      var j :| 0 <= j < |b| && b[j] == a[0];
      var i :| 0 <= i < |a| && a[i] == b[0];
      SortedFirst(a, i);
      SortedFirst(b, j);
      assert a[0] == b[0];
      assert a == [a[0]] + a[1..] && b == [b[0]] + b[1..];
      forall e
        ensures e in a[1..] <==> e in b[1..]
      {
        if e in a[1..] {
          var k :| 1 <= k < |a| && a[k] == e;
          assert Key(a[0]) < Key(e);
          assert e in a && e in b && e != b[0];
        }
        if e in b[1..] {
          var k :| 1 <= k < |b| && b[k] == e;
          assert Key(b[0]) < Key(e);
          assert e in b && e in a && e != a[0];
        }
      }
      SortedUnique(a[1..], b[1..]);
    }
  }

  lemma EmptyOrFirst(s: seq<Entry>)
    ensures s == [] || s[0] in s
  {
  }

  lemma SortedFirst(s: seq<Entry>, k: nat)
    requires StrictlySorted(s) && k < |s|
    ensures Key(s[0]) <= Key(s[k])
    ensures k > 0 ==> Key(s[0]) < Key(s[k])
  {
  }

  /** A strictly sorted listing of a table is its codebook. */
  lemma IsSortedCodebook(book: seq<Entry>, codes: CodeTable)
    requires StrictlySorted(book) && Lists(book, codes)
    ensures book == SortedCodebook(codes)
  {
    SortedCodebookSpec(codes);
    SortedUnique(book, SortedCodebook(codes));
  }

  function Keys(book: seq<Entry>): (r: seq<nat>)
    ensures |r| == |book| && forall i :: 0 <= i < |book| ==> r[i] == Key(book[i])
  {
    seq(|book|, i requires 0 <= i < |book| => Key(book[i]))
  }

  /** How far a codebook is from sorted: every swap of an inverted pair lowers it. */
  function Disorder(book: seq<Entry>): nat
  {
    WeightedSumBound(Keys(book));
    |book| * Total(Keys(book)) - WeightedSum(Keys(book))
  }

  /** The test of huffman.go:97-98: a longer code, or an equally long one for
      a larger byte, comes first. */
  predicate OutOfOrder(x: Entry, y: Entry)
  {
    |x.code| > |y.code| || (|x.code| == |y.code| && x.b > y.b)
  }

  lemma SwapLowersDisorder(book: seq<Entry>, i: nat)
    requires i + 1 < |book| && OutOfOrder(book[i], book[i + 1])
    ensures Disorder(Swap(book, i)) < Disorder(book)
  {
    KeyOrder(book[i + 1], book[i]);
    var w := Keys(book);
    assert Keys(Swap(book, i)) == w[i := w[i + 1]][i + 1 := w[i]];
    SwapRaisesWeightedSum(w, i);
  }

  /** The sort loop of huffman.go:92-111, in place on the codebook slice: swap
      the first pair out of (length, byte) order and start over, until a scan
      finds none. */
  method SortEntries(a: array<Entry>)
    modifies a
    ensures forall j :: 0 <= j < a.Length - 1 ==> !OutOfOrder(a[j], a[j + 1])
    ensures multiset(a[..]) == multiset(old(a[..]))
  {
    while true
      invariant multiset(a[..]) == multiset(old(a[..]))
      decreases Disorder(a[..])
    {
      ghost var before := a[..];
      var resort := false;
      var i := 0;
      while i < a.Length - 1
        invariant 0 <= i <= if a.Length == 0 then 0 else a.Length - 1
        invariant a[..] == before
        invariant forall j :: 0 <= j < i ==> !OutOfOrder(a[j], a[j + 1])
      {
        var here := a[i];
        var next := a[i + 1];
        if |here.code| > |next.code| || (|here.code| == |next.code| && here.b > next.b) {
          a[i], a[i + 1] := a[i + 1], a[i];
          assert a[..] == Swap(before, i);
          SwapLowersDisorder(before, i);
          resort := true;
          break;
        }
        i := i + 1;
      }
      if !resort {
        break;
      }
    }
  }

  lemma {:induction false} AdjacentStrict(book: seq<Entry>)
    requires forall j :: 0 <= j < |book| - 1 ==> Key(book[j]) < Key(book[j + 1])
    ensures StrictlySorted(book)
  {
    if |book| >= 2 {
      var front := book[..|book| - 1];
      AdjacentStrict(front);
      forall i, j | 0 <= i < j < |book|
        ensures Key(book[i]) < Key(book[j])
      {
        if j < |book| - 1 {
          assert book[i] == front[i] && book[j] == front[j];
        } else if i < j - 1 {
          assert book[i] == front[i] && book[j - 1] == front[j - 1];
        }
      }
    }
  }

  /** huffman.go's `sortCodes` (huffman.go:84-114): the table's entries are
      collected in Go's unspecified map order and then sorted in place. */
  method SortCodes(codes: CodeTable) returns (codebook: seq<Entry>)
    ensures StrictlySorted(codebook) && Lists(codebook, codes)
    ensures codebook == SortedCodebook(codes)
  {
    var entries: seq<Entry> := [];
    var rest := codes.Keys;
    while rest != {}
      invariant rest <= codes.Keys
      invariant forall e :: e in entries <==> e.b in codes.Keys - rest && codes[e.b] == e.code
      invariant DistinctBytes(entries)
      decreases |rest|
    {
      var k :| k in rest;
      forall i | 0 <= i < |entries|
        ensures entries[i].b != k
      {
        assert entries[i] in entries;
      }
      entries := entries + [Entry(k, codes[k])];
      rest := rest - {k};
    }
    var a := new Entry[|entries|](i requires 0 <= i < |entries| => entries[i]);
    assert a[..] == entries;
    SortEntries(a);
    codebook := a[..];
    forall e
      ensures e in codebook <==> e in entries
    {
      assert e in codebook <==> e in multiset(codebook);
      assert e in entries <==> e in multiset(entries);
    }
    forall j | 0 <= j < |codebook| - 1
      ensures Key(codebook[j]) < Key(codebook[j + 1])
    {
      assert codebook[j] in entries && codebook[j + 1] in entries;
      assert !OutOfOrder(codebook[j], codebook[j + 1]);
      KeyOrder(codebook[j], codebook[j + 1]);
      if Key(codebook[j]) == Key(codebook[j + 1]) {
        assert codes[codebook[j].b] == codebook[j].code;
        assert codebook[j] == codebook[j + 1];
        MultisetTwice(codebook, j);
        DistinctOnce(entries, codebook[j]);
      }
    }
    AdjacentStrict(codebook);
    IsSortedCodebook(codebook, codes);
  }

  lemma MultisetTwice(s: seq<Entry>, j: nat)
    requires j + 1 < |s| && s[j] == s[j + 1]
    ensures multiset(s)[s[j]] >= 2
  {
    assert s == s[..j] + [s[j], s[j + 1]] + s[j + 2..];
  }

  lemma {:induction false} DistinctOnce(s: seq<Entry>, e: Entry)
    requires DistinctBytes(s)
    ensures multiset(s)[e] <= 1
  {
    if s != [] {
      var front := s[..|s| - 1];
      assert s == front + [s[|s| - 1]];
      assert DistinctBytes(front);
      DistinctOnce(front, e);
      if s[|s| - 1] == e {
        forall i | 0 <= i < |front|
          ensures front[i] != e
        {
          assert s[i].b != s[|s| - 1].b;
        }
        assert e !in front;
      }
    }
  }

  /** The bytes a codebook has entries for. */
  function Bytes(book: seq<Entry>): set<Byte>
  {
    set e | e in book :: e.b
  }

  /** Entry by entry, each setting its byte's code in `start`, a later entry
      overriding an earlier one. */
  function Into(start: CodeTable, book: seq<Entry>): CodeTable
  {
    if book == [] then start
    else Into(start, book[..|book| - 1])[book[|book| - 1].b := book[|book| - 1].code]
  }

  /** The table-building loop of huffman.go:145-148, which starts from an
      empty table. */
  function ToTable(book: seq<Entry>): CodeTable
  {
    Into(map[], book)
  }

  /** A codebook with each byte once sets exactly its own entries and leaves
      the rest of the table alone. */
  lemma {:induction false} IntoSpec(start: CodeTable, book: seq<Entry>)
    requires DistinctBytes(book)
    ensures forall e :: e in book ==> e.b in Into(start, book) && Into(start, book)[e.b] == e.code
    ensures forall b :: b in Into(start, book) <==> b in start || b in Bytes(book)
    ensures forall b :: b in start && b !in Bytes(book) ==> Into(start, book)[b] == start[b]
  {
    if book != [] {
      var front := book[..|book| - 1];
      var last := book[|book| - 1];
      assert DistinctBytes(front);
      IntoSpec(start, front);
      assert book == front + [last];
      forall e | e in book
        ensures e.b in Into(start, book) && Into(start, book)[e.b] == e.code
      {
        if e != last {
          var i :| 0 <= i < |book| && book[i] == e;
          assert i < |front| && front[i] == e;
          assert e.b != last.b;
        }
      }
      assert Bytes(book) == Bytes(front) + {last.b};
    }
  }

  lemma {:induction false} IntoAppend(start: CodeTable, a: seq<Entry>, b: seq<Entry>)
    ensures Into(start, a + b) == Into(Into(start, a), b)
  {
    if b != [] {
      assert (a + b)[..|a + b| - 1] == a + b[..|b| - 1];
      IntoAppend(start, a, b[..|b| - 1]);
    } else {
      assert a + b == a;
    }
  }

  /** A codebook with each byte once turns into the table it lists. */
  lemma ToTableLists(book: seq<Entry>)
    requires DistinctBytes(book)
    ensures Lists(book, ToTable(book))
    ensures ToTable(book).Keys == Bytes(book)
  {
    IntoSpec(map[], book);
    forall e: Entry | e.b in ToTable(book) && ToTable(book)[e.b] == e.code
      ensures e in book
    {
      var x :| x in book && x.b == e.b;
    }
  }
}
