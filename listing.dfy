/** Ordered, paginated listing: `OrderBy(x => x.Name)`, `CountAsync()`,
    `Skip((pageNumber - 1) * pageSize)` and `Take(pageSize)`, as the two
    repositories' `GetAllAsync` compose them. */
module Listing {
  import opened Wrappers
  import opened Ordering

  /** `s` is in ascending order of `name`. Rows with equal names may come in
      any order: SQL `ORDER BY` is not stable. */
  predicate SortedBy<T>(s: seq<T>, name: T -> string)
  {
    forall i, j :: 0 <= i < j < |s| ==> NameLe(name(s[i]), name(s[j]))
  }

  /** Prepending a row that sorts no later than the head keeps a list sorted. */
  lemma SortedCons<T>(x: T, s: seq<T>, name: T -> string)
    requires SortedBy(s, name)
    requires s != [] ==> NameLe(name(x), name(s[0]))
    ensures SortedBy([x] + s, name)
  {
    forall j | 0 < j < |s| + 1 ensures NameLe(name(([x] + s)[0]), name(([x] + s)[j])) {
      if j > 1 {
        NameLeTransitive(name(x), name(s[0]), name(s[j - 1]));
      }
    }
  }

  /** Inserts `x` into a sorted list before the first row it sorts before. */
  function InsertSorted<T(==)>(x: T, s: seq<T>, name: T -> string): (r: seq<T>)
    requires SortedBy(s, name)
    ensures SortedBy(r, name)
    ensures multiset(r) == multiset(s) + multiset{x}
    ensures r[0] == x || (s != [] && r[0] == s[0])
  {
    if s == [] then [x]
    else if NameLe(name(x), name(s[0])) then
      SortedCons(x, s, name);
      [x] + s
    else
      NameLeTotal(name(x), name(s[0]));
      assert s == [s[0]] + s[1..];
      var t := InsertSorted(x, s[1..], name);
      SortedCons(s[0], t, name);
      [s[0]] + t
  }

  /** `OrderBy(name)`: a permutation of `s` in ascending name order. */
  function OrderBy<T(==)>(s: seq<T>, name: T -> string): (r: seq<T>)
    ensures SortedBy(r, name)
    ensures multiset(r) == multiset(s)
    ensures |r| == |s|
  {
    if s == [] then []
    else
      assert s == [s[0]] + s[1..];
      InsertSorted(s[0], OrderBy(s[1..], name), name)
  }

  /** LINQ `Skip(n)`: drops the first `n` rows; a count past the end leaves
      nothing and a count of zero or less drops nothing. */
  function Skip<T>(s: seq<T>, n: int): seq<T>
  {
    if n <= 0 then s else if n >= |s| then [] else s[n..]
  }

  /** LINQ `Take(n)`: keeps at most the first `n` rows. */
  function Take<T>(s: seq<T>, n: int): seq<T>
  {
    if n <= 0 then [] else if n >= |s| then s else s[..n]
  }

  /** `Skip(n)` is the suffix after the first `n` rows, `n` clamped to the
      list. */
  lemma SkipIsSuffix<T>(s: seq<T>, n: int)
    ensures Skip(s, n) == s[Min(Max(0, n), |s|)..]
  {
  }

  /** `Take(n)` is the prefix of the first `n` rows, `n` clamped to the
      list. */
  lemma TakeIsPrefix<T>(s: seq<T>, n: int)
    ensures Take(s, n) == s[..Min(Max(0, n), |s|)]
  {
  }

  /** The number of rows before the requested page, in exact arithmetic. */
  function Offset(pageNumber: int, pageSize: int): (offset: int)
    requires pageNumber >= 1 && pageSize >= 1
    ensures offset >= 0
    ensures pageNumber > 1 ==> offset >= pageSize
  {
    assert (pageNumber - 1) * pageSize >= 0 * pageSize;
    (pageNumber - 1) * pageSize
  }

  function Min(a: int, b: int): int { if a <= b then a else b }

  function Max(a: int, b: int): int { if a <= b then b else a }

  /** Page `pageNumber` (counted from 1) of `s`, `pageSize` rows per page. */
  function Page<T>(s: seq<T>, pageNumber: int, pageSize: int): (r: seq<T>)
    requires pageNumber >= 1 && pageSize >= 1
    ensures |r| == Min(pageSize, Max(0, |s| - Offset(pageNumber, pageSize)))
    ensures forall k :: 0 <= k < |r| ==> r[k] == s[Offset(pageNumber, pageSize) + k]
  {
    Take(Skip(s, Offset(pageNumber, pageSize)), pageSize)
  }

  /** The rows of one page together with the count of all rows. */
  datatype PagedList<T> = PagedList(items: seq<T>, totalCount: nat)

  /** `GetAllAsync(pageNumber, pageSize)`: the count is taken over the whole
      ordered query, the page is cut from it afterwards. */
  function GetAllPaged<T(==)>(s: seq<T>, name: T -> string, pageNumber: int, pageSize: int): (r: PagedList<T>)
    requires pageNumber >= 1 && pageSize >= 1
    ensures r.totalCount == |s|
    ensures |r.items| <= pageSize
    ensures Offset(pageNumber, pageSize) >= |s| ==> r.items == []
    ensures |r.items| == Min(pageSize, Max(0, |s| - Offset(pageNumber, pageSize)))
    ensures forall k :: 0 <= k < |r.items| ==>
              r.items[k] == OrderBy(s, name)[Offset(pageNumber, pageSize) + k]
    ensures SortedBy(r.items, name)
    ensures multiset(r.items) <= multiset(s)
  {
    PageIsSlice(OrderBy(s, name), name, pageNumber, pageSize);
    PagedList(Page(OrderBy(s, name), pageNumber, pageSize), |s|)
  }

  /** A page is a contiguous slice of the list it is cut from, so it keeps
      the list's order and holds only the list's rows. */
  lemma PageIsSlice<T>(s: seq<T>, name: T -> string, pageNumber: int, pageSize: int)
    requires pageNumber >= 1 && pageSize >= 1
    ensures SortedBy(s, name) ==> SortedBy(Page(s, pageNumber, pageSize), name)
    ensures multiset(Page(s, pageNumber, pageSize)) <= multiset(s)
  {
    var lo := Offset(pageNumber, pageSize);
    var r := Page(s, pageNumber, pageSize);
    if r != [] {
      assert lo + |r| <= |s|;
      assert r == s[lo..lo + |r|];
      SliceSorted(s, name, lo, lo + |r|);
    }
  }

  lemma SliceSorted<T>(s: seq<T>, name: T -> string, lo: int, hi: int)
    requires 0 <= lo <= hi <= |s|
    ensures SortedBy(s, name) ==> SortedBy(s[lo..hi], name)
    ensures multiset(s[lo..hi]) <= multiset(s)
  {
    assert s == s[..lo] + s[lo..hi] + s[hi..];
    if SortedBy(s, name) {
      forall i, j | 0 <= i < j < hi - lo ensures NameLe(name(s[lo..hi][i]), name(s[lo..hi][j])) {
        assert s[lo..hi][i] == s[lo + i] && s[lo..hi][j] == s[lo + j];
      }
    }
  }

  /** Pages partition the list: row `i` is on page `i / pageSize + 1`, at
      position `i % pageSize`. */
  lemma {:induction false} PageOfIndex<T>(s: seq<T>, pageSize: int, i: int)
    requires pageSize >= 1 && 0 <= i < |s|
    ensures var page := Page(s, i / pageSize + 1, pageSize);
            i % pageSize < |page| && page[i % pageSize] == s[i]
  {
    var q, m := i / pageSize, i % pageSize;
    assert i == q * pageSize + m && 0 <= m < pageSize;
    assert q >= 0;
    assert Offset(q + 1, pageSize) == q * pageSize;
  }

  /** A first page at least as large as the list holds every row. */
  lemma FirstPageHoldsAll<T>(s: seq<T>, name: T -> string, pageSize: int)
    requires pageSize >= |s| && pageSize >= 1
    ensures multiset(GetAllPaged(s, name, 1, pageSize).items) == multiset(s)
  {
    var ordered := OrderBy(s, name);
    assert Page(ordered, 1, pageSize) == ordered;
  }

  // The offset as the C# source computes it. `pageNumber` and `pageSize` are
  // 32-bit `int`s and the product is evaluated unchecked, so it wraps modulo
  // 2^32 once it exceeds `int.MaxValue`.

  const Int32Max: int := 0x7FFF_FFFF

  predicate IsInt32(x: int) { -0x8000_0000 <= x <= Int32Max }

  /** Two's-complement truncation of `x` to 32 bits. */
  function WrapInt32(x: int): (w: int)
    ensures IsInt32(w)
    ensures (w - x) % 0x1_0000_0000 == 0
    ensures IsInt32(x) ==> w == x
  {
    var m := x % 0x1_0000_0000;
    if m <= Int32Max then m else m - 0x1_0000_0000
  }

  /** As written: `(pageNumber - 1) * pageSize` on 32-bit integers. It agrees
      with the exact offset exactly when the exact offset fits in an `int`. */
  function OffsetAsWritten(pageNumber: int, pageSize: int): (offset: int)
    requires IsInt32(pageNumber) && IsInt32(pageSize)
    requires pageNumber >= 1 && pageSize >= 1
    ensures IsInt32(offset)
    ensures offset == Offset(pageNumber, pageSize) <==> Offset(pageNumber, pageSize) <= Int32Max
  {
    WrapInt32(Offset(pageNumber, pageSize))
  }

  /** As written: the page cut at the wrapped offset. The database refuses
      a negative OFFSET, so a wrapped offset below zero makes the query fail
      (`None`) instead of returning a page. */
  function PageAsWritten<T>(s: seq<T>, pageNumber: int, pageSize: int): (r: Option<seq<T>>)
    requires IsInt32(pageNumber) && IsInt32(pageSize)
    requires pageNumber >= 1 && pageSize >= 1
    ensures r.None? <==> OffsetAsWritten(pageNumber, pageSize) < 0
    ensures r.Some? ==> |r.value| == Min(pageSize, Max(0, |s| - OffsetAsWritten(pageNumber, pageSize)))
    ensures r.Some? ==> forall k :: 0 <= k < |r.value| ==> r.value[k] == s[OffsetAsWritten(pageNumber, pageSize) + k]
    ensures Offset(pageNumber, pageSize) <= Int32Max ==> r == Some(Page(s, pageNumber, pageSize))
  {
    var offset := OffsetAsWritten(pageNumber, pageSize);
    if offset < 0 then None else Some(Take(Skip(s, offset), pageSize))
  }

  /** Page 65537 of 65536 rows each lies past the end of any table an `int`
      count can describe, so it is empty; the wrapped offset is 0, so the code
      as written returns the first page instead. */
  lemma OffsetOverflowShowsFirstPage<T>(s: seq<T>)
    requires 0 < |s| <= Int32Max
    ensures OffsetAsWritten(65537, 65536) == 0
    ensures PageAsWritten(s, 65537, 65536) == Some(Take(s, 65536))
    ensures Take(s, 65536) != []
    ensures Page(s, 65537, 65536) == []
  {
    assert Offset(65537, 65536) == 0x1_0000_0000;
    assert WrapInt32(0x1_0000_0000) == 0;
  }

  /** Page 3 of 2^30 rows each starts at 2^31, one past `int.MaxValue`; the
      offset wraps to `int.MinValue`, so the code as written sends a negative
      OFFSET, which the database refuses, where the exact page is empty. */
  lemma OffsetOverflowIsRefused<T>(s: seq<T>)
    requires |s| <= Int32Max
    ensures OffsetAsWritten(3, 0x4000_0000) == -0x8000_0000
    ensures PageAsWritten(s, 3, 0x4000_0000) == None
    ensures Page(s, 3, 0x4000_0000) == []
  {
    assert Offset(3, 0x4000_0000) == 0x8000_0000;
    assert WrapInt32(0x8000_0000) == -0x8000_0000;
  }
}
