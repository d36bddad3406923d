/** The dashboard page of my-crawler-ui (pages/Dashboard.tsx): the view the
    table shows, computed from the polled list by a filter, a sort and two
    slices, and the page's state cells, updated by its handlers.

    `currentPage` and `itemsPerPage` are state cells whose setters are never
    called, so they are the constants 1 and 20 here. The query's data, its
    loading and error flags and the three mutations' pending flags are
    driven by network answers; they are fields the methods below set when
    an answer arrives. */
module Dashboard {
  import opened Options
  import opened Text
  import opened UiTypes

  const CurrentPage := 1
  const ItemsPerPage := 20
  const PageSize := 5

  // ------------------------------------------------------------- filter

  /** The search matches a record when its lower-cased text occurs in the
      lower-cased URL, title or status. */
  predicate Matches(r: AnalysisResult, term: string) {
    var t := Lower(term);
    Contains(Lower(r.url), t) || Contains(Lower(r.pageTitle), t) || Contains(Lower(r.status), t)
  }

  /** `urls.filter(...)`: the matching records, in their order. */
  function FilterRecords(s: seq<AnalysisResult>, term: string): seq<AnalysisResult>
  {
    if s == [] then []
    else FilterRecords(s[..|s| - 1], term) + if Matches(s[|s| - 1], term) then [s[|s| - 1]] else []
  }

  /** A record is kept exactly when it is in the list and the search
      matches it; nothing is added. */
  lemma {:induction false} FilterKeepsMatches(s: seq<AnalysisResult>, term: string)
    ensures |FilterRecords(s, term)| <= |s|
    ensures forall r :: r in FilterRecords(s, term) <==> r in s && Matches(r, term)
  {
    if s != [] {
      FilterKeepsMatches(s[..|s| - 1], term);
      assert s == s[..|s| - 1] + [s[|s| - 1]];
    }
  }

  /** An empty search keeps every record, in order. */
  lemma {:induction false} EmptySearchKeepsAll(s: seq<AnalysisResult>)
    ensures FilterRecords(s, "") == s
  {
    if s != [] {
      EmptySearchKeepsAll(s[..|s| - 1]);
      ContainsEmpty(Lower(s[|s| - 1].url));
      assert Lower("") == "";
    }
  }

  /** A match is an occurrence of the lower-cased term at some offset of
      the lower-cased URL, title or status. */
  lemma MatchesIff(r: AnalysisResult, term: string)
    ensures Matches(r, term) <==>
      || (exists k: nat :: OccursAt(Lower(r.url), Lower(term), k))
      || (exists k: nat :: OccursAt(Lower(r.pageTitle), Lower(term), k))
      || (exists k: nat :: OccursAt(Lower(r.status), Lower(term), k))
  {
    ContainsIff(Lower(r.url), Lower(term));
    ContainsIff(Lower(r.pageTitle), Lower(term));
    ContainsIff(Lower(r.status), Lower(term));
  }

  // --------------------------------------------------------------- sort

  /** The sort keys the page can select: the initial `CreatedAt` and the
      seven clickable column headers. */
  datatype Column = URL | Status | PageTitle | HTMLVersion | InternalLinks | ExternalLinks | InaccessibleLinks | CreatedAt

  datatype SortOrder = Asc | Desc

  /** Columns whose values are strings; the comparator's `typeof` test
      sends them to the string comparison. `CreatedAt` arrives as a
      string. */
  predicate IsStringColumn(col: Column) {
    col.URL? || col.Status? || col.PageTitle? || col.HTMLVersion? || col.CreatedAt?
  }

  function StringKey(r: AnalysisResult, col: Column): string
    requires IsStringColumn(col)
  {
    match col
    case URL => r.url
    case Status => r.status
    case PageTitle => r.pageTitle
    case HTMLVersion => r.htmlVersion
    case CreatedAt => r.createdAt
  }

  function NumberKey(r: AnalysisResult, col: Column): int
    requires !IsStringColumn(col)
  {
    match col
    case InternalLinks => r.internalLinks
    case ExternalLinks => r.externalLinks
    case InaccessibleLinks => r.inaccessibleLinks
  }

  /** The comparator handed to `sort`: negative when `a` goes first. Strings
      compare as strings and numbers by subtraction; descending order swaps
      the arguments. */
  function Compare(a: AnalysisResult, b: AnalysisResult, col: Column, order: SortOrder): (r: int)
    ensures IsStringColumn(col) ==> (r == 0 <==> StringKey(a, col) == StringKey(b, col))
    ensures !IsStringColumn(col) ==>
      (r < 0 <==> if order == Asc then NumberKey(a, col) < NumberKey(b, col) else NumberKey(b, col) < NumberKey(a, col))
  {
    if IsStringColumn(col) then
      LexCompareZero(StringKey(a, col), StringKey(b, col));
      LexCompareZero(StringKey(b, col), StringKey(a, col));
      if order == Asc then LexCompare(StringKey(a, col), StringKey(b, col))
      else LexCompare(StringKey(b, col), StringKey(a, col))
    else
      if order == Asc then NumberKey(a, col) - NumberKey(b, col)
      else NumberKey(b, col) - NumberKey(a, col)
  }

  /** Swapping the two records negates the comparison. */
  lemma CompareAntisymmetric(a: AnalysisResult, b: AnalysisResult, col: Column, order: SortOrder)
    ensures Compare(a, b, col, order) == -Compare(b, a, col, order)
  {
    if IsStringColumn(col) {
      LexCompareAntisymmetric(StringKey(a, col), StringKey(b, col));
    }
  }

  /** A comparator as `sort` takes it: negative when the first argument
      goes first. */
  type Comparator = (AnalysisResult, AnalysisResult) -> int

  /** The comparator the page passes to `sort` for a column and direction. */
  function ComparatorFor(col: Column, order: SortOrder): Comparator
  {
    (a, b) => Compare(a, b, col, order)
  }

  /** Swapping a comparator's arguments negates it. */
  ghost predicate Antisymmetric(cmp: Comparator) {
    forall a, b :: cmp(a, b) == -cmp(b, a)
  }

  /** The page's comparators are antisymmetric. */
  lemma ComparatorForAntisymmetric(col: Column, order: SortOrder)
    ensures Antisymmetric(ComparatorFor(col, order))
  {
    forall a, b ensures Compare(a, b, col, order) == -Compare(b, a, col, order) {
      CompareAntisymmetric(a, b, col, order);
    }
  }

  /** Going first, or tying, chains from one record to the next. */
  lemma CompareTransitive(a: AnalysisResult, b: AnalysisResult, c: AnalysisResult, col: Column, order: SortOrder)
    requires Compare(a, b, col, order) <= 0 && Compare(b, c, col, order) <= 0
    ensures Compare(a, c, col, order) <= 0
  {
    if IsStringColumn(col) {
      if order == Asc {
        LexCompareTransitive(StringKey(a, col), StringKey(b, col), StringKey(c, col));
      } else {
        LexCompareTransitive(StringKey(c, col), StringKey(b, col), StringKey(a, col));
      }
    }
  }

  ghost predicate Transitive(cmp: Comparator) {
    forall a, b, c :: cmp(a, b) <= 0 && cmp(b, c) <= 0 ==> cmp(a, c) <= 0
  }

  /** The page's comparators are transitive, so with antisymmetry they are
      consistent comparators in the sense `Array.prototype.sort` requires. */
  lemma ComparatorForTransitive(col: Column, order: SortOrder)
    ensures Transitive(ComparatorFor(col, order))
  {
    forall a, b, c | Compare(a, b, col, order) <= 0 && Compare(b, c, col, order) <= 0
      ensures Compare(a, c, col, order) <= 0
    {
      CompareTransitive(a, b, c, col, order);
    }
  }

  /** Places `x` after the last element of the sorted `s` that does not
      compare greater than it, so equal records keep their order. */
  function Insert(s: seq<AnalysisResult>, x: AnalysisResult, cmp: Comparator): seq<AnalysisResult>
  {
    if s == [] then [x]
    else if cmp(s[|s| - 1], x) > 0 then Insert(s[..|s| - 1], x, cmp) + [s[|s| - 1]]
    else s + [x]
  }

  /** `filtered.sort(comparator)`. The built-in sort is stable, and a stable
      sort under a consistent comparator has one possible result: this
      insertion sort's. */
  function SortRecords(s: seq<AnalysisResult>, cmp: Comparator): seq<AnalysisResult>
  {
    if s == [] then [] else Insert(SortRecords(s[..|s| - 1], cmp), s[|s| - 1], cmp)
  }

  /** Every record compares at most equal to the one after it. */
  predicate Ordered(s: seq<AnalysisResult>, cmp: Comparator) {
    forall k :: 0 <= k < |s| - 1 ==> cmp(s[k], s[k + 1]) <= 0
  }

  lemma {:induction false} InsertPermutes(s: seq<AnalysisResult>, x: AnalysisResult, cmp: Comparator)
    ensures multiset(Insert(s, x, cmp)) == multiset(s) + multiset{x}
  {
    if s != [] && cmp(s[|s| - 1], x) > 0 {
      InsertPermutes(s[..|s| - 1], x, cmp);
      assert s == s[..|s| - 1] + [s[|s| - 1]];
    }
  }

  /** The sorted list holds the same records as the filtered one, each as
      many times. */
  lemma {:induction false} SortPermutes(s: seq<AnalysisResult>, cmp: Comparator)
    ensures multiset(SortRecords(s, cmp)) == multiset(s)
  {
    if s != [] {
      var front, last := s[..|s| - 1], s[|s| - 1];
      assert s == front + [last];
      calc {
        multiset(SortRecords(s, cmp));
        multiset(Insert(SortRecords(front, cmp), last, cmp));
        { InsertPermutes(SortRecords(front, cmp), last, cmp); }
        multiset(SortRecords(front, cmp)) + multiset{last};
        { SortPermutes(front, cmp); }
        multiset(front) + multiset{last};
        multiset(s);
      }
    }
  }

  /** Insertion adds one record at the end of the ordered list's run: the
      last record is the old last one when that compares greater than `x`,
      else `x` itself. */
  lemma InsertLast(s: seq<AnalysisResult>, x: AnalysisResult, cmp: Comparator)
    ensures |Insert(s, x, cmp)| == |s| + 1
    ensures s != [] && cmp(s[|s| - 1], x) > 0 ==> Insert(s, x, cmp)[|s|] == s[|s| - 1]
    ensures !(s != [] && cmp(s[|s| - 1], x) > 0) ==> Insert(s, x, cmp)[|s|] == x
  {
    InsertPermutes(s, x, cmp);
    assert |multiset(Insert(s, x, cmp))| == |Insert(s, x, cmp)|;
  }

  lemma OrderedPrefix(s: seq<AnalysisResult>, cmp: Comparator)
    requires Ordered(s, cmp) && s != []
    ensures Ordered(s[..|s| - 1], cmp)
  {
    var front := s[..|s| - 1];
    forall k | 0 <= k < |front| - 1 ensures cmp(front[k], front[k + 1]) <= 0 {
      assert front[k] == s[k] && front[k + 1] == s[k + 1];
    }
  }

  lemma OrderedSnoc(s: seq<AnalysisResult>, y: AnalysisResult, cmp: Comparator)
    requires Ordered(s, cmp)
    requires s != [] ==> cmp(s[|s| - 1], y) <= 0
    ensures Ordered(s + [y], cmp)
  {
    var t := s + [y];
    forall k | 0 <= k < |t| - 1 ensures cmp(t[k], t[k + 1]) <= 0 {
      if k + 1 < |s| {
        assert t[k] == s[k] && t[k + 1] == s[k + 1];
      }
    }
  }

  lemma {:induction false} InsertOrdered(s: seq<AnalysisResult>, x: AnalysisResult, cmp: Comparator)
    requires Antisymmetric(cmp) && Ordered(s, cmp)
    ensures Ordered(Insert(s, x, cmp), cmp)
  {
    if s != [] {
      var front := s[..|s| - 1];
      var last := s[|s| - 1];
      if cmp(last, x) > 0 {
        OrderedPrefix(s, cmp);
        InsertOrdered(front, x, cmp);
        InsertLast(front, x, cmp);
        var r := Insert(front, x, cmp);
        // The record that ends up before `last` is the end of `front` or `x`.
        if front != [] && cmp(front[|front| - 1], x) > 0 {
          assert r[|r| - 1] == s[|s| - 2];
        } else {
          assert cmp(x, last) == -cmp(last, x);
        }
        OrderedSnoc(r, last, cmp);
      } else {
        OrderedSnoc(s, x, cmp);
      }
    }
  }

  /** Ascending order puts adjacent records in comparator order. */
  lemma {:induction false} SortOrders(s: seq<AnalysisResult>, cmp: Comparator)
    requires Antisymmetric(cmp)
    ensures Ordered(SortRecords(s, cmp), cmp)
  {
    if s != [] {
      SortOrders(s[..|s| - 1], cmp);
      InsertOrdered(SortRecords(s[..|s| - 1], cmp), s[|s| - 1], cmp);
    }
  }

  /** An already ordered list comes back as it was, so sorting twice is
      sorting once. */
  lemma {:induction false} SortKeepsOrdered(s: seq<AnalysisResult>, cmp: Comparator)
    requires Ordered(s, cmp)
    ensures SortRecords(s, cmp) == s
  {
    if s != [] {
      var front := s[..|s| - 1];
      assert Ordered(front, cmp) by {
        forall k | 0 <= k < |front| - 1 ensures cmp(front[k], front[k + 1]) <= 0 {
          assert front[k] == s[k] && front[k + 1] == s[k + 1];
        }
      }
      SortKeepsOrdered(front, cmp);
      if |s| >= 2 {
        assert cmp(s[|s| - 2], s[|s| - 1]) <= 0;
      }
      assert s == front + [s[|s| - 1]];
    }
  }

  lemma SortIdempotent(s: seq<AnalysisResult>, cmp: Comparator)
    requires Antisymmetric(cmp)
    ensures SortRecords(SortRecords(s, cmp), cmp) == SortRecords(s, cmp)
  {
    SortOrders(s, cmp);
    SortKeepsOrdered(SortRecords(s, cmp), cmp);
  }

  /** What the order means for the keys: ascending string columns run
      through the string order, descending ones against it; numeric columns
      rise in ascending order and fall in descending order. */
  lemma SortedByKey(s: seq<AnalysisResult>, col: Column, order: SortOrder, k: nat)
    requires k + 1 < |SortRecords(s, ComparatorFor(col, order))|
    ensures var r := SortRecords(s, ComparatorFor(col, order));
            && (IsStringColumn(col) && order == Asc ==> LexCompare(StringKey(r[k], col), StringKey(r[k + 1], col)) <= 0)
            && (IsStringColumn(col) && order == Desc ==> LexCompare(StringKey(r[k + 1], col), StringKey(r[k], col)) <= 0)
            && (!IsStringColumn(col) && order == Asc ==> NumberKey(r[k], col) <= NumberKey(r[k + 1], col))
            && (!IsStringColumn(col) && order == Desc ==> NumberKey(r[k], col) >= NumberKey(r[k + 1], col))
  {
    ComparatorForAntisymmetric(col, order);
    SortOrders(s, ComparatorFor(col, order));
    var r := SortRecords(s, ComparatorFor(col, order));
    assert ComparatorFor(col, order)(r[k], r[k + 1]) <= 0;
  }

  /** Insertion puts `x` in front of the run of records at the end of `s`
      that compare greater than it. */
  lemma {:induction false} InsertAt(s: seq<AnalysisResult>, x: AnalysisResult, j: int, cmp: Comparator)
    requires 0 <= j <= |s| && (j == 0 || cmp(s[j - 1], x) <= 0)
    requires forall k :: j <= k < |s| ==> cmp(s[k], x) > 0
    ensures Insert(s, x, cmp) == s[..j] + [x] + s[j..]
    decreases |s|
  {
    if j < |s| {
      var front, last := s[..|s| - 1], s[|s| - 1];
      assert cmp(last, x) > 0;
      InsertAt(front, x, j, cmp);
      assert front[..j] == s[..j] && s[j..] == front[j..] + [last];
    } else {
      assert s[..j] == s && s[j..] == [];
    }
  }

  /** Shifts the records of `a[..i]` that compare greater than `x`, from the
      end down to the first that does not, one place right, and returns the
      gap left at the front of that run. */
  method ShiftGreater(a: array<AnalysisResult>, i: int, x: AnalysisResult, cmp: Comparator) returns (j: int)
    requires 0 <= i < a.Length
    modifies a
    ensures 0 <= j <= i && (j == 0 || cmp(a[j - 1], x) <= 0)
    ensures forall k :: j <= k < i ==> cmp(old(a[k]), x) > 0
    ensures forall k :: 0 <= k < j ==> a[k] == old(a[k])
    ensures forall k :: j < k <= i ==> a[k] == old(a[k - 1])
    ensures forall k :: i < k < a.Length ==> a[k] == old(a[k])
  {
    j := i;
    while j > 0 && cmp(a[j - 1], x) > 0
      invariant 0 <= j <= i
      invariant forall k :: j <= k < i ==> cmp(old(a[k]), x) > 0
      invariant forall k :: 0 <= k < j ==> a[k] == old(a[k])
      invariant forall k :: j < k <= i ==> a[k] == old(a[k - 1])
      invariant forall k :: i < k < a.Length ==> a[k] == old(a[k])
    {
      a[j] := a[j - 1];
      j := j - 1;
    }
  }

  /** The array once the gap is filled: the run before the gap, `x`, and
      the shifted rest of the run. */
  lemma InsertPlaced(s: seq<AnalysisResult>, x: AnalysisResult, j: int, placed: seq<AnalysisResult>)
    requires 0 <= j <= |s|
    requires |placed| == |s| + 1 && placed[j] == x
    requires forall k :: 0 <= k < j ==> placed[k] == s[k]
    requires forall k :: j < k < |placed| ==> placed[k] == s[k - 1]
    ensures placed == s[..j] + [x] + s[j..]
  {
    var r := s[..j] + [x] + s[j..];
    forall k | 0 <= k < |placed| ensures placed[k] == r[k] {
      if k < j {
        assert r[k] == s[k];
      } else if j < k {
        assert r[k] == s[k - 1];
      }
    }
  }

  /** One pass of the in-place sort: shifts the records of the sorted run
      `a[..i]` that compare greater than `a[i]` one place right and drops
      `a[i]` into the gap. */
  method InsertInto(a: array<AnalysisResult>, i: int, cmp: Comparator)
    requires 0 <= i < a.Length
    modifies a
    ensures a[..i + 1] == Insert(old(a[..i]), old(a[i]), cmp)
    ensures a[i + 1..] == old(a[i + 1..])
  {
    ghost var sorted := a[..i];
    var x := a[i];
    var j := ShiftGreater(a, i, x, cmp);
    a[j] := x;
    InsertAt(sorted, x, j, cmp);
    InsertPlaced(sorted, x, j, a[..i + 1]);
  }

  /** The in-place sort of the filtered array: an insertion sort that
      leaves the array holding SortRecords of what it held. */
  method SortInPlace(a: array<AnalysisResult>, cmp: Comparator)
    modifies a
    ensures a[..] == SortRecords(old(a[..]), cmp)
  {
    ghost var input := a[..];
    var i := 0;
    while i < a.Length
      invariant 0 <= i <= a.Length
      invariant a[..i] == SortRecords(input[..i], cmp)
      invariant a[i..] == input[i..]
    {
      InsertInto(a, i, cmp);
      assert input[..i + 1][..i] == input[..i];
      i := i + 1;
    }
    assert input[..a.Length] == input;
  }

  // -------------------------------------------------------------- slice

  /** A `slice` bound: negative counts from the end; the result is clamped
      to the list. */
  function JsIndex(i: int, n: nat): (k: nat)
    ensures k <= n
    ensures 0 <= i <= n ==> k == i
  {
    if i < 0 then (if n + i < 0 then 0 else n + i) else if i > n then n else i
  }

  /** `Array.prototype.slice(start, end)`. */
  function JsSlice<T>(s: seq<T>, start: int, end: int): seq<T>
  {
    var lo := JsIndex(start, |s|);
    var hi := JsIndex(end, |s|);
    if lo < hi then s[lo..hi] else []
  }

  /** `filteredAndSortedURLs`: nothing before the first answer; otherwise the
      filtered, sorted records from `(currentPage - 1) * itemsPerPage`, at
      most `itemsPerPage` of them. */
  function ViewOf(urls: Option<seq<AnalysisResult>>, term: string, col: Column, order: SortOrder): seq<AnalysisResult>
  {
    match urls
    case None => []
    case Some(s) =>
      var start := (CurrentPage - 1) * ItemsPerPage;
      JsSlice(SortRecords(FilterRecords(s, term), ComparatorFor(col, order)), start, start + ItemsPerPage)
  }

  /** The view is empty before the first answer and otherwise the first
      twenty sorted matches: at most twenty records, every one a matching
      record of the list, and all of the matches when there are no more
      than twenty. */
  lemma ViewIsFirstTwenty(urls: Option<seq<AnalysisResult>>, term: string, col: Column, order: SortOrder)
    ensures urls.None? ==> ViewOf(urls, term, col, order) == []
    ensures urls.Some? ==>
      var sorted := SortRecords(FilterRecords(urls.value, term), ComparatorFor(col, order));
      ViewOf(urls, term, col, order) == sorted[..if |sorted| < ItemsPerPage then |sorted| else ItemsPerPage]
    ensures |ViewOf(urls, term, col, order)| <= ItemsPerPage
    ensures forall r :: r in ViewOf(urls, term, col, order) ==> urls.Some? && r in urls.value && Matches(r, term)
    ensures urls.Some? && |FilterRecords(urls.value, term)| <= ItemsPerPage ==>
      multiset(ViewOf(urls, term, col, order)) == multiset(FilterRecords(urls.value, term))
  {
    if urls.Some? {
      var filtered := FilterRecords(urls.value, term);
      var sorted := SortRecords(filtered, ComparatorFor(col, order));
      SortPermutes(filtered, ComparatorFor(col, order));
      FilterKeepsMatches(urls.value, term);
      assert |multiset(sorted)| == |sorted|;
      var view := ViewOf(urls, term, col, order);
      forall r | r in view ensures r in urls.value && Matches(r, term) {
        assert r in multiset(sorted);
      }
      if |sorted| <= ItemsPerPage {
        assert sorted[..|sorted|] == sorted;
      }
    }
  }

  /** Computes the view the way the page does: filter into a new array,
      sort that array in place, then slice it. */
  method FilteredAndSortedURLs(urls: Option<seq<AnalysisResult>>, term: string, col: Column, order: SortOrder)
    returns (view: seq<AnalysisResult>)
    ensures view == ViewOf(urls, term, col, order)
  {
    if urls.None? {
      return [];
    }
    var filtered := FilterRecords(urls.value, term);
    var a := new AnalysisResult[|filtered|](i requires 0 <= i < |filtered| => filtered[i]);
    assert a[..] == filtered;
    SortInPlace(a, ComparatorFor(col, order));
    var start := (CurrentPage - 1) * ItemsPerPage;
    view := JsSlice(a[..], start, start + ItemsPerPage);
  }

  // -------------------------------------------------------------- pager

  /** `Math.ceil(n / pageSize)`: the fewest pages of five that hold `n`
      records. */
  function TotalPagesNo(n: nat): (t: nat)
    ensures t * PageSize >= n
    ensures n > 0 ==> (t - 1) * PageSize < n
    ensures t == 0 <==> n == 0
  {
    (n + PageSize - 1) / PageSize
  }

  /** `paginatedItems`: the slice of the view for page `page`. */
  function Paginate(view: seq<AnalysisResult>, page: int): seq<AnalysisResult>
  {
    JsSlice(view, (page - 1) * PageSize, page * PageSize)
  }

  /** A page holds at most five records, all from the view, in view order;
      a page past the last is empty and every page from the first to the
      last holds something. */
  lemma PaginateBounds(view: seq<AnalysisResult>, page: int)
    requires page >= 1
    ensures var items := Paginate(view, page);
            && |items| <= PageSize
            && (forall r :: r in items ==> r in view)
            && (page > TotalPagesNo(|view|) ==> items == [])
            && (page <= TotalPagesNo(|view|) ==>
                  items != [] && items == view[(page - 1) * PageSize..if page * PageSize < |view| then page * PageSize else |view|])
  {
  }

  /** The record at position `k` of the view is shown at position `k % 5`
      of page `k / 5 + 1`, which is one of the page buttons. */
  lemma EveryRecordHasAPage(view: seq<AnalysisResult>, k: nat)
    requires k < |view|
    ensures 1 <= k / PageSize + 1 <= TotalPagesNo(|view|)
    ensures var items := Paginate(view, k / PageSize + 1);
            k % PageSize < |items| && items[k % PageSize] == view[k]
  {
    var p := k / PageSize + 1;
    assert (p - 1) * PageSize + k % PageSize == k;
    PaginateBounds(view, p);
  }

  /** The previous-page button's target. */
  function PrevPage(page: int): (p: int)
    ensures p >= 1
    ensures page > 1 ==> p == page - 1
    ensures page <= 1 ==> p == 1
  {
    if page - 1 > 1 then page - 1 else 1
  }

  /** The next-page button's target. With at least one page it stays
      within the pages, and from the last page it stays there. */
  function NextPage(page: int, total: nat): (p: int)
    ensures page < total ==> p == page + 1
    ensures page >= total ==> p == total
    ensures total >= 1 && page >= 0 ==> 1 <= p <= total
  {
    if page + 1 < total then page + 1 else total
  }

  /** The page-number buttons: 1 to `totalPagesNo`, in order. */
  function PageNumbers(total: nat): (buttons: seq<int>)
    ensures |buttons| == total
    ensures forall i :: 0 <= i < total ==> buttons[i] == i + 1
  {
    seq(total, i requires 0 <= i < total => i + 1)
  }

  // ---------------------------------------------------------- selection

  /** `filteredAndSortedURLs.map(urlData => urlData.ID)`. */
  function Ids(s: seq<AnalysisResult>): (ids: seq<int>)
    ensures |ids| == |s|
    ensures forall i :: 0 <= i < |s| ==> ids[i] == s[i].id
  {
    seq(|s|, i requires 0 <= i < |s| => s[i].id)
  }

  /** `selection.filter(ID => ID !== id)`. */
  function RemoveId(selection: seq<int>, id: int): seq<int>
  {
    if selection == [] then []
    else RemoveId(selection[..|selection| - 1], id) + if selection[|selection| - 1] == id then [] else [selection[|selection| - 1]]
  }

  /** Unchecking a row removes every occurrence of its id and nothing
      else. */
  lemma {:induction false} RemoveIdCounts(selection: seq<int>, id: int)
    ensures multiset(RemoveId(selection, id)) == multiset(selection)[id := 0]
    ensures id !in RemoveId(selection, id)
  {
    if selection != [] {
      var front, last := selection[..|selection| - 1], selection[|selection| - 1];
      RemoveIdCounts(front, id);
      assert selection == front + [last];
      if last == id {
        assert RemoveId(selection, id) == RemoveId(front, id);
      } else {
        assert RemoveId(selection, id) == RemoveId(front, id) + [last];
      }
    }
  }

  /** The header checkbox shows a dash when some, but fewer than all, of the
      view's records are selected. Only the lengths are compared. */
  predicate Indeterminate(selection: seq<int>, view: seq<AnalysisResult>) {
    |selection| > 0 && |selection| < |view|
  }

  predicate Distinct(s: seq<int>) {
    forall i, j :: 0 <= i < j < |s| ==> s[i] != s[j]
  }

  /** A sequence without repeats has as many elements as its set. */
  lemma {:induction false} DistinctCard(s: seq<int>)
    requires Distinct(s)
    ensures |set x | x in s| == |s|
  {
    if s != [] {
      var front, last := s[..|s| - 1], s[|s| - 1];
      DistinctCard(front);
      assert s == front + [last];
      assert (set x | x in s) == (set x | x in front) + {last};
    }
  }

  /** The length test means what the dash suggests only while the view's
      ids are distinct and the selection holds each of them at most once
      and nothing else: then it is shown iff some, but not all, of the
      view's records are selected. Ids of deleted records stay selected, so
      after a delete the premise fails. */
  lemma IndeterminateIffPartial(selection: seq<int>, view: seq<AnalysisResult>)
    requires Distinct(selection) && Distinct(Ids(view))
    requires forall x :: x in selection ==> x in Ids(view)
    ensures Indeterminate(selection, view) <==> |selection| > 0 && exists r :: r in view && r.id !in selection
  {
    var sel, all := set x | x in selection, set x | x in Ids(view);
    DistinctCard(selection);
    DistinctCard(Ids(view));
    assert sel + all == all && sel * all == sel && sel - all == {};
    assert |all - sel| == |all| - |sel|;
    if |selection| < |view| {
      var y :| y in all - sel;
      var i :| 0 <= i < |view| && Ids(view)[i] == y;
      assert view[i] in view && view[i].id !in selection;
    }
    if exists r :: r in view && r.id !in selection {
      var r :| r in view && r.id !in selection;
      var i :| 0 <= i < |view| && view[i] == r;
      assert Ids(view)[i] == r.id;
      assert r.id in all - sel;
    }
  }

  // --------------------------------------------------------------- sort keys

  datatype SortState = SortState(column: Column, order: SortOrder)

  /** `handleSort(column)`: the current column flips its direction; another
      column becomes the key, ascending. */
  function NextSort(s: SortState, col: Column): (t: SortState)
    ensures t.column == col
    ensures s.column == col ==> t.order != s.order
    ensures s.column != col ==> t.order == Asc
  {
    if s.column == col then SortState(col, if s.order == Asc then Desc else Asc)
    else SortState(col, Asc)
  }

  /** Two clicks on the current column restore the sort; two clicks on
      another column leave it sorting descending by that column. */
  lemma NextSortTwice(s: SortState, col: Column)
    ensures s.column == col ==> NextSort(NextSort(s, col), col) == s
    ensures s.column != col ==> NextSort(NextSort(s, col), col) == SortState(col, Desc)
  {
  }

  // -------------------------------------------------------------- render

  datatype Screen =
    | LoadingScreen
    | ErrorScreen(message: string)
    | TableScreen
    | EmptyScreen(notice: string)

  /** What the page renders: the spinner before the first answer, then the
      error, then the table when the view has records, else a notice. */
  function DashboardScreen(isLoading: bool, hasData: bool, isError: bool, message: string,
                           viewSize: nat, term: string): (s: Screen)
    ensures s == LoadingScreen <==> isLoading && !hasData
    ensures s == ErrorScreen(message) <==> !(isLoading && !hasData) && isError
    ensures s == TableScreen <==> !(isLoading && !hasData) && !isError && viewSize > 0
    ensures s.EmptyScreen? <==> !(isLoading && !hasData) && !isError && viewSize == 0
    ensures s.EmptyScreen? && !isLoading && term != "" ==> s.notice == "No results found for your search."
    ensures s.EmptyScreen? && !isLoading && term == "" ==> s.notice == "No URLs added yet. Add one above to get started!"
  {
    if isLoading && !hasData then LoadingScreen
    else if isError then ErrorScreen(message)
    else if viewSize > 0 then TableScreen
    else EmptyScreen(if isLoading then "Loading URLs..."
                     else if term != "" then "No results found for your search."
                     else "No URLs added yet. Add one above to get started!")
  }

  // --------------------------------------------------------------- state

  /** Every state cell of the page at one moment. */
  datatype Cells = Cells(
    urls: Option<seq<AnalysisResult>>, isLoading: bool, isError: bool, errorText: string,
    urlInput: string, searchTerm: string, sortBy: Column, sortOrder: SortOrder,
    selectedURLs: seq<int>, page: int, selection: seq<int>,
    addPending: bool, rerunPending: bool, deletePending: bool)

  class DashboardState {
    /** The polled list; None until the first answer. */
    var urls: Option<seq<AnalysisResult>>
    var isLoading: bool
    var isError: bool
    var errorText: string
    var urlInput: string
    var searchTerm: string
    var sortBy: Column
    var sortOrder: SortOrder
    /** Only ever set to the empty list. */
    var selectedURLs: seq<int>
    /** The inner pager's page. */
    var page: int
    /** The ids checked in the table, which the action bar acts on. */
    var selection: seq<int>
    var addPending: bool
    var rerunPending: bool
    var deletePending: bool

    ghost function Snapshot(): Cells
      reads this
    {
      Cells(urls, isLoading, isError, errorText, urlInput, searchTerm, sortBy, sortOrder,
            selectedURLs, page, selection, addPending, rerunPending, deletePending)
    }

    /** The page number never drops below 1, and `selectedURLs` stays
        empty, so the bulk buttons beside the heading never show. */
    ghost predicate Valid()
      reads this
    {
      page >= 1 && selectedURLs == []
    }

    function View(): seq<AnalysisResult>
      reads this
    {
      ViewOf(urls, searchTerm, sortBy, sortOrder)
    }

    function TotalPages(): nat
      reads this
    {
      TotalPagesNo(|View()|)
    }

    function PaginatedItems(): seq<AnalysisResult>
      reads this
    {
      Paginate(View(), page)
    }

    predicate IsAnyActionPending()
      reads this
    {
      addPending || rerunPending || deletePending
    }

    /** The action bar is open. */
    predicate HasSelection()
      reads this
    {
      |selection| > 0
    }

    /** The "Re-run Analysis" and "Delete Selected" buttons beside the
        heading, which read `selectedURLs`, are shown. */
    predicate BulkButtonsShown()
      reads this
    {
      |selectedURLs| > 0
    }

    function Screen(): Screen
      reads this
    {
      DashboardScreen(isLoading, urls.Some?, isError, errorText, |View()|, searchTerm)
    }

    constructor ()
      ensures Valid() && !BulkButtonsShown()
      ensures Snapshot() == Cells(None, true, false, "", "", "", CreatedAt, Desc, [], 1, [], false, false, false)
    {
      urls := None;
      isLoading := true;
      isError := false;
      errorText := "";
      urlInput := "";
      searchTerm := "";
      sortBy := CreatedAt;
      sortOrder := Desc;
      selectedURLs := [];
      page := 1;
      selection := [];
      addPending := false;
      rerunPending := false;
      deletePending := false;
    }

    /** A poll answers with a list. The page is not re-clamped and the
        selection is not reconciled with the new list. */
    method ReceiveSnapshot(list: seq<AnalysisResult>)
      requires Valid()
      modifies this
      ensures Valid()
      ensures Snapshot() == old(Snapshot()).(urls := Some(list), isLoading := false, isError := false)
    {
      urls := Some(list);
      isLoading := false;
      isError := false;
    }

    /** A poll fails; the last list, if any, is kept. */
    method ReceiveError(message: string)
      requires Valid()
      modifies this
      ensures Valid()
      ensures Snapshot() == old(Snapshot()).(isLoading := false, isError := true, errorText := message)
    {
      isLoading := false;
      isError := true;
      errorText := message;
    }

    /** Typing in the URL box, which is disabled while an action is
        pending. */
    method SetUrlInput(text: string)
      requires Valid() && !IsAnyActionPending()
      modifies this
      ensures Valid()
      ensures Snapshot() == old(Snapshot()).(urlInput := text)
    {
      urlInput := text;
    }

    /** Typing in the search box, which is disabled while an action is
        pending. The page is not reset. */
    method SetSearchTerm(term: string)
      requires Valid() && !IsAnyActionPending()
      modifies this
      ensures Valid()
      ensures Snapshot() == old(Snapshot()).(searchTerm := term)
    {
      searchTerm := term;
    }

    /** `handleSort`. */
    method HandleSort(col: Column)
      requires Valid()
      modifies this
      ensures Valid()
      ensures Snapshot() == old(Snapshot()).(sortBy := col, sortOrder := NextSort(SortState(old(sortBy), old(sortOrder)), col).order)
      ensures old(sortBy) == col ==> sortOrder != old(sortOrder)
      ensures old(sortBy) != col ==> sortOrder == Asc
    {
      if sortBy == col {
        sortOrder := if sortOrder == Asc then Desc else Asc;
      } else {
        sortBy := col;
        sortOrder := Asc;
      }
    }

    /** The previous-page button. */
    method Prev()
      requires Valid()
      modifies this
      ensures Valid()
      ensures Snapshot() == old(Snapshot()).(page := PrevPage(old(page)))
    {
      page := if page - 1 > 1 then page - 1 else 1;
    }

    /** The next-page button, which exists only while the table shows
        records. */
    method Next()
      requires Valid() && |View()| > 0
      modifies this
      ensures Valid()
      ensures Snapshot() == old(Snapshot()).(page := NextPage(old(page), old(TotalPages())))
      ensures 1 <= page <= TotalPages()
    {
      var total := TotalPagesNo(|View()|);
      page := if page + 1 < total then page + 1 else total;
    }

    /** A page-number button. */
    method GoToPage(p: int)
      requires Valid() && p in PageNumbers(TotalPages())
      modifies this
      ensures Valid()
      ensures Snapshot() == old(Snapshot()).(page := p)
      ensures PaginatedItems() != []
    {
      page := p;
      PaginateBounds(View(), p);
    }

    /** The header checkbox: checked selects the ids of the whole view, in
        order (not only the current page); unchecked selects nothing. */
    method SelectAll(checked: bool)
      requires Valid()
      modifies this
      ensures Valid()
      ensures Snapshot() == old(Snapshot()).(selection := if checked then Ids(old(View())) else [])
      ensures !Indeterminate(selection, View())
    {
      var view := FilteredAndSortedURLs(urls, searchTerm, sortBy, sortOrder);
      selection := if checked then Ids(view) else [];
    }

    /** A row checkbox: checking appends the row's id; unchecking removes
        every occurrence of it. */
    method CheckRow(id: int, checked: bool)
      requires Valid()
      modifies this
      ensures Valid()
      ensures Snapshot() == old(Snapshot()).(selection := if checked then old(selection) + [id] else RemoveId(old(selection), id))
      ensures checked ==> id in selection
      ensures !checked ==> id !in selection && multiset(selection) == multiset(old(selection))[id := 0]
    {
      if checked {
        selection := selection + [id];
      } else {
        RemoveIdCounts(selection, id);
        selection := RemoveId(selection, id);
      }
    }

    /** `handleSubmit` (Enter in the URL box, which is disabled while an
        action is pending): starts the add mutation with the box's text
        when there is any. */
    method HandleSubmit() returns (sent: Option<string>)
      requires Valid() && !IsAnyActionPending()
      modifies this
      ensures Valid()
      ensures old(urlInput) == "" ==> sent == None && Snapshot() == old(Snapshot())
      ensures old(urlInput) != "" ==> sent == Some(old(urlInput)) && Snapshot() == old(Snapshot()).(addPending := true)
      ensures sent.Some? <==> IsAnyActionPending()
    {
      if urlInput != "" {
        addPending := true;
        sent := Some(urlInput);
      } else {
        sent := None;
      }
    }

    /** The add mutation settles: success empties the URL box; failure
        leaves it. */
    method AddSettled(success: bool)
      requires Valid() && addPending
      modifies this
      ensures Valid()
      ensures success ==> Snapshot() == old(Snapshot()).(addPending := false, urlInput := "")
      ensures !success ==> Snapshot() == old(Snapshot()).(addPending := false)
    {
      addPending := false;
      if success {
        urlInput := "";
      }
    }

    /** The action bar's "Re-run Analysis" button: sends the selection. */
    method ClickRerun() returns (sent: seq<int>)
      requires Valid() && HasSelection() && !IsAnyActionPending()
      modifies this
      ensures Valid()
      ensures sent == old(selection)
      ensures Snapshot() == old(Snapshot()).(rerunPending := true)
      ensures IsAnyActionPending()
    {
      rerunPending := true;
      sent := selection;
    }

    /** The action bar's "Delete Selected" button: sends the selection. */
    method ClickDelete() returns (sent: seq<int>)
      requires Valid() && HasSelection() && !IsAnyActionPending()
      modifies this
      ensures Valid()
      ensures sent == old(selection)
      ensures Snapshot() == old(Snapshot()).(deletePending := true)
      ensures IsAnyActionPending()
    {
      deletePending := true;
      sent := selection;
    }

    /** The re-run mutation settles. Success clears `selectedURLs`, which
        was already empty; the selection the action bar shows is kept. */
    method RerunSettled(success: bool)
      requires Valid() && rerunPending
      modifies this
      ensures Valid()
      ensures selection == old(selection)
      ensures success ==> Snapshot() == old(Snapshot()).(rerunPending := false, selectedURLs := [])
      ensures !success ==> Snapshot() == old(Snapshot()).(rerunPending := false)
    {
      rerunPending := false;
      if success {
        selectedURLs := [];
      }
    }

    /** The delete mutation settles. Success clears `selectedURLs`, which
        was already empty; the deleted ids stay in the selection, so the
        action bar stays open on them. */
    method DeleteSettled(success: bool)
      requires Valid() && deletePending
      modifies this
      ensures Valid()
      ensures selection == old(selection) && HasSelection() == old(HasSelection())
      ensures success ==> Snapshot() == old(Snapshot()).(deletePending := false, selectedURLs := [])
      ensures !success ==> Snapshot() == old(Snapshot()).(deletePending := false)
    {
      deletePending := false;
      if success {
        selectedURLs := [];
      }
    }
  }
}
