/**
 * The in-memory searchable repository: filter, then sort (gated by the
 * repository's list of sortable fields), then cut out one page.
 *
 * The filter is abstract in the source; here it is the parameter
 * `applyFilter`. The value of a sort field (read directly, or through the
 * optional custom getter) is the parameter `getter`, whose results are
 * integers standing for the field's values in their `<` order.
 */
module InMemorySearchable {
  import opened Wrappers
  import opened SearchTypes

  // ---------------------------------------------------------------------
  // The comparator handed to Array.prototype.sort
  // ---------------------------------------------------------------------

  /** The comparator of `applySort` applied to the keys of two items. */
  function Compare(a: int, b: int, asc: bool): int {
    if a < b then (if asc then -1 else 1)
    else if a > b then (if asc then 1 else -1)
    else 0
  }

  /**
   * The comparator answers -1, 0 or 1; 0 exactly for equal keys; a
   * negative answer (first item first) exactly when the keys ascend and
   * `asc` holds, or descend and it does not; and it is consistent:
   * swapping the arguments negates the answer.
   */
  lemma CompareSpec(a: int, b: int, asc: bool)
    ensures var r := Compare(a, b, asc);
      && (r == -1 || r == 0 || r == 1)
      && (r == 0 <==> a == b)
      && (r < 0 <==> (if asc then a < b else b < a))
      && (r > 0 <==> (if asc then b < a else a < b))
      && r == -Compare(b, a, asc)
  {
  }

  /**
   * How one call of `applySort` orders items: the getter of the sort
   * field's value, the field, and whether `sort_dir` is exactly "asc".
   */
  datatype SortOrder<!E> = SortOrder(getter: (E, string) -> int, field: string, asc: bool) {

    /** The value the comparator reads from an item. */
    function Key(x: E): int {
      getter(x, field)
    }

    /** The comparator puts `x` strictly before `y`. */
    predicate Before(x: E, y: E) {
      Compare(Key(x), Key(y), asc) < 0
    }

    /** `x` may stand before `y` in the output: keys non-decreasing for "asc", else non-increasing. */
    predicate InOrder(x: E, y: E) {
      if asc then Key(x) <= Key(y) else Key(x) >= Key(y)
    }
  }

  // ---------------------------------------------------------------------
  // A stable sort by key, as a function
  // ---------------------------------------------------------------------

  /**
   * Where `x` goes when it is inserted after `s`: to the left of exactly
   * the trailing items that the comparator puts after it.
   */
  function InsertPos<E>(s: seq<E>, x: E, o: SortOrder<E>): (p: nat)
    ensures p <= |s|
    ensures forall k {:trigger o.Before(x, s[k])} :: p <= k < |s| ==> o.Before(x, s[k])
    ensures p == 0 || !o.Before(x, s[p - 1])
  {
    if s == [] then 0
    else if o.Before(x, s[|s| - 1]) then InsertPos(s[..|s| - 1], x, o)
    else |s|
  }

  /** The two conditions above single out one index. */
  lemma InsertPosUnique<E>(s: seq<E>, x: E, o: SortOrder<E>, j: nat)
    requires j <= |s|
    requires forall k :: j <= k < |s| ==> o.Before(x, s[k])
    requires j == 0 || !o.Before(x, s[j - 1])
    ensures j == InsertPos(s, x, o)
  {
  }

  /**
   * Inserts `x` into `s` at its position. Items with a key equal to that of
   * `x` stay before it, which is what makes the sort stable.
   */
  function Insert<E>(s: seq<E>, x: E, o: SortOrder<E>): (r: seq<E>)
    ensures |r| == |s| + 1
    ensures multiset(r) == multiset(s) + multiset{x}
  {
    var p := InsertPos(s, x, o);
    assert s == s[..p] + s[p..];
    s[..p] + [x] + s[p..]
  }

  /** The items of `s` in the order a stable sort with the comparator gives. */
  function SortByKey<E>(s: seq<E>, o: SortOrder<E>): (r: seq<E>)
    ensures |r| == |s|
    ensures multiset(r) == multiset(s)
  {
    if s == [] then []
    else
      assert s == s[..|s| - 1] + [s[|s| - 1]];
      Insert(SortByKey(s[..|s| - 1], o), s[|s| - 1], o)
  }

  /** Every pair of items is in the order the direction asks for. */
  ghost predicate SortedByKey<E>(s: seq<E>, o: SortOrder<E>) {
    forall i, j :: 0 <= i < j < |s| ==> o.InOrder(s[i], s[j])
  }

  lemma InsertKeepsSorted<E>(s: seq<E>, x: E, o: SortOrder<E>)
    requires SortedByKey(s, o)
    ensures SortedByKey(Insert(s, x, o), o)
  {
    var p := InsertPos(s, x, o);
    var r := Insert(s, x, o);
    assert r == s[..p] + [x] + s[p..];
    assert forall i :: 0 <= i < p ==> r[i] == s[i];
    assert r[p] == x;
    assert forall i :: p < i < |r| ==> r[i] == s[i - 1];
    forall i, j | 0 <= i < j < |r| ensures o.InOrder(r[i], r[j]) {
      if j == p {
        assert o.InOrder(s[i], s[p - 1]) || i == p - 1;
      } else if i == p {
        assert o.Before(x, s[j - 1]);
      } else if i < p < j {
        assert o.InOrder(s[i], s[p - 1]) || i == p - 1;
        assert o.Before(x, s[j - 1]);
      }
    }
  }

  /** The result of the sort is ordered by key in the requested direction. */
  lemma {:induction false} SortByKeySorted<E>(s: seq<E>, o: SortOrder<E>)
    ensures SortedByKey(SortByKey(s, o), o)
  {
    if s != [] {
      SortByKeySorted(s[..|s| - 1], o);
      InsertKeepsSorted(SortByKey(s[..|s| - 1], o), s[|s| - 1], o);
    }
  }

  /** The subsequence of `s` made of the items whose key is `k`, in their order in `s`. */
  function KeyClass<E>(s: seq<E>, o: SortOrder<E>, k: int): seq<E> {
    if s == [] then []
    else KeyClass(s[..|s| - 1], o, k) + (if o.Key(s[|s| - 1]) == k then [s[|s| - 1]] else [])
  }

  lemma {:induction false} KeyClassAppend<E>(a: seq<E>, b: seq<E>, o: SortOrder<E>, k: int)
    ensures KeyClass(a + b, o, k) == KeyClass(a, o, k) + KeyClass(b, o, k)
  {
    if b == [] {
      assert a + b == a;
    } else {
      assert (a + b)[..|a + b| - 1] == a + b[..|b| - 1];
      KeyClassAppend(a, b[..|b| - 1], o, k);
    }
  }

  lemma {:induction false} KeyClassEmpty<E>(s: seq<E>, o: SortOrder<E>, k: int)
    requires forall i :: 0 <= i < |s| ==> o.Key(s[i]) != k
    ensures KeyClass(s, o, k) == []
  {
    if s != [] {
      KeyClassEmpty(s[..|s| - 1], o, k);
    }
  }

  lemma InsertKeyClass<E>(s: seq<E>, x: E, o: SortOrder<E>, k: int)
    ensures KeyClass(Insert(s, x, o), o, k) == KeyClass(s, o, k) + KeyClass([x], o, k)
  {
    var p := InsertPos(s, x, o);
    var front, back := s[..p], s[p..];
    var kf, kx, kb := KeyClass(front, o, k), KeyClass([x], o, k), KeyClass(back, o, k);
    assert KeyClass(s, o, k) == kf + kb by {
      assert s == front + back;
      KeyClassAppend(front, back, o, k);
    }
    assert KeyClass(Insert(s, x, o), o, k) == kf + kx + kb by {
      assert Insert(s, x, o) == (front + [x]) + back;
      KeyClassAppend(front + [x], back, o, k);
      KeyClassAppend(front, [x], o, k);
    }
    assert kx == [] || kb == [] by {
      KeyClassAfterInsertPos(s, x, o, k);
    }
    // kb is empty when kx is not: the two middle pieces commute
    Commute(kf, kx, kb);
  }

  /** No item the comparator puts after `x` has the key of `x`. */
  lemma KeyClassAfterInsertPos<E>(s: seq<E>, x: E, o: SortOrder<E>, k: int)
    ensures var p := InsertPos(s, x, o);
      KeyClass([x], o, k) == [] || KeyClass(s[p..], o, k) == []
  {
    var p := InsertPos(s, x, o);
    var back := s[p..];
    KeyClassSingle(x, o, k);
    if o.Key(x) == k {
      forall i | 0 <= i < |back| ensures o.Key(back[i]) != k {
        assert back[i] == s[p + i];
        assert o.Before(x, s[p + i]);
      }
      KeyClassEmpty(back, o, k);
    }
  }

  lemma Commute<T>(a: seq<T>, x: seq<T>, b: seq<T>)
    requires x == [] || b == []
    ensures a + x + b == a + b + x
  {
  }

  lemma KeyClassSingle<E>(x: E, o: SortOrder<E>, k: int)
    ensures KeyClass([x], o, k) == if o.Key(x) == k then [x] else []
  {
    assert [x][..0] == [];
  }

  /**
   * Stability: for every key, the items with that key appear in the
   * output in the same relative order as in the input.
   */
  lemma {:induction false} SortByKeyStable<E>(s: seq<E>, o: SortOrder<E>, k: int)
    ensures KeyClass(SortByKey(s, o), o, k) == KeyClass(s, o, k)
  {
    if s != [] {
      var init, last := s[..|s| - 1], s[|s| - 1];
      SortByKeyStable(init, o, k);
      InsertKeyClass(SortByKey(init, o), last, o, k);
      KeyClassSingle(last, o, k);
    }
  }

  // ---------------------------------------------------------------------
  // applySort
  // ---------------------------------------------------------------------

  /** `sort` is truthy (neither null nor "") and is one of the sortable fields. */
  predicate SortApplies(sortableFields: seq<string>, sort: Option<string>) {
    sort.Some? && sort.value != "" && sort.value in sortableFields
  }

  /** The order of one call: the requested field, ascending only for exactly "asc". */
  function OrderFor<E>(getter: (E, string) -> int, sort: string, sort_dir: Option<SortDirection>): SortOrder<E> {
    SortOrder(getter, sort, sort_dir == Some(Asc))
  }

  /** What `applySort` returns, as a value. */
  function SortedItems<E>(items: seq<E>, sortableFields: seq<string>, sort: Option<string>,
                          sort_dir: Option<SortDirection>, getter: (E, string) -> int): (r: seq<E>)
    ensures !SortApplies(sortableFields, sort) ==> r == items
    ensures multiset(r) == multiset(items)
  {
    if !SortApplies(sortableFields, sort) then items
    else SortByKey(items, OrderFor(getter, sort.value, sort_dir))
  }

  /**
   * When the sort applies, the output is a permutation of the input
   * ordered by the sort field, non-decreasing for "asc" and non-increasing
   * for anything else (null included), and items with equal keys keep
   * their input order.
   */
  lemma SortedItemsOrdered<E>(items: seq<E>, sortableFields: seq<string>, sort: Option<string>,
                              sort_dir: Option<SortDirection>, getter: (E, string) -> int)
    requires SortApplies(sortableFields, sort)
    ensures var r := SortedItems(items, sortableFields, sort, sort_dir, getter);
      && multiset(r) == multiset(items)
      && (forall i, j :: 0 <= i < j < |r| ==>
            if sort_dir == Some(Asc) then getter(r[i], sort.value) <= getter(r[j], sort.value)
            else getter(r[i], sort.value) >= getter(r[j], sort.value))
      && forall k :: KeyClass(r, OrderFor(getter, sort.value, sort_dir), k)
                  == KeyClass(items, OrderFor(getter, sort.value, sort_dir), k)
  {
    var o := OrderFor(getter, sort.value, sort_dir);
    SortByKeySorted(items, o);
    forall k ensures KeyClass(SortByKey(items, o), o, k) == KeyClass(items, o, k) {
      SortByKeyStable(items, o, k);
    }
  }

  /**
   * `applySort`: returns the very same array when the sort does not apply;
   * otherwise sorts a fresh copy, leaving `items` untouched.
   */
  method ApplySort<E>(items: array<E>, sortableFields: seq<string>, sort: Option<string>,
                      sort_dir: Option<SortDirection>, getter: (E, string) -> int)
    returns (r: array<E>)
    ensures !SortApplies(sortableFields, sort) ==> r == items
    ensures SortApplies(sortableFields, sort) ==> fresh(r)
    ensures r[..] == SortedItems(items[..], sortableFields, sort, sort_dir, getter)
  {
    if !SortApplies(sortableFields, sort) {
      return items;
    }
    r := new E[items.Length](i reads items requires 0 <= i < items.Length => items[i]);
    assert r[..] == items[..];
    SortInPlace(r, OrderFor(getter, sort.value, sort_dir));
  }

  /** The in-place sort of the copy: an insertion sort, stable like the engine's. */
  method SortInPlace<E>(a: array<E>, o: SortOrder<E>)
    modifies a
    ensures a[..] == SortByKey(old(a[..]), o)
  {
    ghost var input := a[..];
    var i := 0;
    while i < a.Length
      invariant 0 <= i <= a.Length
      invariant a[..i] == SortByKey(input[..i], o)
      invariant forall k :: i <= k < a.Length ==> a[k] == input[k]
    {
      SortByKeyPrefix(input, o, i);
      InsertLast(a, i, o);
      i := i + 1;
    }
    assert a[..] == a[..a.Length];
    assert input[..a.Length] == input;
  }

  /** Sorting one more item of the input is inserting it into the sorted prefix. */
  lemma SortByKeyPrefix<E>(s: seq<E>, o: SortOrder<E>, i: nat)
    requires i < |s|
    ensures SortByKey(s[..i + 1], o) == Insert(SortByKey(s[..i], o), s[i], o)
  {
    assert s[..i + 1][..i] == s[..i];
  }

  /** One step of the insertion sort: moves `a[i]` into place within `a[..i + 1]`. */
  method InsertLast<E>(a: array<E>, i: nat, o: SortOrder<E>)
    requires i < a.Length
    modifies a
    ensures a[..i + 1] == Insert(old(a[..i]), old(a[i]), o)
    ensures forall k :: i < k < a.Length ==> a[k] == old(a[k])
  {
    var x := a[i];
    ghost var sorted := a[..i];
    var j := i;
    while j > 0 && o.Before(x, a[j - 1])
      invariant 0 <= j <= i
      invariant forall k :: 0 <= k < j ==> a[k] == sorted[k]
      invariant forall k :: j < k <= i ==> a[k] == sorted[k - 1]
      invariant forall k :: i < k < a.Length ==> a[k] == old(a[k])
      invariant forall k :: j <= k < i ==> o.Before(x, sorted[k])
    {
      a[j] := a[j - 1];
      j := j - 1;
    }
    a[j] := x;
    InsertPosUnique(sorted, x, o, j);
    InsertShifted(a[..], sorted, x, o, j);
    assert a[..][..i + 1] == a[..i + 1];
  }

  /** The array after the shifting loop holds `Insert(sorted, x, o)` in its first |sorted| + 1 cells. */
  lemma InsertShifted<E>(b: seq<E>, sorted: seq<E>, x: E, o: SortOrder<E>, j: nat)
    requires j == InsertPos(sorted, x, o) && |sorted| < |b|
    requires forall k :: 0 <= k < j ==> b[k] == sorted[k]
    requires b[j] == x
    requires forall k :: j < k <= |sorted| ==> b[k] == sorted[k - 1]
    ensures b[..|sorted| + 1] == Insert(sorted, x, o)
  {
    var placed := Insert(sorted, x, o);
    assert placed == sorted[..j] + [x] + sorted[j..];
    forall k | 0 <= k <= |sorted| ensures b[k] == placed[k] {
      if k < j {
        assert placed[k] == sorted[k];
      } else if k > j {
        assert placed[k] == sorted[k - 1];
      }
    }
  }

  // ---------------------------------------------------------------------
  // applyPaginate
  // ---------------------------------------------------------------------

  function Min(a: int, b: int): int {
    if a <= b then a else b
  }

  /** `Array.prototype.slice(start, end)` for non-negative bounds: clipped to the length. */
  function Slice<E>(s: seq<E>, start: nat, end: nat): (r: seq<E>)
    requires start <= end
    ensures |r| == Min(end, |s|) - Min(start, |s|)
    ensures forall i :: 0 <= i < |r| ==> start + i < |s| && r[i] == s[start + i]
  {
    s[Min(start, |s|)..Min(end, |s|)]
  }

  /** Index of the first item of `page`: (page - 1) * per_page. */
  function PageStart(page: nat, per_page: nat): nat
    requires page >= 1
  {
    (page - 1) * per_page
  }

  /**
   * `applyPaginate`: the items at indices
   * [(page - 1) * per_page, (page - 1) * per_page + per_page), clipped to the input.
   */
  function ApplyPaginate<E>(items: seq<E>, page: nat, per_page: nat): (r: seq<E>)
    requires page >= 1 && per_page >= 1
    ensures |r| <= per_page
    ensures |r| == if PageStart(page, per_page) >= |items| then 0
                   else Min(per_page, |items| - PageStart(page, per_page))
    ensures forall i :: 0 <= i < |r| ==>
              PageStart(page, per_page) + i < |items| && r[i] == items[PageStart(page, per_page) + i]
  {
    var start := PageStart(page, per_page);
    var limit := start + per_page;
    Slice(items, start, limit)
  }

  /** A page is a contiguous piece of its input, so its multiset is contained in the input's. */
  lemma ApplyPaginateSubBag<E>(items: seq<E>, page: nat, per_page: nat)
    requires page >= 1 && per_page >= 1
    ensures multiset(ApplyPaginate(items, page, per_page)) <= multiset(items)
  {
    var lo := Min(PageStart(page, per_page), |items|);
    var hi := Min(PageStart(page, per_page) + per_page, |items|);
    assert items == items[..lo] + items[lo..hi] + items[hi..];
    assert ApplyPaginate(items, page, per_page) == items[lo..hi];
  }

  /** Pages 1 to n of `items`, concatenated. */
  function Pages<E>(items: seq<E>, per_page: nat, n: nat): seq<E>
    requires per_page >= 1
  {
    if n == 0 then [] else Pages(items, per_page, n - 1) + ApplyPaginate(items, n, per_page)
  }

  /** Pages 1 to n together are the first n * per_page items (or all of them). */
  lemma {:induction false} PagesArePrefix<E>(items: seq<E>, per_page: nat, n: nat)
    requires per_page >= 1
    ensures Pages(items, per_page, n) == items[..Min(n * per_page, |items|)]
  {
    if n > 0 {
      PagesArePrefix(items, per_page, n - 1);
      var lo := Min(PageStart(n, per_page), |items|);
      var hi := Min(n * per_page, |items|);
      assert (n - 1) * per_page + per_page == n * per_page;
      assert ApplyPaginate(items, n, per_page) == items[lo..hi];
      assert items[..hi] == items[..lo] + items[lo..hi];
    }
  }

  lemma {:induction false} MulMonotonic(a: nat, b: nat, c: nat)
    requires a <= b
    ensures a * c <= b * c
  {
    if a < b {
      MulMonotonic(a, b - 1, c);
      assert b * c == (b - 1) * c + c;
    }
  }

  /**
   * Pages 1 to ceil(|items| / per_page) reproduce `items` exactly, so their
   * lengths add up to the total, and every later page is empty.
   */
  lemma PagesCoverAll<E>(items: seq<E>, per_page: nat)
    requires per_page >= 1
    ensures Pages(items, per_page, LastPage(|items|, per_page)) == items
    ensures forall p :: p > LastPage(|items|, per_page) ==> ApplyPaginate(items, p, per_page) == []
  {
    var n := LastPage(|items|, per_page);
    PagesArePrefix(items, per_page, n);
    assert Min(n * per_page, |items|) == |items|;
    assert items[..|items|] == items;
    forall p | p > n ensures ApplyPaginate(items, p, per_page) == [] {
      PastLastPage(|items|, per_page, p);
    }
  }

  /** A page after the last one starts at or beyond the end. */
  lemma PastLastPage(total: nat, per_page: nat, p: nat)
    requires per_page >= 1 && p > LastPage(total, per_page)
    ensures PageStart(p, per_page) >= total
  {
    MulMonotonic(LastPage(total, per_page), p - 1, per_page);
  }

  // ---------------------------------------------------------------------
  // search
  // ---------------------------------------------------------------------

  /** `search`: filter, sort, paginate, and report the filtered count as the total. */
  function Search<E, Filter>(items: seq<E>, sortableFields: seq<string>,
                             applyFilter: (seq<E>, Option<Filter>) -> seq<E>,
                             getter: (E, string) -> int, params: SearchParams<Filter>): (r: SearchResult<E>)
    requires ValidPaging(params)
    ensures r.total == |applyFilter(items, params.filter)|
    ensures r.current_page == params.page && r.per_page == params.per_page
    ensures |r.items| <= params.per_page
    ensures PageStart(params.page, params.per_page) >= r.total ==> r.items == []
  {
    var itemsFiltered := applyFilter(items, params.filter);
    var itemsSorted := SortedItems(itemsFiltered, sortableFields, params.sort, params.sort_dir, getter);
    var itemsPaginated := ApplyPaginate(itemsSorted, params.page, params.per_page);
    SearchResult(itemsPaginated, |itemsFiltered|, params.page, params.per_page)
  }

  /** Every item of a page is one of the filtered items, counted with multiplicity. */
  lemma SearchItemsAreFiltered<E, Filter>(items: seq<E>, sortableFields: seq<string>,
                                          applyFilter: (seq<E>, Option<Filter>) -> seq<E>,
                                          getter: (E, string) -> int, params: SearchParams<Filter>)
    requires ValidPaging(params)
    ensures multiset(Search(items, sortableFields, applyFilter, getter, params).items)
         <= multiset(applyFilter(items, params.filter))
  {
    var sorted := SortedItems(applyFilter(items, params.filter), sortableFields, params.sort, params.sort_dir, getter);
    ApplyPaginateSubBag(sorted, params.page, params.per_page);
  }

  /** A sort field that is empty or not sortable gives the same result as no sort at all. */
  lemma SearchIgnoresUnsortableField<E, Filter>(items: seq<E>, sortableFields: seq<string>,
                                                applyFilter: (seq<E>, Option<Filter>) -> seq<E>,
                                                getter: (E, string) -> int, params: SearchParams<Filter>)
    requires ValidPaging(params)
    requires !SortApplies(sortableFields, params.sort)
    ensures Search(items, sortableFields, applyFilter, getter, params)
         == Search(items, sortableFields, applyFilter, getter, params.(sort := None))
    ensures Search(items, sortableFields, applyFilter, getter, params).items
         == ApplyPaginate(applyFilter(items, params.filter), params.page, params.per_page)
  {
  }

  /** Search results 1 to n for the same request, concatenated. */
  function SearchPages<E, Filter>(items: seq<E>, sortableFields: seq<string>,
                                  applyFilter: (seq<E>, Option<Filter>) -> seq<E>,
                                  getter: (E, string) -> int, params: SearchParams<Filter>, n: nat): seq<E>
    requires params.per_page >= 1
  {
    if n == 0 then []
    else
      SearchPages(items, sortableFields, applyFilter, getter, params, n - 1)
      + Search(items, sortableFields, applyFilter, getter, params.(page := n)).items
  }

  /**
   * Walking the pages from 1 to ceil(total / per_page) yields the whole
   * filtered and sorted list, so the page lengths add up to `total`; the
   * total is the same on every page.
   */
  lemma {:induction false} SearchPagesCoverAll<E, Filter>(items: seq<E>, sortableFields: seq<string>,
                                                          applyFilter: (seq<E>, Option<Filter>) -> seq<E>,
                                                          getter: (E, string) -> int, params: SearchParams<Filter>)
    requires ValidPaging(params)
    ensures var filtered := applyFilter(items, params.filter);
            var all := SearchPages(items, sortableFields, applyFilter, getter, params, LastPage(|filtered|, params.per_page));
      && all == SortedItems(filtered, sortableFields, params.sort, params.sort_dir, getter)
      && |all| == Search(items, sortableFields, applyFilter, getter, params).total
  {
    var filtered := applyFilter(items, params.filter);
    var sorted := SortedItems(filtered, sortableFields, params.sort, params.sort_dir, getter);
    var n := LastPage(|filtered|, params.per_page);
    SearchPagesArePages(items, sortableFields, applyFilter, getter, params, n);
    PagesCoverAll(sorted, params.per_page);
  }

  /** The items of one search are the requested page of the filtered, sorted list. */
  lemma SearchItems<E, Filter>(items: seq<E>, sortableFields: seq<string>,
                               applyFilter: (seq<E>, Option<Filter>) -> seq<E>,
                               getter: (E, string) -> int, params: SearchParams<Filter>)
    requires ValidPaging(params)
    ensures Search(items, sortableFields, applyFilter, getter, params).items
         == ApplyPaginate(SortedItems(applyFilter(items, params.filter), sortableFields, params.sort, params.sort_dir, getter),
                          params.page, params.per_page)
  {
  }

  lemma {:induction false} SearchPagesArePages<E, Filter>(items: seq<E>, sortableFields: seq<string>,
                                                          applyFilter: (seq<E>, Option<Filter>) -> seq<E>,
                                                          getter: (E, string) -> int, params: SearchParams<Filter>, n: nat)
    requires params.per_page >= 1
    ensures SearchPages(items, sortableFields, applyFilter, getter, params, n)
         == Pages(SortedItems(applyFilter(items, params.filter), sortableFields, params.sort, params.sort_dir, getter),
                  params.per_page, n)
  {
    if n > 0 {
      SearchPagesArePages(items, sortableFields, applyFilter, getter, params, n - 1);
      SearchItems(items, sortableFields, applyFilter, getter, params.(page := n));
    }
  }

  /** Twenty matching items at fifteen per page: the second page holds the last five. */
  lemma SecondPageOfTwenty<E, Filter>(items: seq<E>, sortableFields: seq<string>,
                                      applyFilter: (seq<E>, Option<Filter>) -> seq<E>,
                                      getter: (E, string) -> int, params: SearchParams<Filter>)
    requires ValidPaging(params) && params.page == 2 && params.per_page == 15
    requires |applyFilter(items, params.filter)| == 20
    ensures |Search(items, sortableFields, applyFilter, getter, params).items| == 5
    ensures Search(items, sortableFields, applyFilter, getter, params).total == 20
  {
  }

  /** Names "c", "a", "b" (keys 3, 1, 2) sorted by name ascending come out "a", "b", "c". */
  lemma ThreeNamesAscending()
    ensures SortedItems([3, 1, 2], ["name"], Some("name"), Some(Asc), (x: int, field: string) => x) == [1, 2, 3]
  {
    var o := OrderFor((x: int, field: string) => x, "name", Some(Asc));
    assert o.Before(1, 3) && o.Before(2, 3) && !o.Before(2, 1);
    SortThree(o);
  }

  lemma SortThree(o: SortOrder<int>)
    requires o.Before(1, 3) && o.Before(2, 3) && !o.Before(2, 1)
    ensures SortByKey([3, 1, 2], o) == [1, 2, 3]
  {
    SortTwo(o);
    InsertTwo(o);
    assert [3, 1, 2][..2] == [3, 1];
  }

  lemma SortTwo(o: SortOrder<int>)
    requires o.Before(1, 3)
    ensures SortByKey([3, 1], o) == [1, 3]
  {
    assert [3, 1][..1] == [3];
    assert [3][..0] == [];
    assert SortByKey([3], o) == [3];
    assert InsertPos([3], 1, o) == 0;
  }

  lemma InsertTwo(o: SortOrder<int>)
    requires o.Before(2, 3) && !o.Before(2, 1)
    ensures Insert([1, 3], 2, o) == [1, 2, 3]
  {
    assert [1, 3][..1] == [1];
    assert InsertPos([1, 3], 2, o) == 1;
  }
}
