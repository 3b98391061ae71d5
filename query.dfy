/**
 * The read side of the bill collection: `/api/billing-list`
 * (index.js:179-188) and `/api/billing-list/:search` (index.js:192-208),
 * both a `find` -> `sort` -> `skip` -> `limit` chain over the collection in
 * store order.
 *
 * `limit(0)` follows the store's convention that zero means no limit, so a
 * page size of 0 returns everything after the skip (and the skip is then
 * `page * 0 == 0`). A search term is matched as a case-insensitive
 * substring of the full name, email or phone.
 */
module Query {
  import opened Text
  import opened Bills

  function Min(a: int, b: int): int { if a <= b then a else b }

  /** `cursor.skip(n)`: drop the first `n` documents (all of them if there are fewer). */
  function Skip<T>(s: seq<T>, n: nat): seq<T> {
    if n <= |s| then s[n..] else []
  }

  /** `cursor.limit(n)`: at most `n` leading documents, and every document when `n == 0`. */
  function Limit<T>(s: seq<T>, n: nat): seq<T> {
    if n == 0 || |s| <= n then s else s[..n]
  }

  /** `skip(n)` is the suffix from position `n`, clipped to the sequence. */
  lemma SkipIsSuffix<T>(s: seq<T>, n: nat)
    ensures Skip(s, n) == s[Min(n, |s|)..]
    ensures |Skip(s, n)| == |s| - Min(n, |s|)
  {
  }

  /** `limit(n)` is the prefix of length `n`, clipped, and the whole sequence for `n == 0`. */
  lemma LimitIsPrefix<T>(s: seq<T>, n: nat)
    ensures n > 0 ==> Limit(s, n) == s[..Min(n, |s|)]
    ensures n == 0 ==> Limit(s, n) == s
  {
  }

  /** `skip(page * size).limit(size)`. */
  function Page<T>(s: seq<T>, page: nat, size: nat): seq<T> {
    Limit(Skip(s, page * size), size)
  }

  /**
   * For a positive size, a page is the slice
   * `s[min(page*size, n) .. min(page*size + size, n)]`: at most `size`
   * documents, and none once `page * size >= n`.
   */
  lemma PageIsSlice<T>(s: seq<T>, page: nat, size: nat)
    ensures size > 0 ==> Page(s, page, size) == s[Min(page * size, |s|)..Min(page * size + size, |s|)]
    ensures size > 0 ==> |Page(s, page, size)| <= size
    ensures size > 0 && page * size >= |s| ==> Page(s, page, size) == []
  {
    var sk := Skip(s, page * size);
    if page * size <= |s| {
      assert sk == s[page * size..];
    }
  }

  /** Each document of a page sits at a fixed offset from the page's first position. */
  lemma PageElements<T>(s: seq<T>, page: nat, size: nat)
    ensures var p := Page(s, page, size);
            var lo := Min(page * size, |s|);
            && lo + |p| <= |s|
            && forall i :: 0 <= i < |p| ==> p[i] == s[lo + i]
  {
  }

  /** A page holds only documents of the sequence it was cut from. */
  lemma PageInSequence<T>(s: seq<T>, page: nat, size: nat)
    ensures forall x :: x in Page(s, page, size) ==> x in s
  {
    PageElements(s, page, size);
  }

  /** A slice of a newest-first sequence is newest first. */
  lemma SliceOfSorted(s: seq<Bill>, lo: nat, hi: nat)
    requires lo <= hi <= |s|
    requires SortedByTimeDesc(s)
    ensures SortedByTimeDesc(s[lo..hi])
  {
    var t := s[lo..hi];
    forall i, j | 0 <= i < j < |t| ensures t[i].time >= t[j].time {
      assert t[i] == s[lo + i] && t[j] == s[lo + j];
    }
  }

  /** A page of a newest-first sequence is newest first. */
  lemma PageOfSorted(s: seq<Bill>, page: nat, size: nat)
    ensures SortedByTimeDesc(s) ==> SortedByTimeDesc(Page(s, page, size))
  {
    PageIsSlice(s, page, size);
    if size > 0 && SortedByTimeDesc(s) {
      SliceOfSorted(s, Min(page * size, |s|), Min(page * size + size, |s|));
    }
  }

  /** With size 0 there is no limit and no skip: the page is the whole sequence. */
  lemma PageWithoutLimit<T>(s: seq<T>, page: nat)
    ensures Page(s, page, 0) == s
  {
  }

  // ----- the unfiltered list -----

  /** `{count, bills}` of `/api/billing-list`. */
  datatype ListReply = ListReply(count: nat, bills: seq<Bill>)

  /**
   * `/api/billing-list`: one page of the collection in store order, and the
   * collection's size as `count` whatever the page.
   */
  function BillingList(bills: seq<Bill>, page: nat, size: nat): (r: ListReply)
    ensures r.count == |bills|
    ensures size > 0 ==> r.bills == bills[Min(page * size, |bills|)..Min(page * size + size, |bills|)]
    ensures size > 0 ==> |r.bills| <= size
    ensures size > 0 && page * size >= |bills| ==> r.bills == []
    ensures size == 0 ==> r.bills == bills
  {
    PageIsSlice(bills, page, size);
    ListReply(|bills|, Page(bills, page, size))
  }

  // ----- the search -----

  /** The `$or` of three case-insensitive `$regex` conditions, as substring matches. */
  predicate BillMatches(b: Bill, term: string) {
    MatchesIgnoringCase(b.fullName, term) || MatchesIgnoringCase(b.email, term)
    || MatchesIgnoringCase(b.phone, term)
  }

  /**
   * A bill matches exactly when the lower-cased term occurs at some offset
   * of the lower-cased `fullName`, `email` or `phone`.
   */
  lemma BillMatchesIff(b: Bill, term: string)
    ensures BillMatches(b, term)
            <==> || (exists i: nat :: OccursAt(Lower(b.fullName), Lower(term), i))
                 || (exists i: nat :: OccursAt(Lower(b.email), Lower(term), i))
                 || (exists i: nat :: OccursAt(Lower(b.phone), Lower(term), i))
  {
    ContainsIff(Lower(b.fullName), Lower(term));
    ContainsIff(Lower(b.email), Lower(term));
    ContainsIff(Lower(b.phone), Lower(term));
  }

  /** `find({$or: ...})`: the matching documents, in store order. */
  function FilterMatching(bills: seq<Bill>, term: string): (r: seq<Bill>)
    ensures |r| <= |bills|
    decreases |bills|
  {
    if bills == [] then []
    else if BillMatches(bills[0], term) then [bills[0]] + FilterMatching(bills[1..], term)
    else FilterMatching(bills[1..], term)
  }

  /**
   * The filter keeps exactly the matching documents: a document is in the
   * result if and only if it is stored and matches, and no document occurs
   * more often than it is stored.
   */
  lemma {:induction false} FilterExact(bills: seq<Bill>, term: string)
    ensures var r := FilterMatching(bills, term);
            && (forall i :: 0 <= i < |r| ==> BillMatches(r[i], term))
            && (forall b :: b in r <==> b in bills && BillMatches(b, term))
            && multiset(r) <= multiset(bills)
    decreases |bills|
  {
    if bills != [] {
      FilterExact(bills[1..], term);
      assert bills == [bills[0]] + bills[1..];
    }
  }

  /** Filtering distributes over concatenation. */
  lemma {:induction false} FilterAppend(a: seq<Bill>, b: seq<Bill>, term: string)
    ensures FilterMatching(a + b, term) == FilterMatching(a, term) + FilterMatching(b, term)
    decreases |a|
  {
    if a == [] {
      assert a + b == b;
    } else {
      assert (a + b)[0] == a[0];
      assert (a + b)[1..] == a[1..] + b;
      FilterAppend(a[1..], b, term);
    }
  }

  /** The empty term matches every document, so the filter keeps them all. */
  lemma {:induction false} FilterEmptyTerm(bills: seq<Bill>)
    ensures FilterMatching(bills, "") == bills
    decreases |bills|
  {
    if bills != [] {
      ContainsEmpty(Lower(bills[0].fullName));
      assert Lower("") == "";
      FilterEmptyTerm(bills[1..]);
    }
  }

  /** Newest first: `time` never increases along the sequence. */
  ghost predicate SortedByTimeDesc(s: seq<Bill>) {
    forall i, j :: 0 <= i < j < |s| ==> s[i].time >= s[j].time
  }

  /** Put `b` before the first document that is not newer than it. */
  function InsertByTime(b: Bill, s: seq<Bill>): (r: seq<Bill>)
    requires SortedByTimeDesc(s)
    ensures SortedByTimeDesc(r)
    ensures forall i :: 0 <= i < |r| ==> r[i] == b || r[i] in s
    ensures multiset(r) == multiset(s) + multiset{b}
    decreases |s|
  {
    if s == [] || b.time >= s[0].time then
      assert forall i :: 0 <= i < |s| ==> s[i].time <= b.time by {
        forall i | 0 < i < |s| ensures s[i].time <= s[0].time {}
      }
      ConsSorted(b, s);
      [b] + s
    else
      var rest := InsertByTime(b, s[1..]);
      InsertBehindHead(b, s, rest);
      [s[0]] + rest
  }

  /** The head of a sorted sequence, newer than `b`, can lead `b` inserted into the tail. */
  lemma InsertBehindHead(b: Bill, s: seq<Bill>, rest: seq<Bill>)
    requires SortedByTimeDesc(s) && s != [] && b.time < s[0].time
    requires SortedByTimeDesc(rest)
    requires forall i :: 0 <= i < |rest| ==> rest[i] == b || rest[i] in s[1..]
    requires multiset(rest) == multiset(s[1..]) + multiset{b}
    ensures SortedByTimeDesc([s[0]] + rest)
    ensures forall i :: 0 <= i < |rest| + 1 ==> ([s[0]] + rest)[i] == b || ([s[0]] + rest)[i] in s
    ensures multiset([s[0]] + rest) == multiset(s) + multiset{b}
  {
    assert s == [s[0]] + s[1..];
    forall i | 0 <= i < |rest| ensures rest[i].time <= s[0].time {
      if rest[i] != b {
        var j :| 0 <= j < |s[1..]| && s[1..][j] == rest[i];
        assert s[j + 1] == rest[i];
      }
    }
    ConsSorted(s[0], rest);
  }

  /** A document no older than every element of a sorted sequence can lead it. */
  lemma ConsSorted(x: Bill, s: seq<Bill>)
    requires SortedByTimeDesc(s)
    requires forall i :: 0 <= i < |s| ==> s[i].time <= x.time
    ensures SortedByTimeDesc([x] + s)
  {
    forall i, j | 0 <= i < j < |s| + 1 ensures ([x] + s)[i].time >= ([x] + s)[j].time {
      if i > 0 {
        assert ([x] + s)[i] == s[i - 1] && ([x] + s)[j] == s[j - 1];
      }
    }
  }

  /** `sort({time: -1})`, stable: documents with equal `time` keep their store order. */
  function SortByTimeDesc(s: seq<Bill>): (r: seq<Bill>)
    ensures SortedByTimeDesc(r)
    ensures multiset(r) == multiset(s)
    ensures |r| == |s|
    decreases |s|
  {
    if s == [] then []
    else
      assert s == [s[0]] + s[1..];
      var r := InsertByTime(s[0], SortByTimeDesc(s[1..]));
      assert |r| == |multiset(r)|;
      r
  }

  /**
   * The search's candidate set: every document for the empty term (the
   * `search === ""` branch), otherwise the matching ones.
   */
  function Matching(bills: seq<Bill>, term: string): (r: seq<Bill>) {
    if term == "" then bills else FilterMatching(bills, term)
  }

  /** The two branches of the search handler agree: the empty term matches all. */
  lemma MatchingIsFilter(bills: seq<Bill>, term: string)
    ensures Matching(bills, term) == FilterMatching(bills, term)
  {
    if term == "" { FilterEmptyTerm(bills); }
  }

  /** The filtered sequence sorted newest first, before any skip or limit. */
  function SearchResults(bills: seq<Bill>, term: string): seq<Bill> {
    SortByTimeDesc(Matching(bills, term))
  }

  /** Every search result is a stored document that matches the term. */
  lemma SearchResultsSound(bills: seq<Bill>, term: string)
    ensures forall b :: b in SearchResults(bills, term) ==> b in bills && BillMatches(b, term)
  {
    MatchingIsFilter(bills, term);
    FilterExact(bills, term);
    var s := SearchResults(bills, term);
    forall b | b in s ensures b in bills && BillMatches(b, term) {
      assert b in multiset(s);
    }
  }

  /** Every stored document that matches the term is among the results. */
  lemma SearchResultsComplete(bills: seq<Bill>, term: string)
    ensures forall b :: b in bills && BillMatches(b, term) ==> b in SearchResults(bills, term)
  {
    MatchingIsFilter(bills, term);
    FilterExact(bills, term);
    var m := Matching(bills, term);
    forall b | b in bills && BillMatches(b, term) ensures b in SearchResults(bills, term) {
      assert b in multiset(m);
    }
  }

  /** `{bills, count}` of `/api/billing-list/:search`. */
  datatype SearchReply = SearchReply(bills: seq<Bill>, count: nat)

  /**
   * One page of a sorted sequence of matching documents, counted by its own
   * length. The expression chain after `find` and `sort` in the search handler.
   */
  function PageReply(s: seq<Bill>, page: nat, size: nat, ghost bills: seq<Bill>, ghost term: string): (r: SearchReply)
    requires forall b :: b in s ==> b in bills && BillMatches(b, term)
    requires SortedByTimeDesc(s)
    ensures r.count == |r.bills|
    ensures forall b :: b in r.bills ==> b in bills && BillMatches(b, term)
    ensures SortedByTimeDesc(r.bills)
    ensures size > 0 ==> r.bills == s[Min(page * size, |s|)..Min(page * size + size, |s|)]
    ensures size > 0 ==> |r.bills| <= size
    ensures size == 0 ==> r.bills == s
  {
    PageIsSlice(s, page, size);
    PageInSequence(s, page, size);
    PageOfSorted(s, page, size);
    SearchReply(Page(s, page, size), |Page(s, page, size)|)
  }

  /**
   * `/api/billing-list/:search`: the `page`-th page of the matching documents
   * sorted newest first. `count` is the length of that page, not the number
   * of matches.
   */
  function BillingSearch(bills: seq<Bill>, term: string, page: nat, size: nat): (r: SearchReply)
    ensures r.count == |r.bills|
    ensures forall b :: b in r.bills ==> b in bills && BillMatches(b, term)
    ensures SortedByTimeDesc(r.bills)
    ensures var s := SearchResults(bills, term);
            size > 0 ==> r.bills == s[Min(page * size, |s|)..Min(page * size + size, |s|)]
    ensures size > 0 ==> |r.bills| <= size
    ensures size == 0 ==> r.bills == SearchResults(bills, term)
  {
    SearchResultsSound(bills, term);
    PageReply(SearchResults(bills, term), page, size, bills, term)
  }

  /**
   * The search's `count` is the length of the page it sends: every match
   * when there is no limit, otherwise what is left of the matches after the
   * skip, capped at `size`. So it falls short of the number of matches as
   * soon as they do not fit on the page.
   */
  lemma SearchCountIsPageLength(bills: seq<Bill>, term: string, page: nat, size: nat)
    ensures var n := |SearchResults(bills, term)|;
            var r := BillingSearch(bills, term, page, size);
            && (size == 0 ==> r.count == n)
            && (size > 0 ==> r.count == Min(page * size + size, n) - Min(page * size, n))
            && (size > 0 && page == 0 && n > size ==> r.count == size < n)
  {
    var s := SearchResults(bills, term);
    PageLength(s, page, size);
    SearchResultsSound(bills, term);
    assert BillingSearch(bills, term, page, size) == SearchReply(Page(s, page, size), |Page(s, page, size)|);
  }

  /** The length of a page: what is left after the skip, capped at a positive size. */
  lemma PageLength<T>(s: seq<T>, page: nat, size: nat)
    ensures size == 0 ==> |Page(s, page, size)| == |s|
    ensures size > 0 ==> |Page(s, page, size)| == Min(page * size + size, |s|) - Min(page * size, |s|)
    ensures size > 0 && page == 0 && |s| > size ==> |Page(s, page, size)| == size
  {
    PageIsSlice(s, page, size);
    if page == 0 {
      assert page * size == 0;
    }
  }

  /** When every match fits on page 0, that page is the whole sorted result. */
  lemma FirstPageHoldsAll(bills: seq<Bill>, term: string, size: nat)
    requires size == 0 || |SearchResults(bills, term)| <= size
    ensures BillingSearch(bills, term, 0, size).bills == SearchResults(bills, term)
    ensures BillingSearch(bills, term, 0, size).count == |SearchResults(bills, term)|
  {
    var s := SearchResults(bills, term);
    assert s[0..|s|] == s;
  }

  // ----- pagination completeness -----

  /** Pages `0 .. k-1` of size `size`, concatenated. */
  function Pages<T>(s: seq<T>, size: nat, k: nat): seq<T>
    decreases k
  {
    if k == 0 then [] else Pages(s, size, k - 1) + Page(s, k - 1, size)
  }

  /** The first `k` pages are exactly the first `k * size` documents. */
  lemma {:induction false} PagesArePrefix<T>(s: seq<T>, size: nat, k: nat)
    requires size > 0
    ensures Pages(s, size, k) == s[..Min(k * size, |s|)]
    decreases k
  {
    if k > 0 {
      PagesArePrefix(s, size, k - 1);
      PageIsSlice(s, k - 1, size);
      NextPageStart(k, size);
      PrefixExtend(s, (k - 1) * size, k * size);
    }
  }

  /** A prefix followed by the next slice is the longer prefix, both clipped to the sequence. */
  lemma PrefixExtend<T>(s: seq<T>, a: nat, b: nat)
    requires a <= b
    ensures s[..Min(a, |s|)] + s[Min(a, |s|)..Min(b, |s|)] == s[..Min(b, |s|)]
  {
  }

  lemma NextPageStart(k: nat, size: nat)
    requires k > 0
    ensures (k - 1) * size + size == k * size
    ensures (k - 1) * size <= k * size
  {
  }

  lemma MulMonotone(a: nat, b: nat, size: nat)
    requires a <= b
    ensures a * size <= b * size
  {
  }

  /** `ceil(m / size)`, the number of pages that hold `m` documents. */
  function PageCount(m: nat, size: nat): nat
    requires size > 0
  {
    (m + size - 1) / size
  }

  lemma PageCountCovers(m: nat, size: nat)
    requires size > 0
    ensures PageCount(m, size) * size >= m
    ensures PageCount(m, size) * size < m + size
  {
    var k := PageCount(m, size);
    var rem := (m + size - 1) % size;
    assert k * size + rem == m + size - 1;
  }

  /**
   * Pages `0 .. ceil(m/size) - 1` together are the whole sequence: no
   * document is left out or repeated, and every later page is empty.
   */
  lemma PaginationComplete<T>(s: seq<T>, size: nat)
    requires size > 0
    ensures Pages(s, size, PageCount(|s|, size)) == s
    ensures forall k: nat :: k >= PageCount(|s|, size) ==> Page(s, k, size) == []
  {
    var n := PageCount(|s|, size);
    PageCountCovers(|s|, size);
    PagesArePrefix(s, size, n);
    forall k: nat | k >= n ensures Page(s, k, size) == [] {
      MulMonotone(n, k, size);
      PageIsSlice(s, k, size);
    }
  }

  /**
   * Reading the search page by page with a positive size, from page 0 to
   * the last one, reassembles every matching document, newest first.
   */
  lemma SearchPaginationComplete(bills: seq<Bill>, term: string, size: nat)
    requires size > 0
    ensures var s := SearchResults(bills, term);
            && (forall k: nat :: BillingSearch(bills, term, k, size).bills == Page(s, k, size))
            && Pages(s, size, PageCount(|s|, size)) == s
  {
    var s := SearchResults(bills, term);
    PaginationComplete(s, size);
    forall k: nat ensures BillingSearch(bills, term, k, size).bills == Page(s, k, size) {
      PageIsSlice(s, k, size);
    }
  }
}
