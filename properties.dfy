/**
 * What the pagination driver guarantees, stated about its specification `Expected`
 * (which `CollectRecords` is proved to compute): the two ceilings, the accounting of
 * soft failures, append-only records in catalogue order, and a description of where
 * the walk stops that does not follow the loop.
 */
module PaginationProperties {
  import opened Catalogue
  import opened Pagination
  import opened Writer

  // ---------------------------------------------------------------------------
  // Counting records and failures

  /** Every attempted book either yields one record or is one failed detail fetch. */
  lemma {:induction false} SuccessesCount(items: seq<ListingItem>)
    ensures |Successes(items)| + Failures(items) == |items|
    decreases |items|
  {
    if items != [] {
      SuccessesCount(items[..|items| - 1]);
    }
  }

  /** A book whose detail fetch fails is skipped: the books before and after it still contribute their records. */
  lemma FailedItemSkipped(before: seq<ListingItem>, item: ListingItem, after: seq<ListingItem>)
    requires item.detail.FetchFailed?
    ensures Successes(before + [item] + after) == Successes(before) + Successes(after)
  {
    SuccessesSnoc(before, item);
    assert Successes(before + [item]) == Successes(before) + [];
    assert Successes(before) + [] == Successes(before);
    SuccessesAppend(before + [item], after);
  }

  /** Attempting more books only appends records: the earlier records stay as they were. */
  lemma SuccessesGrow(a: seq<ListingItem>, b: seq<ListingItem>)
    requires a <= b
    ensures Successes(a) <= Successes(b)
  {
    assert b == a + b[|a|..];
    SuccessesAppend(a, b[|a|..]);
  }

  /** With no failed detail fetch, every attempted book yields its record. */
  lemma {:induction false} NoFailureNoLoss(items: seq<ListingItem>)
    requires forall k :: 0 <= k < |items| ==> items[k].detail.Fetched?
    ensures Failures(items) == 0 && |Successes(items)| == |items|
    decreases |items|
  {
    if items != [] {
      NoFailureNoLoss(items[..|items| - 1]);
    }
    SuccessesCount(items);
  }

  // ---------------------------------------------------------------------------
  // The two ceilings

  /**
   * At most BookLimit detail fetches, at most PageLimit catalogue fetches; the page counter
   * goes one past the limit only when that limit is what stops the run; the book counter
   * is the number of records plus the number of failed detail fetches.
   */
  lemma ExpectedBounds(catalogue: seq<CataloguePage>)
    ensures Expected(catalogue).bookCount <= BookLimit
    ensures |Expected(catalogue).records| + Failures(Attempted(catalogue)) == Expected(catalogue).bookCount
    ensures |Expected(catalogue).records| <= Expected(catalogue).bookCount
    ensures 1 <= Expected(catalogue).pageCount <= PageLimit + 1
    ensures Expected(catalogue).pageCount == PageLimit + 1 <==> Expected(catalogue).reason == PageLimitReached
    ensures 1 <= CatalogueFetches(Expected(catalogue)) <= PageLimit
  {
    WalkBounds(catalogue, 0, 0);
    SuccessesCount(Attempted(catalogue));
  }

  // ---------------------------------------------------------------------------
  // Where the walk stops, described without the loop

  /** The number of books listed on the first `n` catalogue pages. */
  function Seen(catalogue: seq<CataloguePage>, n: nat): nat
    requires n <= |catalogue|
  {
    if n == 0 then 0 else Seen(catalogue, n - 1) + |ItemsOf(catalogue[n - 1])|
  }

  lemma {:induction false} SeenIsListedLength(catalogue: seq<CataloguePage>, n: nat)
    requires n <= |catalogue|
    ensures |Listed(catalogue, n)| == Seen(catalogue, n)
  {
    if n > 0 {
      SeenIsListedLength(catalogue, n - 1);
    }
  }

  /** Page `j` was fetched and lists at least one book. */
  predicate Enumerable(catalogue: seq<CataloguePage>, j: nat)
  {
    j < |catalogue| && catalogue[j].Listing? && |catalogue[j].items| > 0
  }

  /** After page `j` the run goes on to page `j + 1`: the books so far are under the limit and there is a "next" link. */
  predicate Advances(catalogue: seq<CataloguePage>, j: nat)
  {
    Enumerable(catalogue, j) && Seen(catalogue, j + 1) < BookLimit && catalogue[j].hasNext
  }

  predicate AdvancesThrough(catalogue: seq<CataloguePage>, n: nat)
  {
    n <= |catalogue| && forall j :: 0 <= j < n ==> Advances(catalogue, j)
  }

  /** The conditions under which the run stops with `s`, one reason at a time. */
  predicate StopsAt(catalogue: seq<CataloguePage>, s: Stop)
  {
    s.pages <= PageLimit &&
    match s.reason
    case PageLimitReached =>
      s.pages == PageLimit && AdvancesThrough(catalogue, s.pages)
    case CatalogueFetchError =>
      s.pages < PageLimit && AdvancesThrough(catalogue, s.pages)
      && (s.pages == |catalogue| || catalogue[s.pages].FetchError?)
    case EmptyPage =>
      s.pages < PageLimit && AdvancesThrough(catalogue, s.pages)
      && s.pages < |catalogue| && catalogue[s.pages].Listing? && |catalogue[s.pages].items| == 0
    case BookLimitReached =>
      0 < s.pages && AdvancesThrough(catalogue, s.pages - 1) && Enumerable(catalogue, s.pages - 1)
      && Seen(catalogue, s.pages) >= BookLimit
    case NoNextLink =>
      0 < s.pages && AdvancesThrough(catalogue, s.pages - 1) && Enumerable(catalogue, s.pages - 1)
      && Seen(catalogue, s.pages) < BookLimit && !catalogue[s.pages - 1].hasNext
  }

  /** From any page reached by advancing, the walk stops as StopsAt describes. */
  lemma {:induction false} WalkStopsAt(catalogue: seq<CataloguePage>, i: nat)
    requires i <= PageLimit && AdvancesThrough(catalogue, i)
    ensures StopsAt(catalogue, Walk(catalogue, i, Seen(catalogue, i)))
    decreases PageLimit - i
  {
    if i < PageLimit && i < |catalogue| && catalogue[i].Listing? && |catalogue[i].items| > 0 {
      assert Seen(catalogue, i + 1) == Seen(catalogue, i) + |catalogue[i].items|;
      if Seen(catalogue, i + 1) < BookLimit && catalogue[i].hasNext {
        assert Advances(catalogue, i);
        assert AdvancesThrough(catalogue, i + 1);
        WalkStopsAt(catalogue, i + 1);
      }
    }
  }

  /** The index of the page at which the run decides to stop. */
  function StopIndex(s: Stop): nat
  {
    if (s.reason == BookLimitReached || s.reason == NoNextLink) && s.pages > 0 then s.pages - 1 else s.pages
  }

  lemma StopsAtShape(catalogue: seq<CataloguePage>, s: Stop)
    requires StopsAt(catalogue, s)
    ensures AdvancesThrough(catalogue, StopIndex(s))
    ensures StopIndex(s) <= PageLimit
    ensures StopIndex(s) == PageLimit <==> s.reason == PageLimitReached
    ensures StopIndex(s) < PageLimit ==> !Advances(catalogue, StopIndex(s))
  {
  }

  /** At most one stop satisfies StopsAt. */
  lemma StopsAtUnique(catalogue: seq<CataloguePage>, s1: Stop, s2: Stop)
    requires StopsAt(catalogue, s1) && StopsAt(catalogue, s2)
    ensures s1 == s2
  {
    StopsAtShape(catalogue, s1);
    StopsAtShape(catalogue, s2);
    var k1, k2 := StopIndex(s1), StopIndex(s2);
    if k1 < k2 {
      assert false;
    } else if k2 < k1 {
      assert false;
    }
  }

  /** The loop-shaped `Walk` and the declarative StopsAt agree, in both directions. */
  lemma WalkIffStopsAt(catalogue: seq<CataloguePage>, s: Stop)
    ensures Walk(catalogue, 0, 0) == s <==> StopsAt(catalogue, s)
  {
    WalkStopsAt(catalogue, 0);
    if StopsAt(catalogue, s) {
      StopsAtUnique(catalogue, Walk(catalogue, 0, 0), s);
    }
  }

  // ---------------------------------------------------------------------------
  // The book limit, and books attempted in catalogue order

  /** The books listed on the enumerated pages reach the book limit exactly when the book limit is the stop reason. */
  lemma SeenAtStop(catalogue: seq<CataloguePage>)
    ensures var s := Walk(catalogue, 0, 0);
      s.pages <= |catalogue| && (Seen(catalogue, s.pages) >= BookLimit <==> s.reason == BookLimitReached)
  {
    var s := Walk(catalogue, 0, 0);
    WalkBounds(catalogue, 0, 0);
    WalkStopsAt(catalogue, 0);
    SeenIsListedLength(catalogue, s.pages);
    if s.reason != BookLimitReached && s.reason != NoNextLink && s.pages > 0 {
      assert Advances(catalogue, s.pages - 1);
    }
  }

  /**
   * The run stops for the book limit exactly when the book counter reaches it; otherwise
   * every book listed on every enumerated page was attempted, so a failed catalogue fetch,
   * an empty page or a missing "next" link keeps all records collected so far.
   */
  lemma BookLimitIffCounterFull(catalogue: seq<CataloguePage>)
    ensures Expected(catalogue).reason == BookLimitReached <==> Expected(catalogue).bookCount == BookLimit
    ensures Expected(catalogue).reason != BookLimitReached ==>
      Attempted(catalogue) == Enumerated(catalogue)
  {
    WalkBounds(catalogue, 0, 0);
    SeenAtStop(catalogue);
    SeenIsListedLength(catalogue, Walk(catalogue, 0, 0).pages);
  }

  /**
   * The records are those of the books on the enumerated pages, page after page and in
   * listing order within a page, cut off at the book limit.
   */
  lemma RecordsInCatalogueOrder(catalogue: seq<CataloguePage>)
    ensures Expected(catalogue).records <= Successes(Enumerated(catalogue))
  {
    SuccessesGrow(Attempted(catalogue), Enumerated(catalogue));
  }

  // ---------------------------------------------------------------------------
  // Soft failures do not change the counters

  /** Two catalogue pages that agree on whether the fetch fails, how many books are listed and whether there is a "next" link. */
  predicate SamePageShape(p: CataloguePage, q: CataloguePage)
  {
    (p.FetchError? && q.FetchError?)
    || (p.Listing? && q.Listing? && |p.items| == |q.items| && p.hasNext == q.hasNext)
  }

  /** Two catalogues that differ at most in what the listed books are and in their detail outcomes. */
  predicate SameShape(c1: seq<CataloguePage>, c2: seq<CataloguePage>)
  {
    |c1| == |c2| && forall i :: 0 <= i < |c1| ==> SamePageShape(c1[i], c2[i])
  }

  lemma {:induction false} WalkDependsOnShape(c1: seq<CataloguePage>, c2: seq<CataloguePage>, i: nat, seen: nat)
    requires SameShape(c1, c2) && i <= PageLimit && i <= |c1|
    ensures Walk(c1, i, seen) == Walk(c2, i, seen)
    decreases PageLimit - i
  {
    if i == PageLimit {
      assert Walk(c1, i, seen) == Stop(i, PageLimitReached) == Walk(c2, i, seen);
    } else if i == |c1| {
      assert Walk(c1, i, seen) == Stop(i, CatalogueFetchError) == Walk(c2, i, seen);
    } else {
      var p1, p2 := c1[i], c2[i];
      assert SamePageShape(p1, p2);
      if p1.FetchError? {
        assert Walk(c1, i, seen) == Stop(i, CatalogueFetchError) == Walk(c2, i, seen);
      } else {
        assert p2.Listing? && |p1.items| == |p2.items| && p1.hasNext == p2.hasNext;
        var n := |p1.items|;
        if n == 0 {
          assert Walk(c1, i, seen) == Stop(i, EmptyPage) == Walk(c2, i, seen);
        } else if seen + n >= BookLimit {
          assert Walk(c1, i, seen) == Stop(i + 1, BookLimitReached) == Walk(c2, i, seen);
        } else if !p1.hasNext {
          assert Walk(c1, i, seen) == Stop(i + 1, NoNextLink) == Walk(c2, i, seen);
        } else {
          WalkDependsOnShape(c1, c2, i + 1, seen + n);
          WalkAfterPage(c1, i, seen);
          WalkAfterPage(c2, i, seen);
        }
      }
    }
  }

  lemma {:induction false} SeenDependsOnShape(c1: seq<CataloguePage>, c2: seq<CataloguePage>, n: nat)
    requires SameShape(c1, c2) && n <= |c1|
    ensures Seen(c1, n) == Seen(c2, n)
  {
    if n > 0 {
      assert SamePageShape(c1[n - 1], c2[n - 1]);
      SeenDependsOnShape(c1, c2, n - 1);
    }
  }

  /**
   * Page counter, book counter and stop reason depend only on the shape of the catalogue:
   * whether a detail fetch fails never changes them, so a failed book still counts
   * against the book limit and the books after it are still attempted.
   */
  lemma CountersIgnoreDetailOutcomes(c1: seq<CataloguePage>, c2: seq<CataloguePage>)
    requires SameShape(c1, c2)
    ensures Expected(c1).pageCount == Expected(c2).pageCount
    ensures Expected(c1).bookCount == Expected(c2).bookCount
    ensures Expected(c1).reason == Expected(c2).reason
  {
    WalkDependsOnShape(c1, c2, 0, 0);
    WalkBounds(c1, 0, 0);
    var v := Walk(c1, 0, 0).pages;
    SeenDependsOnShape(c1, c2, v);
    SeenIsListedLength(c1, v);
    SeenIsListedLength(c2, v);
  }

  // ---------------------------------------------------------------------------
  // Scenarios

  /** If the first catalogue page cannot be fetched, nothing is scraped and no file is written. */
  lemma FirstPageFetchFails(catalogue: seq<CataloguePage>, writeSucceeds: bool)
    requires catalogue == [] || catalogue[0].FetchError?
    ensures Expected(catalogue) == Run([], 1, 0, CatalogueFetchError)
    ensures Save(Expected(catalogue).records, writeSucceeds) == NoData
  {
    assert Walk(catalogue, 0, 0) == Stop(0, CatalogueFetchError);
  }

  /**
   * Three pages of twenty books, none failing, the first two with a "next" link: the run
   * stops on the third page at the 49th book, although that page lists more.
   */
  lemma ThreeFullPages(catalogue: seq<CataloguePage>)
    requires |catalogue| == 3
    requires forall i :: 0 <= i < 3 ==> catalogue[i].Listing? && |catalogue[i].items| == 20
    requires forall i, k :: 0 <= i < 3 && 0 <= k < 20 ==> catalogue[i].items[k].detail.Fetched?
    requires catalogue[0].hasNext && catalogue[1].hasNext
    ensures Expected(catalogue).reason == BookLimitReached && Expected(catalogue).pageCount == 3
    ensures Expected(catalogue).bookCount == BookLimit && |Expected(catalogue).records| == BookLimit
  {
    var all := Listed(catalogue, 3);
    assert Listed(catalogue, 1) == catalogue[0].items by {
      assert Listed(catalogue, 0) == [];
    }
    assert Listed(catalogue, 2) == catalogue[0].items + catalogue[1].items;
    assert all == catalogue[0].items + catalogue[1].items + catalogue[2].items;
    assert Walk(catalogue, 0, 0) == Stop(3, BookLimitReached);
    var attempted := Attempted(catalogue);
    assert attempted == all[..BookLimit];
    forall k | 0 <= k < |attempted| ensures attempted[k].detail.Fetched? {
      if k < 20 {
        assert attempted[k] == catalogue[0].items[k];
      } else if k < 40 {
        assert attempted[k] == catalogue[1].items[k - 20];
      } else {
        assert attempted[k] == catalogue[2].items[k - 40];
      }
    }
    NoFailureNoLoss(attempted);
  }
}
