/**
 * The bounded two-level pagination driver: walk the catalogue page by page following
 * "next" links, and on each page attempt the listed books one by one, under a ceiling
 * on pages and a global ceiling on books.
 *
 * `CollectRecords` is the driver itself, loop for loop. `Expected` is its specification:
 * `Walk` decides, from cumulative item counts alone, how many catalogue pages have their
 * listings enumerated and why the run stops, and the books attempted are the first
 * `BookLimit` items of those pages, in catalogue order.
 */
module Pagination {
  import opened Wrappers
  import opened Catalogue
  import opened Sequences

  /** At most this many catalogue pages are fetched. */
  const PageLimit: nat := 4
  /** At most this many detail pages are fetched, over all catalogue pages together. */
  const BookLimit: nat := 49

  /** Why the driver stopped paginating. */
  datatype StopReason =
    | PageLimitReached      // the page counter went past PageLimit
    | CatalogueFetchError   // the current catalogue page could not be fetched
    | EmptyPage             // the current catalogue page lists no books
    | BookLimitReached      // the book counter reached BookLimit
    | NoNextLink            // the page just processed has no "next" link

  /** Where the walk ends: how many catalogue pages had their listings enumerated, and why it ended. */
  datatype Stop = Stop(pages: nat, reason: StopReason)

  /** The driver's state when the loop ends: the collected records and both counters. */
  datatype Run = Run(records: seq<Record>, pageCount: nat, bookCount: nat, reason: StopReason)

  function ItemsOf(page: CataloguePage): seq<ListingItem>
  {
    if page.Listing? then page.items else []
  }

  /** All listing items of the first `n` catalogue pages, page after page, each page in listing order. */
  function Listed(catalogue: seq<CataloguePage>, n: nat): seq<ListingItem>
    requires n <= |catalogue|
  {
    if n == 0 then [] else Listed(catalogue, n - 1) + ItemsOf(catalogue[n - 1])
  }

  /** What attempting one book contributes: its record when the detail fetch succeeded, nothing when it failed. */
  function RecordsOf(item: ListingItem): seq<Record>
  {
    match item.detail
    case FetchFailed => []
    case Fetched(_) => [ToRecord(item)]
  }

  /** The records produced by attempting `items` in order. */
  function Successes(items: seq<ListingItem>): seq<Record>
    decreases |items|
  {
    if items == [] then [] else Successes(items[..|items| - 1]) + RecordsOf(items[|items| - 1])
  }

  /** The number of detail fetches that fail among `items`. */
  function Failures(items: seq<ListingItem>): nat
    decreases |items|
  {
    if items == [] then 0
    else Failures(items[..|items| - 1]) + (if items[|items| - 1].detail.FetchFailed? then 1 else 0)
  }

  /** The first `n` elements of `s`, or all of `s` when it is shorter. */
  function Take<T>(s: seq<T>, n: nat): (r: seq<T>)
    ensures r <= s
    ensures |r| == if |s| <= n then |s| else n
  {
    if |s| <= n then s else s[..n]
  }

  /**
   * The outer loop's stop decision from page index `i` on, where `seen` books were listed
   * on the pages before it: a page past the limit, a failed fetch or an empty listing stop
   * before any book of page `i` is attempted; reaching the book limit or a missing "next"
   * link stop after page `i`.
   */
  function Walk(catalogue: seq<CataloguePage>, i: nat, seen: nat): (s: Stop)
    requires i <= PageLimit && i <= |catalogue|
    decreases PageLimit - i
  {
    if i == PageLimit then Stop(i, PageLimitReached)
    else if i == |catalogue| || catalogue[i].FetchError? then Stop(i, CatalogueFetchError)
    else if |catalogue[i].items| == 0 then Stop(i, EmptyPage)
    else if seen + |catalogue[i].items| >= BookLimit then Stop(i + 1, BookLimitReached)
    else if !catalogue[i].hasNext then Stop(i + 1, NoNextLink)
    else Walk(catalogue, i + 1, seen + |catalogue[i].items|)
  }

  /**
   * The walk never goes past the page limit or the end of the catalogue; it stops at the
   * limit only for the page limit, and the two stop-after-page reasons enumerate at least
   * the page they start from.
   */
  lemma {:induction false} WalkBounds(catalogue: seq<CataloguePage>, i: nat, seen: nat)
    requires i <= PageLimit && i <= |catalogue|
    ensures var s := Walk(catalogue, i, seen);
      && i <= s.pages <= PageLimit && s.pages <= |catalogue|
      && (s.reason == PageLimitReached ==> s.pages == PageLimit)
      && (s.reason == CatalogueFetchError || s.reason == EmptyPage ==> s.pages < PageLimit)
      && (s.reason == BookLimitReached || s.reason == NoNextLink ==> s.pages > i)
    decreases PageLimit - i
  {
    var s := Walk(catalogue, i, seen);
    if i == PageLimit {
      assert s == Stop(i, PageLimitReached);
    } else if i == |catalogue| || catalogue[i].FetchError? {
      assert s == Stop(i, CatalogueFetchError);
    } else {
      var page := catalogue[i];
      var n := |page.items|;
      if n == 0 {
        assert s == Stop(i, EmptyPage);
      } else if seen + n >= BookLimit {
        assert s == Stop(i + 1, BookLimitReached);
      } else if !page.hasNext {
        assert s == Stop(i + 1, NoNextLink);
      } else {
        assert s == Walk(catalogue, i + 1, seen + n);
        WalkBounds(catalogue, i + 1, seen + n);
      }
    }
  }

  /**
   * The page counter at the end: it is incremented before each limit check and each
   * fetch, so a run that stops at the top of an iteration has counted one page more
   * than it enumerated.
   */
  function PageCountAt(s: Stop): nat
  {
    match s.reason
    case PageLimitReached => s.pages + 1
    case CatalogueFetchError => s.pages + 1
    case EmptyPage => s.pages + 1
    case BookLimitReached => s.pages
    case NoNextLink => s.pages
  }

  /** The books listed on the catalogue pages the run enumerates, page after page. */
  function Enumerated(catalogue: seq<CataloguePage>): seq<ListingItem>
  {
    WalkBounds(catalogue, 0, 0);
    Listed(catalogue, Walk(catalogue, 0, 0).pages)
  }

  /** The books whose detail page the run tries to fetch, in the order it tries them. */
  function Attempted(catalogue: seq<CataloguePage>): seq<ListingItem>
  {
    Take(Enumerated(catalogue), BookLimit)
  }

  /** The run the driver performs on `catalogue`. */
  function Expected(catalogue: seq<CataloguePage>): Run
  {
    var stop := Walk(catalogue, 0, 0);
    var attempted := Attempted(catalogue);
    Run(Successes(attempted), PageCountAt(stop), |attempted|, stop.reason)
  }

  /** How many catalogue pages the run actually fetched (or tried to): the counter minus the page it refused. */
  function CatalogueFetches(run: Run): nat
  {
    if run.reason == PageLimitReached && run.pageCount > 0 then run.pageCount - 1 else run.pageCount
  }

  lemma SuccessesSnoc(items: seq<ListingItem>, item: ListingItem)
    ensures Successes(items + [item]) == Successes(items) + RecordsOf(item)
  {
    assert (items + [item])[..|items|] == items;
  }

  /** Records of consecutive runs of books concatenate: earlier records are never changed by later books. */
  lemma {:induction false} SuccessesAppend(a: seq<ListingItem>, b: seq<ListingItem>)
    ensures Successes(a + b) == Successes(a) + Successes(b)
    decreases |b|
  {
    if b == [] {
      assert a + b == a;
    } else {
      var c, last := b[..|b| - 1], b[|b| - 1];
      assert b == c + [last];
      AppendAssociates(a, c, [last]);
      SuccessesSnoc(a + c, last);
      SuccessesSnoc(c, last);
      SuccessesAppend(a, c);
      AppendAssociates(Successes(a), Successes(c), RecordsOf(last));
    }
  }

  /** Taking `n` from a sequence whose first part is shorter than `n` keeps that part whole. */
  lemma TakeAfter<T>(before: seq<T>, items: seq<T>, n: nat)
    requires |before| <= n
    ensures Take(before + items, n) == before + Take(items, n - |before|)
  {
  }

  /** How the run is assembled from where the walk stops and which books were attempted. */
  lemma ExpectedFrom(catalogue: seq<CataloguePage>, s: Stop, attempted: seq<ListingItem>, pageCount: nat)
    requires Walk(catalogue, 0, 0) == s && Attempted(catalogue) == attempted && PageCountAt(s) == pageCount
    ensures Expected(catalogue) == Run(Successes(attempted), pageCount, |attempted|, s.reason)
  {
  }

  /** The loop stops at the top of the iteration for page `p`, before any of its books. */
  lemma AttemptedWhenStoppedBeforePage(catalogue: seq<CataloguePage>, p: nat, attempted: seq<ListingItem>)
    requires p <= PageLimit && p <= |catalogue|
    requires attempted == Listed(catalogue, p) && |attempted| < BookLimit
    requires Walk(catalogue, 0, 0) == Walk(catalogue, p, |attempted|)
    requires p == PageLimit || p == |catalogue| || catalogue[p].FetchError? || |catalogue[p].items| == 0
    ensures Attempted(catalogue) == attempted
    ensures Walk(catalogue, 0, 0) == Stop(p,
      if p == PageLimit then PageLimitReached
      else if p == |catalogue| || catalogue[p].FetchError? then CatalogueFetchError
      else EmptyPage)
  {
  }

  /** One step of the walk at a page whose books have been enumerated. */
  lemma WalkAfterPage(catalogue: seq<CataloguePage>, p: nat, seen: nat)
    requires p < PageLimit && p < |catalogue| && catalogue[p].Listing? && |catalogue[p].items| > 0
    ensures seen + |catalogue[p].items| >= BookLimit ==> Walk(catalogue, p, seen) == Stop(p + 1, BookLimitReached)
    ensures seen + |catalogue[p].items| < BookLimit && !catalogue[p].hasNext ==>
      Walk(catalogue, p, seen) == Stop(p + 1, NoNextLink)
    ensures seen + |catalogue[p].items| < BookLimit && catalogue[p].hasNext ==>
      Walk(catalogue, p, seen) == Walk(catalogue, p + 1, seen + |catalogue[p].items|)
  {
  }

  /**
   * The outer loop's step after the books of page `p` were attempted: `taken` is the part
   * of its listing that fitted under the book limit.
   */
  lemma AfterListing(catalogue: seq<CataloguePage>, p: nat, attempted: seq<ListingItem>, taken: seq<ListingItem>)
    requires p < PageLimit && p < |catalogue| && catalogue[p].Listing? && |catalogue[p].items| > 0
    requires attempted == Listed(catalogue, p) && |attempted| < BookLimit
    requires Walk(catalogue, 0, 0) == Walk(catalogue, p, |attempted|)
    requires taken == Take(catalogue[p].items, BookLimit - |attempted|)
    ensures |attempted + taken| >= BookLimit ==>
      Walk(catalogue, 0, 0) == Stop(p + 1, BookLimitReached) && Attempted(catalogue) == attempted + taken
    ensures |attempted + taken| < BookLimit ==> attempted + taken == Listed(catalogue, p + 1)
    ensures |attempted + taken| < BookLimit && catalogue[p].hasNext ==>
      Walk(catalogue, 0, 0) == Walk(catalogue, p + 1, |attempted + taken|)
    ensures |attempted + taken| < BookLimit && !catalogue[p].hasNext ==>
      Walk(catalogue, 0, 0) == Stop(p + 1, NoNextLink) && Attempted(catalogue) == attempted + taken
  {
    var all := Listed(catalogue, p + 1);
    assert all == attempted + catalogue[p].items;
    TakeAfter(attempted, catalogue[p].items, BookLimit);
    assert attempted + taken == Take(all, BookLimit);
    WalkAfterPage(catalogue, p, |attempted|);
  }

  /** The books the listing loop got through: all of them, or as many as the room left. */
  lemma ListingTaken(books: seq<ListingItem>, k: nat, room: nat)
    requires k <= |books| && k <= room && (k == |books| || k == room)
    ensures books[..k] == Take(books, room)
  {
    assert books[..|books|] == books;
  }

  /**
   * The `for book in books_on_page` loop: books are attempted in listing order while the
   * book counter is below the limit; every attempted book is counted, and only those whose
   * detail page was fetched add a record.
   */
  method ScrapeListing(booksOnPage: seq<ListingItem>, bookCount: nat, scrapedData: seq<Record>)
    returns (newBookCount: nat, newScrapedData: seq<Record>)
    requires bookCount <= BookLimit
    ensures newBookCount == bookCount + |Take(booksOnPage, BookLimit - bookCount)| <= BookLimit
    ensures newScrapedData == scrapedData + Successes(Take(booksOnPage, BookLimit - bookCount))
  {
    newBookCount, newScrapedData := bookCount, scrapedData;
    ghost var done: seq<ListingItem> := [];
    for i := 0 to |booksOnPage|
      invariant newBookCount == bookCount + i <= BookLimit
      invariant done == booksOnPage[..i]
      invariant newScrapedData == scrapedData + Successes(done)
    {
      if newBookCount >= BookLimit {
        break;
      }
      newBookCount := newBookCount + 1;
      var book := booksOnPage[i];
      ghost var previous := newScrapedData;
      match book.detail {
        case FetchFailed =>
          // soft failure: the book counts against the limit but yields no record
          AppendEmpty(previous);
        case Fetched(_) =>
          newScrapedData := newScrapedData + [ToRecord(book)];
      }
      SuccessesSnoc(done, book);
      AppendAssociates(scrapedData, Successes(done), RecordsOf(book));
      done := done + [book];
      assert done == booksOnPage[..i + 1];
    }
    ListingTaken(booksOnPage, newBookCount - bookCount, BookLimit - bookCount);
  }

  /** The run, when the loop stops at the top of the iteration for page `p`, before any of its books. */
  lemma StoppedBeforePage(catalogue: seq<CataloguePage>, p: nat, attempted: seq<ListingItem>, scrapedData: seq<Record>)
    requires p <= PageLimit && p <= |catalogue|
    requires attempted == Listed(catalogue, p) && |attempted| < BookLimit && scrapedData == Successes(attempted)
    requires Walk(catalogue, 0, 0) == Walk(catalogue, p, |attempted|)
    requires p == PageLimit || p == |catalogue| || catalogue[p].FetchError? || |catalogue[p].items| == 0
    ensures Expected(catalogue) == Run(scrapedData, p + 1, |attempted|,
      if p == PageLimit then PageLimitReached
      else if p == |catalogue| || catalogue[p].FetchError? then CatalogueFetchError
      else EmptyPage)
  {
    AttemptedWhenStoppedBeforePage(catalogue, p, attempted);
    ExpectedFrom(catalogue, Walk(catalogue, 0, 0), attempted, p + 1);
  }

  /**
   * The loop's step after the books of page `p` were attempted: the counters and records
   * now account for `taken`, and the run either ends here or goes on to page `p + 1`.
   */
  lemma PageStep(catalogue: seq<CataloguePage>, p: nat, attempted: seq<ListingItem>, scrapedData: seq<Record>,
                 taken: seq<ListingItem>, bookCount: nat, newData: seq<Record>, pageCount: nat)
    requires p < PageLimit && p < |catalogue| && catalogue[p].Listing? && |catalogue[p].items| > 0
    requires attempted == Listed(catalogue, p) && |attempted| < BookLimit && scrapedData == Successes(attempted)
    requires Walk(catalogue, 0, 0) == Walk(catalogue, p, |attempted|)
    requires taken == Take(catalogue[p].items, BookLimit - |attempted|)
    requires bookCount == |attempted| + |taken| && newData == scrapedData + Successes(taken)
    requires pageCount == p + 1
    ensures bookCount == |attempted + taken| && newData == Successes(attempted + taken)
    ensures bookCount >= BookLimit ==> Expected(catalogue) == Run(newData, pageCount, bookCount, BookLimitReached)
    ensures bookCount < BookLimit ==> attempted + taken == Listed(catalogue, pageCount)
    ensures bookCount < BookLimit && catalogue[p].hasNext ==>
      Walk(catalogue, 0, 0) == Walk(catalogue, pageCount, bookCount)
    ensures bookCount < BookLimit && !catalogue[p].hasNext ==>
      Expected(catalogue) == Run(newData, pageCount, bookCount, NoNextLink)
  {
    AfterListing(catalogue, p, attempted, taken);
    SuccessesAppend(attempted, taken);
    if bookCount >= BookLimit {
      ExpectedFrom(catalogue, Stop(pageCount, BookLimitReached), attempted + taken, pageCount);
    } else if !catalogue[p].hasNext {
      ExpectedFrom(catalogue, Stop(pageCount, NoNextLink), attempted + taken, pageCount);
    }
  }

  /**
   * One iteration of the pagination loop after the page-limit check: fetch catalogue page
   * `index`, stop on a failed fetch or an empty listing, attempt its books, stop at the book
   * limit, and otherwise follow the "next" link if there is one. `stopped` says that the
   * loop breaks; `next` is the index of the following page, or None when there is no link.
   */
  method ScrapeCataloguePage(catalogue: seq<CataloguePage>, index: nat, pageCount: nat, bookCount: nat,
                             scrapedData: seq<Record>, ghost attempted: seq<ListingItem>)
    returns (stopped: bool, next: Option<nat>, newBookCount: nat, newScrapedData: seq<Record>,
             reason: StopReason, ghost newAttempted: seq<ListingItem>)
    requires pageCount == index + 1 <= PageLimit && index <= |catalogue|
    requires attempted == Listed(catalogue, index) && bookCount == |attempted| < BookLimit
    requires scrapedData == Successes(attempted)
    requires Walk(catalogue, 0, 0) == Walk(catalogue, index, bookCount)
    ensures stopped || next.None? ==> Expected(catalogue) == Run(newScrapedData, pageCount, newBookCount, reason)
    ensures !stopped ==> pageCount <= |catalogue| && newAttempted == Listed(catalogue, pageCount)
    ensures !stopped ==> newBookCount == |newAttempted| < BookLimit && newScrapedData == Successes(newAttempted)
    ensures !stopped && next.Some? ==>
      next.value == pageCount && Walk(catalogue, 0, 0) == Walk(catalogue, pageCount, newBookCount)
  {
    newBookCount, newScrapedData, newAttempted := bookCount, scrapedData, attempted;
    if index >= |catalogue| || catalogue[index].FetchError? {
      stopped, next, reason := true, None, CatalogueFetchError;
      StoppedBeforePage(catalogue, index, attempted, scrapedData);
      return;
    }
    var booksOnPage := catalogue[index].items;
    if |booksOnPage| == 0 {
      stopped, next, reason := true, None, EmptyPage;
      StoppedBeforePage(catalogue, index, attempted, scrapedData);
      return;
    }
    ghost var taken := Take(booksOnPage, BookLimit - bookCount);
    newBookCount, newScrapedData := ScrapeListing(booksOnPage, bookCount, scrapedData);
    PageStep(catalogue, index, attempted, scrapedData, taken, newBookCount, newScrapedData, pageCount);
    newAttempted := attempted + taken;
    if newBookCount >= BookLimit {
      stopped, next, reason := true, None, BookLimitReached;
      return;
    }
    // the reason is read only when there is no "next" link and the loop ends
    stopped, reason := false, NoNextLink;
    if catalogue[index].hasNext {
      next := Some(index + 1);
    } else {
      next := None;
    }
  }

  /**
   * The pagination loop of the scraper. `current` plays the role of the current URL:
   * the index of the next catalogue page, or None once no "next" link was found.
   */
  method CollectRecords(catalogue: seq<CataloguePage>) returns (run: Run)
    ensures run == Expected(catalogue)
  {
    var current: Option<nat> := Some(0);
    var scrapedData: seq<Record> := [];
    var pageCount: nat := 0;
    var bookCount: nat := 0;
    var reason := NoNextLink;
    ghost var attempted: seq<ListingItem> := [];
    while current.Some?
      invariant pageCount <= PageLimit && pageCount <= |catalogue|
      invariant attempted == Listed(catalogue, pageCount)
      invariant bookCount == |attempted| < BookLimit
      invariant scrapedData == Successes(attempted)
      invariant current.Some? ==>
        current.value == pageCount && Walk(catalogue, 0, 0) == Walk(catalogue, pageCount, bookCount)
      invariant current.None? ==> Expected(catalogue) == Run(scrapedData, pageCount, bookCount, reason)
      decreases PageLimit - pageCount
    {
      pageCount := pageCount + 1;
      if pageCount > PageLimit {
        reason := PageLimitReached;
        StoppedBeforePage(catalogue, pageCount - 1, attempted, scrapedData);
        break;
      }
      var stopped;
      stopped, current, bookCount, scrapedData, reason, attempted :=
        ScrapeCataloguePage(catalogue, current.value, pageCount, bookCount, scrapedData, attempted);
      if stopped {
        break;
      }
    }
    run := Run(scrapedData, pageCount, bookCount, reason);
  }
}
