# Book scraper with dual limits — a Dafny model

This project models `scrape_book_details_with_dual_limits` from `scraper.py`. The function
walks the catalogue of a bookshop site page by page, following "next" links. On each
catalogue page it visits the detail page of every listed book and collects one record
(name, price, rating, stock, description) per book. It stops after 4 catalogue pages or
49 attempted books, whichever comes first. The records are then written to a CSV file,
and the file name is returned, or None when no file was written.

The network, the HTML parser and the file system are not modelled. Their results are
given as values:

- **The catalogue** is a sequence of pages. Each page either failed to fetch (`FetchError`)
  or was parsed into its listing items and a flag for the presence of a "next" link.
  Following the link means moving to the next index. An index past the end of the
  sequence counts as a failed fetch, which is what the site's 404 answer leads to.
- **Each listing item** carries its title, its price text and its rating class tokens. It
  also carries the outcome of fetching its detail page: either a failure, or the stock
  element's text and the description paragraph, each of which may be absent.
- **The CSV write** either succeeds or raises an I/O error. That outcome is a parameter.

Modules:

- `Text`: Python's `str.strip()`.
- `Catalogue`: the inputs and the per-field extraction rules.
- `Pagination`: the driver loop `CollectRecords` and its specification `Expected`.
- `Writer`: the write step.
- `Scraper`: the entry point.
- `PaginationProperties`: what the driver guarantees.

`CollectRecords` follows the source loop for loop: a `while` over catalogue pages around a
`for` over the books of one page. Two parts of the source's single function body are
methods of their own: the part of an outer iteration after the page-limit check
(`ScrapeCataloguePage`) and the book loop (`ScrapeListing`). It is proved to compute
`Expected(catalogue)`, which is defined without the loops:

- `Walk` decides from cumulative book counts where pagination stops and why.
- The attempted books are the first 49 books listed on the enumerated pages.
- The records are those of the attempted books whose detail fetch succeeded.

The stop reason in `Run` is the model's name for which of the five exits ended the loop:
four `break`s, or `current_url` becoming None when a page has no "next" link. The source
keeps no record of it. It prints a message for the page limit, a catalogue fetch error and
the book limit, and nothing for an empty page or a missing "next" link.

## Model

| member | source | states |
|---|---|---|
| Scraper.ScrapeBookDetailsWithDualLimits | scraper.py:18-98 | The run writes exactly what `Save` makes of the records `Expected` predicts. A file name is returned iff there are records and the write succeeds, and it is always `books_data_limited_output.csv`. Without records, or after an I/O error, the result is None. |
| Pagination.CollectRecords | scraper.py:27-81 | The two nested loops, with the page counter incremented before its check, end in exactly the state `Expected(catalogue)` describes: the same records, page counter, book counter and stop reason. |
| Pagination.ScrapeCataloguePage | scraper.py:37-81 | One iteration after the page-limit check. A failed fetch, a page past the end or an empty listing breaks with the matching reason and `Expected`'s final state. A full book counter breaks for the book limit. Otherwise the counters and records account for every book on the page, and the loop follows the "next" link, or ends with the records kept when there is none. |
| Pagination.ScrapeListing | scraper.py:48-73 | The book loop attempts books in listing order only while the counter is below 49. The counter grows by the number of books attempted and never exceeds 49. The records grow by exactly those of the attempted books whose detail fetch succeeded. |
| Pagination.StoppedBeforePage | scraper.py:32-47 | When the page limit is passed, the catalogue fetch fails or the page is empty, the run ends with every book listed so far attempted. The page counter is one past the last enumerated page, and the stop reason is the matching one. |
| Pagination.PageStep | scraper.py:74-81 | After a page's books: if the counter reached 49 the run ends for the book limit. Otherwise, with a "next" link it goes on to the next page; without one it ends with the records kept. |
| Pagination.WalkBounds | scraper.py:31-47 | At most 4 catalogue pages are enumerated, never past the end of the catalogue. Only the page limit stops the run at page index 4. |
| Pagination.SuccessesAppend | scraper.py:67-70 | Records of consecutive runs of books concatenate, so later books never change earlier records. |
| PaginationProperties.ExpectedBounds | scraper.py:31-81 | The book counter never exceeds 49 and equals the number of records plus the number of failed detail fetches. The page counter is between 1 and 5, and it is 5 exactly when the page limit stopped the run. Between 1 and 4 catalogue pages are fetched. |
| PaginationProperties.SuccessesCount | scraper.py:51-73 | Every attempted book yields one record or is one failed detail fetch, so the number of records never exceeds the number of books counted. |
| PaginationProperties.FailedItemSkipped | scraper.py:72-73 | A book whose detail fetch fails contributes no record, while the books before and after it contribute theirs unchanged. |
| PaginationProperties.SuccessesGrow | scraper.py:67-70 | Attempting more books only appends records: the earlier records are a prefix of the later ones. |
| PaginationProperties.NoFailureNoLoss | scraper.py:55-70 | When no detail fetch fails, every attempted book yields exactly one record. |
| PaginationProperties.BookLimitIffCounterFull | scraper.py:74-76 | The run stops for the book limit iff the book counter is 49. Under any other stop reason, every book on every enumerated page was attempted, so the records collected before the stop are kept. |
| PaginationProperties.RecordsInCatalogueOrder | scraper.py:48-70 | The records are a prefix of the records of all books on the enumerated pages, taken page after page and in listing order within a page. |
| PaginationProperties.WalkIffStopsAt | scraper.py:31-81 | The loop-shaped stop decision agrees, in both directions, with a declarative description of each of the five ways the run can end. |
| PaginationProperties.StopsAtUnique | scraper.py:31-81 | At most one stop page and reason fits that declarative description, so the way a run ends is determined by the catalogue. |
| PaginationProperties.SeenAtStop | scraper.py:74-76 | The books listed on the enumerated pages reach 49 iff the book limit is the stop reason. |
| PaginationProperties.CountersIgnoreDetailOutcomes | scraper.py:51-73 | Page counter, book counter and stop reason depend only on page fetches, listing sizes and "next" links, never on whether a detail fetch fails. So a failed book still counts toward the 49. |
| PaginationProperties.FirstPageFetchFails | scraper.py:38-98 | When the first catalogue page cannot be fetched, nothing is scraped, the page counter is 1 and no file is written. |
| PaginationProperties.ThreeFullPages | scraper.py:48-76 | With three pages of 20 books each and no failures, the run stops on the third page at the 49th book with 49 records, although that page lists more books. |
| Catalogue.RecordFields | scraper.py:59-70 | Name, price and rating come from the listing fragment, the rating being the second class token. The stock is the stripped stock text, or "N/A" without the element. The description is the next paragraph's text, or "N/A" when the container or the paragraph is missing. |
| Text.StripTrims | scraper.py:63 | `strip()` never lengthens its input, and its result neither starts nor ends with whitespace. |
| Text.StripDecomposes | scraper.py:63 | The input is the leading whitespace, then the stripped text, then the trailing whitespace; the parts cut off are whitespace only. |
| Text.StripOfPadded | scraper.py:63 | Any text without outer whitespace, padded with whitespace on both sides, strips back to exactly itself. This is the converse of StripDecomposes. |
| Text.StripIdempotent | scraper.py:63 | Stripping twice is the same as stripping once. |
| Text.StripStartSpec | scraper.py:63 | Leading-whitespace removal keeps a suffix that does not start with whitespace and removes only whitespace. |
| Text.StripEndSpec | scraper.py:63 | Trailing-whitespace removal keeps a prefix that does not end with whitespace and removes only whitespace. |
| Writer.Save | scraper.py:83-98 | With no records nothing is written. Otherwise, unless the write fails, the file `books_data_limited_output.csv` holds the header `Name, Price, Rating, Stock, Description` followed by one row per record, in order. |
| Writer.SavedTableReadsBack | scraper.py:89-92 | A saved table is the header followed by rows that read back to exactly the records saved. |
| Writer.ReadRowsOfRows | scraper.py:90-92 | Reading the data rows back column by column, in header order, gives the records written, in order and with every field intact. |
| Writer.SavedCellsByHeader | scraper.py:67-92 | Each cell of a saved data row holds the value its record has under that column's header name, as the record dictionary is keyed by those names and the CSV writer looks them up by name. |

## Left out

- Network access (`requests.get`, `raise_for_status`) is replaced by the given fetch outcomes of catalogue and detail pages.
- HTML parsing (BeautifulSoup, lxml) and URL joining (`urljoin`) are replaced by parsed values. The "next" link is followed as the next page index.
- Listing fragments are assumed well-formed: each has a link with `href` and `title`, a price element and a star-rating element with at least two class tokens. In the source, a missing one raises an uncaught exception, which the model does not represent.
- `time.sleep` and the `print` progress messages are timing and logging only.
- CSV quoting and escaping, the encoding, and a partly written file after an I/O error are not modelled. The write is an abstract success or failure, and the table is kept as rows of cells.
- The Tkinter GUI, the worker thread, the log queue and the OS-specific file opening are user interface, concurrency and platform calls.
- `Text.IsSpace` lists the characters for which Python's `str.isspace()` holds. No other Unicode property is modelled.
