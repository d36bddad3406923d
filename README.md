# URL-crawler dashboard: a Dafny model

This project models the logic of a URL-crawler dashboard. A user submits
URLs. A Go/Gin back end stores one record per URL and crawls each page. The
crawl counts the page's headings, classifies its links as internal or
external, checks every link with a HEAD request and detects a login form. A
React front end then lists, filters, sorts, pages and selects the records,
and shows one record in detail.

The model covers four parts of the code.

- **The record table** (`store.dfy`, `controller.dfy`).
  - The handlers of `url_analysis_controller.go` act on a `Store.Table`.
    The table is a class holding the live rows, the soft-deleted rows, the
    unique URL index and the auto-increment counter.
  - Its invariant `Valid` says that every row stores its own key, that the
    key is below the counter, and that the URL index names exactly one row
    per URL. The index covers deleted rows as well, as the database's
    unique index does.
  - Create, get, batch re-run and batch delete are methods on that table.
  - Each method's contract states the reply and the new table. The re-run
    loop is proved against `Rerun`, a map-level definition that does not
    depend on the order in which rows are visited.
- **The crawl** (`crawler.dfy`).
  - `CrawlURL`'s two counting loops are methods proved against recursive
    definitions.
  - `ProcessURL` saves the record as running, crawls, and saves the
    finished record.
  - The network, the HTML parser, URL resolution and `json.Marshal` are
    function parameters.
- **The dashboard** (`dashboard.dfy`, `ui_types.dfy`).
  - The page's `useState` cells form the class `DashboardState`. Each event
    handler is a method whose contract gives the whole new state.
  - The filter, sort and slice pipeline (`filteredAndSortedURLs`) is a
    function. The in-place sort is an insertion sort on an `array`, proved
    to produce that function's result.
  - The inner pager, the selection and the `handleSort` toggle each have
    their own lemmas.
- **The detail page** (`details.dfy`).
  - The render-state precedence, the badge, the fallbacks, the two-slice
    link distribution and the broken-link list are modelled.
  - `JSON.parse` is a function parameter that answers None where the parser
    throws.
  - Lemmas tie the page to the crawler. When parsing reads back what the
    crawler wrote, the page lists the crawl's broken links. After a clean
    re-crawl it still lists the old ones.

## Model

| member | source | states |
|---|---|---|
| Store.NewRecord | my-crawler-backend/controllers/url_analysis_controller.go:41-46 | a new record carries its id, URL and creation time, is `queued`, and has no error, no broken-link text and zero counts (the column default of my-crawler-backend/models/url_analysis.go:21) |
| Store.UrlsUnique | my-crawler-backend/models/url_analysis.go:7 | under the table invariant no two rows, live or deleted, share a URL |
| Store.SaveKeepsConsistent | my-crawler-backend/services/crawler.go:30-31 | saving a live row with the same id and URL keeps the table invariant |
| Store.CreateKeepsConsistent | my-crawler-backend/controllers/url_analysis_controller.go:41-46 | inserting a fresh id with a URL not in the unique index keeps the table invariant |
| Store.DeleteKeepsConsistent | my-crawler-backend/controllers/url_analysis_controller.go:115 | moving live rows to the deleted rows keeps the table invariant |
| Store.SelectByKeys | my-crawler-backend/controllers/url_analysis_controller.go:79-85 | the rows fetched for an id list are exactly the stored rows with those ids, each once |
| Store.Table.constructor | my-crawler-backend/models/url_analysis.go:5-23 | an empty table satisfies the invariant |
| Store.Table.First | my-crawler-backend/controllers/url_analysis_controller.go:58-63 | the lookup by id finds the live row with that id, or nothing when there is none |
| Store.Table.FirstByUrl | my-crawler-backend/controllers/url_analysis_controller.go:33-34 | the lookup by URL finds the live row with that URL, or nothing when no live row has it |
| Store.Table.Find | my-crawler-backend/controllers/url_analysis_controller.go:79-85 | `Find` returns every live row whose id is listed, each once and unmodified, and nothing else |
| Store.Table.Create | my-crawler-backend/controllers/url_analysis_controller.go:41-46 | the insert is refused when the URL is in the unique index, adding no row but using up the next id as the database's auto-increment does; otherwise exactly one queued row is added under the next id and nothing else changes |
| Store.Table.Save | my-crawler-backend/services/crawler.go:30-31 | saving replaces exactly that row and changes nothing else |
| Store.Table.SoftDelete | my-crawler-backend/controllers/url_analysis_controller.go:115 | exactly the listed live rows leave the live table and join the deleted rows unchanged, and the count returned is how many there were |
| Crawler.AbsoluteURL | my-crawler-backend/services/crawler.go:168-178 | when either URL fails to parse, the href itself is used |
| Crawler.Verdict | my-crawler-backend/services/crawler.go:139-148 | a link is broken iff its HEAD request fails or answers 400 or more; the entry keeps the link, with code 0 iff the request failed |
| Crawler.HtmlVersion | my-crawler-backend/services/crawler.go:95-104 | the version is one of "", "HTML 4.01 or XHTML", "HTML5" and "Unknown", and empty iff the page has no html node |
| Crawler.Crawl | my-crawler-backend/services/crawler.go:78-166 | a result comes iff the answer is a 200 response with a parsable body; then both link counts are non-negative, add up to the links checked, and the inaccessible count is the length of the broken-link list |
| Crawler.CountLinks | my-crawler-backend/services/crawler.go:122-135 | the anchor loop checks one absolute URL per kept href; internal counts those starting with the page URL; internal plus external is the number of links checked |
| Crawler.GatherBroken | my-crawler-backend/services/crawler.go:157-160 | the result loop collects the broken links of the checked links and counts exactly as many inaccessible links |
| Crawler.CrawlURL | my-crawler-backend/services/crawler.go:78-166 | CrawlURL's outcome is the crawl definition for the page's response |
| Crawler.SkippedHrefCountsNothing | my-crawler-backend/services/crawler.go:123-126 | an href that is missing, empty, a fragment or `javascript:` changes no counter and checks no link |
| Crawler.KeptHrefCountsOnce | my-crawler-backend/services/crawler.go:128-134 | any other href adds one checked link, counted internal iff its absolute URL starts with the page URL |
| Crawler.CheckedLinksFollowKeptHrefs | my-crawler-backend/services/crawler.go:121-137 | the links checked are the absolute forms of the kept hrefs, one per href and in document order |
| Crawler.InternalAtMostLinks | my-crawler-backend/services/crawler.go:128-134 | the internal count never exceeds the links checked, so the external count is never negative |
| Crawler.BrokenIff | my-crawler-backend/services/crawler.go:139-148 | a link is recorded broken with code c iff it was checked and its HEAD request failed (c = 0) or answered c >= 400 |
| Crawler.BrokenAtMostLinks | my-crawler-backend/services/crawler.go:157-160 | there are never more broken links than links checked |
| Crawler.CrawlCounts | my-crawler-backend/services/crawler.go:128-163 | after a successful crawl, internal + external equals the kept hrefs; InaccessibleLinks is the length of BrokenLinks and at most that many; the login flag holds iff a password input exists |
| Crawler.CrawlFailsUnlessOk | my-crawler-backend/services/crawler.go:79-92 | only a 200 response with a parsable body gives a result; a non-200 status gives the status error |
| Crawler.HtmlVersionCases | my-crawler-backend/services/crawler.go:95-104 | the version is legacy iff the first child mentions "html public" in any case, HTML5 iff it mentions only "html", Unknown otherwise, and empty iff there is no html node |
| Crawler.PublicMentionsHtml | my-crawler-backend/services/crawler.go:98-101 | a text containing "html public" contains "html", so the HTML5 branch never hides the legacy one |
| Crawler.Finished | my-crawler-backend/services/crawler.go:34-56 | the finished record keeps its id, URL and creation time; it is `error` iff the crawl failed, with the crawl's message, and `done` iff it succeeded |
| Crawler.CopyOutcome | my-crawler-backend/services/crawler.go:34-56 | the field-by-field update yields the finished record and keeps its id and URL |
| Crawler.ProcessURL | my-crawler-backend/services/crawler.go:22-60 | a missing record changes nothing; otherwise the record is saved as running, then as finished, and no other row changes |
| Crawler.FinishedOutcome | my-crawler-backend/services/crawler.go:34-56 | a processed record ends `error` iff the crawl failed (only status and error text change) and `done` iff it succeeded, carrying the crawl's HTML version, title, six heading counts, internal and external counts (internal being the checked links that start with the page URL, the two adding up to the kept hrefs), inaccessible count and login flag, and keeping its error text |
| Crawler.DetailsOverwrittenOnlyWhenBroken | my-crawler-backend/services/crawler.go:50-53 | the broken-link text is replaced iff the crawl found a broken link; otherwise the old text stays |
| Controller.InsertNewestFirstKeepsOrder | my-crawler-backend/controllers/url_analysis_controller.go:18 | inserting a record keeps a list newest first and adds exactly that record |
| Controller.GetURLAnalyses | my-crawler-backend/controllers/url_analysis_controller.go:16-24 | the list holds every live record exactly once, ordered by creation time, newest first |
| Controller.CreateURLAnalysis | my-crawler-backend/controllers/url_analysis_controller.go:26-52 | invalid input gives 400 with no change; an existing URL gives 200 with that record and no change; otherwise one queued record is added under the next id with 202, the deleted rows are untouched, and its crawl is started; a URL held by a deleted row gives 500, adding no row but using up the next id, and a 500 comes only from such a URL |
| Controller.GetURLAnalysis | my-crawler-backend/controllers/url_analysis_controller.go:55-64 | an absent id gives 404; otherwise the record comes back unchanged with 200 |
| Controller.Requeued | my-crawler-backend/controllers/url_analysis_controller.go:95-96 | a requeued record is `queued` with its error cleared, and differs from the original in those two fields only |
| Controller.RerunEffect | my-crawler-backend/controllers/url_analysis_controller.go:93-101 | after a re-run, each matched record is queued or running; a matched record that was neither is queued with no error; every other record is unchanged; no record appears or disappears |
| Controller.RerunIdempotent | my-crawler-backend/controllers/url_analysis_controller.go:93-101 | re-running the same ids again changes nothing and starts no crawl |
| Controller.RerunOneMore | my-crawler-backend/controllers/url_analysis_controller.go:94-100 | visiting one more record changes at most that record and starts at most its crawl |
| Controller.LastIsNew | my-crawler-backend/controllers/url_analysis_controller.go:93 | the rows the database returned carry distinct ids |
| Controller.RerunListIsRerun | my-crawler-backend/controllers/url_analysis_controller.go:93-101 | the handler's loop over the found rows, in any order, yields the re-run table and starts exactly the re-queued crawls |
| Controller.FoundIds | my-crawler-backend/controllers/url_analysis_controller.go:79-85 | the ids of the found rows are the listed ids that are live |
| Controller.RerunLiveIds | my-crawler-backend/controllers/url_analysis_controller.go:79-101 | listing ids that are not live changes neither the re-run table nor the crawls started |
| Controller.RequeueFound | my-crawler-backend/controllers/url_analysis_controller.go:93-101 | the loop saves each found row that is neither running nor queued as queued, and starts its crawl; deleted rows and the id counter are untouched |
| Controller.RerunURLAnalyses | my-crawler-backend/controllers/url_analysis_controller.go:72-104 | invalid input gives 400 with no change; no live match gives 404 with no change; otherwise the table becomes the re-run of the listed ids, with 200, and exactly the re-queued ids are crawled; deleted rows and the id counter are never touched |
| Controller.DeleteURLAnalyses | my-crawler-backend/controllers/url_analysis_controller.go:107-127 | invalid input gives 400 with no change; otherwise exactly the listed live records move, unchanged, from the live rows to the deleted rows; none deleted gives 404, otherwise 200 with that count |
| Controller.DeleteTwiceFindsNothing | my-crawler-backend/controllers/url_analysis_controller.go:115-124 | a first delete answers 200 iff some listed id was live; a second delete of the same ids always answers 404 |
| Controller.DeleteThenReAdd | my-crawler-backend/controllers/url_analysis_controller.go:41-46 | after a record is deleted, adding its URL again answers 500: the soft-deleted row still holds the unique URL index (my-crawler-backend/models/url_analysis.go:7, deletion at line 115) |
| UiTypes.Served | my-crawler-backend/models/url_analysis.go:5-23 | the JSON record carries every column of the stored record: id, URL, status, HTML version, title, the six heading counts, the link counts, broken-link text, login flag and error text, plus the two encoded timestamps |
| UiTypes.StatusColor | my-crawler-ui/src/pages/Details.tsx:125-133 | the badge is green iff `done`, blue iff `running`, red iff `error`, and gray for anything else (the same palette as my-crawler-ui/src/pages/Dashboard.tsx:362-366) |
| UiTypes.StatusLabel | my-crawler-ui/src/pages/Details.tsx:134-136 | the label is the status with its first character upper-cased and the rest unchanged, or "Unknown" for an empty status |
| UiTypes.OrNA | my-crawler-ui/src/pages/Details.tsx:146-147 | an empty title or HTML version shows "N/A"; any other text shows itself (as in my-crawler-ui/src/pages/Dashboard.tsx:372-373) |
| Dashboard.FilterKeepsMatches | my-crawler-ui/src/pages/Dashboard.tsx:180-184 | a record is kept iff it is in the list and the search matches it; the filter never grows the list |
| Dashboard.EmptySearchKeepsAll | my-crawler-ui/src/pages/Dashboard.tsx:180-184 | an empty search keeps every record, in order |
| Dashboard.MatchesIff | my-crawler-ui/src/pages/Dashboard.tsx:180-184 | a record matches iff the lower-cased term occurs at some offset of the lower-cased URL, title or status |
| Dashboard.Compare | my-crawler-ui/src/pages/Dashboard.tsx:186-196 | on a string column two records compare equal iff their keys are the same text; on a numeric column the first sorts before the second iff its key is smaller when ascending, larger when descending |
| Dashboard.CompareAntisymmetric | my-crawler-ui/src/pages/Dashboard.tsx:186-196 | swapping the two records negates the comparator, for string and numeric columns in both directions |
| Dashboard.ComparatorForAntisymmetric | my-crawler-ui/src/pages/Dashboard.tsx:186-196 | every comparator the page can build is antisymmetric |
| Text.LexCompareTransitive | my-crawler-ui/src/pages/Dashboard.tsx:192 | the string order standing for `localeCompare` is transitive |
| Dashboard.CompareTransitive | my-crawler-ui/src/pages/Dashboard.tsx:186-196 | if a record goes no later than a second, and the second no later than a third, the first goes no later than the third, for every column and direction |
| Dashboard.ComparatorForTransitive | my-crawler-ui/src/pages/Dashboard.tsx:186-196 | every comparator the page can build is transitive; with antisymmetry it is a consistent comparator |
| Dashboard.InsertPermutes | my-crawler-ui/src/pages/Dashboard.tsx:186 | one insertion step adds exactly the inserted record |
| Dashboard.SortPermutes | my-crawler-ui/src/pages/Dashboard.tsx:186 | the sorted list is a permutation of the filtered list |
| Dashboard.InsertLast | my-crawler-ui/src/pages/Dashboard.tsx:186 | an insertion step grows the list by one, and ends with either the old last record or the inserted one |
| Dashboard.OrderedPrefix | my-crawler-ui/src/pages/Dashboard.tsx:186 | dropping the last record of an ordered list leaves it ordered |
| Dashboard.OrderedSnoc | my-crawler-ui/src/pages/Dashboard.tsx:186 | appending a record no smaller than the last keeps a list ordered |
| Dashboard.InsertOrdered | my-crawler-ui/src/pages/Dashboard.tsx:186 | inserting into an ordered list keeps it ordered |
| Dashboard.SortOrders | my-crawler-ui/src/pages/Dashboard.tsx:186-196 | the sort puts every adjacent pair in comparator order |
| Dashboard.SortKeepsOrdered | my-crawler-ui/src/pages/Dashboard.tsx:186 | an already ordered list is left as it is |
| Dashboard.SortIdempotent | my-crawler-ui/src/pages/Dashboard.tsx:186-196 | sorting twice gives the same list as sorting once |
| Dashboard.SortedByKey | my-crawler-ui/src/pages/Dashboard.tsx:186-196 | ascending string columns run through the string order and descending ones against it; numeric columns rise when ascending and fall when descending |
| Dashboard.InsertAt | my-crawler-ui/src/pages/Dashboard.tsx:186 | insertion places a record just before the trailing run of records that compare greater than it |
| Dashboard.ShiftGreater | my-crawler-ui/src/pages/Dashboard.tsx:186 | the shifting loop moves exactly that trailing run one place right |
| Dashboard.InsertPlaced | my-crawler-ui/src/pages/Dashboard.tsx:186 | the array after the gap is filled is the run before the gap, then the record, then the shifted run |
| Dashboard.InsertInto | my-crawler-ui/src/pages/Dashboard.tsx:186 | one pass of the in-place sort leaves the prefix holding the insertion of the next record, and the rest of the array unchanged |
| Dashboard.SortInPlace | my-crawler-ui/src/pages/Dashboard.tsx:186-196 | the in-place sort leaves the array holding the sorted list |
| Dashboard.JsIndex | my-crawler-ui/src/pages/Dashboard.tsx:202 | a `slice` bound is clamped to the list and left alone when it is already inside it |
| Dashboard.ViewIsFirstTwenty | my-crawler-ui/src/pages/Dashboard.tsx:179-202 | the view is empty before the first answer, and otherwise the first twenty sorted matches: at most twenty records, each a matching record of the list, and all the matches when there are at most twenty |
| Dashboard.FilteredAndSortedURLs | my-crawler-ui/src/pages/Dashboard.tsx:178-204 | filtering into a new array, sorting it in place and slicing gives the view |
| Dashboard.TotalPagesNo | my-crawler-ui/src/pages/Dashboard.tsx:219 | the page count is the fewest pages of five that hold the view, and zero only for an empty view |
| Dashboard.PaginateBounds | my-crawler-ui/src/pages/Dashboard.tsx:220 | a page holds at most five records, all from the view; a page past the last is empty; every page up to the last holds its five-record window |
| Dashboard.EveryRecordHasAPage | my-crawler-ui/src/pages/Dashboard.tsx:219-220 | every record of the view appears on some numbered page, at its position within that page |
| Dashboard.PrevPage | my-crawler-ui/src/pages/Dashboard.tsx:384 | the previous-page target is one less, and never below 1 |
| Dashboard.NextPage | my-crawler-ui/src/pages/Dashboard.tsx:401 | the next-page target is one more, capped at the page count |
| Dashboard.PageNumbers | my-crawler-ui/src/pages/Dashboard.tsx:389-397 | the page buttons are 1 up to the page count, in order |
| Dashboard.Ids | my-crawler-ui/src/pages/Dashboard.tsx:321 | select-all takes the ids of the view, in view order |
| Dashboard.RemoveIdCounts | my-crawler-ui/src/pages/Dashboard.tsx:352 | unchecking removes every occurrence of the id and leaves every other id's count as it was |
| Dashboard.Indeterminate | my-crawler-ui/src/pages/Dashboard.tsx:224-225 | the header checkbox shows a dash when the selection is non-empty and shorter than the view; only the lengths are compared |
| Dashboard.IndeterminateIffPartial | my-crawler-ui/src/pages/Dashboard.tsx:224-225 | while the view's ids are distinct and the selection holds distinct ids of the view, the dash shows iff some, but not all, of the view's records are selected |
| Dashboard.NextSort | my-crawler-ui/src/pages/Dashboard.tsx:208-215 | the clicked column always becomes the key; the current column flips direction; another column starts ascending |
| Dashboard.NextSortTwice | my-crawler-ui/src/pages/Dashboard.tsx:208-215 | two clicks on the current column restore the sort state; two clicks on another column sort it descending |
| Dashboard.DashboardScreen | my-crawler-ui/src/pages/Dashboard.tsx:227-236 | the spinner shows iff loading with no list yet, then the error, then the table iff the view has records, else the notice for an empty search or an empty list (lines 305 and 447-450) |
| Dashboard.DashboardState.IsAnyActionPending | my-crawler-ui/src/pages/Dashboard.tsx:206 | an action is pending while the add, re-run or delete mutation is; the URL box, the search box and the add button (lines 252-297) and the action bar's delete and re-run buttons (lines 423 and 433) require it false, and sending any mutation makes it true |
| Dashboard.DashboardState.constructor | my-crawler-ui/src/pages/Dashboard.tsx:77-83 | the page starts with no list, sorted by creation time descending, on page 1, with nothing selected and no action pending |
| Dashboard.DashboardState.ReceiveSnapshot | my-crawler-ui/src/pages/Dashboard.tsx:88-92 | a poll answer replaces the list and changes no other cell; the page and the selection are kept |
| Dashboard.DashboardState.ReceiveError | my-crawler-ui/src/pages/Dashboard.tsx:88-92 | a failed poll sets the error and keeps the last list |
| Dashboard.DashboardState.SetUrlInput | my-crawler-ui/src/pages/Dashboard.tsx:245-253 | typing in the URL box changes only the box |
| Dashboard.DashboardState.SetSearchTerm | my-crawler-ui/src/pages/Dashboard.tsx:269-274 | typing in the search box changes only the search term; the page is not reset |
| Dashboard.DashboardState.HandleSort | my-crawler-ui/src/pages/Dashboard.tsx:208-215 | a header click flips the direction of the current column, or selects another column ascending, and changes nothing else |
| Dashboard.DashboardState.Prev | my-crawler-ui/src/pages/Dashboard.tsx:384 | the previous-page button sets the page to one less, never below 1 |
| Dashboard.DashboardState.Next | my-crawler-ui/src/pages/Dashboard.tsx:400-402 | the next-page button keeps the page between 1 and the page count |
| Dashboard.DashboardState.GoToPage | my-crawler-ui/src/pages/Dashboard.tsx:389-397 | a number button moves to a page that shows records |
| Dashboard.DashboardState.SelectAll | my-crawler-ui/src/pages/Dashboard.tsx:314-323 | the header checkbox selects exactly the view's ids in order, or nothing; afterwards it is never indeterminate |
| Dashboard.DashboardState.CheckRow | my-crawler-ui/src/pages/Dashboard.tsx:343-354 | checking a row appends its id; unchecking removes every occurrence of it and nothing else |
| Dashboard.DashboardState.HandleSubmit | my-crawler-ui/src/pages/Dashboard.tsx:120-124 | the add mutation is sent iff the URL box is not empty, with the box's text, and then an action is pending |
| Dashboard.DashboardState.AddSettled | my-crawler-ui/src/pages/Dashboard.tsx:96-117 | a successful add empties the URL box; a failed one leaves it |
| Dashboard.DashboardState.ClickRerun | my-crawler-ui/src/pages/Dashboard.tsx:429-437 | the action bar's re-run sends the current selection and leaves an action pending |
| Dashboard.DashboardState.ClickDelete | my-crawler-ui/src/pages/Dashboard.tsx:419-427 | the action bar's delete sends the current selection and leaves an action pending |
| Dashboard.DashboardState.RerunSettled | my-crawler-ui/src/pages/Dashboard.tsx:129-131 | a re-run that settles clears `selectedURLs` but keeps the selection |
| Dashboard.DashboardState.DeleteSettled | my-crawler-ui/src/pages/Dashboard.tsx:153-155 | a delete that settles clears `selectedURLs` but keeps the selection, so the action bar stays open on the deleted ids |
| Details.LinkData | my-crawler-ui/src/pages/Details.tsx:97-100 | the link distribution has exactly two slices: internal links, then external links |
| Details.BrokenLinks | my-crawler-ui/src/pages/Details.tsx:104-111 | the broken-link list is empty for an empty text and for a text the parser rejects, and is otherwise the parsed list |
| Details.YesNo | my-crawler-ui/src/pages/Details.tsx:148 | the login flag shows "Yes" iff set and "No" iff not |
| Details.RecordPage | my-crawler-ui/src/pages/Details.tsx:113-205 | the record screen shows the badge, the error line only for a non-empty error, the N/A fallbacks, the six heading counts, the link slices and the broken links, with the "none found" line iff the list is empty |
| Details.Screen | my-crawler-ui/src/pages/Details.tsx:69-95 | the spinner shows while loading, then the error, then the "No data" notice for a missing record, then the record |
| Details.PieCoversKeptHrefs | my-crawler-ui/src/pages/Details.tsx:97-100 | for a freshly crawled record, the two slices add up to the number of hrefs the crawler counted |
| Details.BrokenLinksRoundTrip | my-crawler-ui/src/pages/Details.tsx:104-111 | when parsing reads back what the crawler wrote, a crawl that found broken links shows exactly those links, under a count equal to their number |
| Details.StaleBrokenLinksAfterCleanCrawl | my-crawler-ui/src/pages/Details.tsx:104-111 | a clean re-crawl shows an inaccessible count of 0 while still listing the links of the earlier crawl |
| Details.FreshRecordShowsNoBrokenLinks | my-crawler-ui/src/pages/Details.tsx:104-111 | a record just added, before any crawl has finished, shows no broken links and the "none found" line |

## Left out

- HTTP, polling and the mutation lifecycle are left out: axios, React Query's five-second refetch and cache invalidation, Gin routing and CORS. Poll answers and mutation outcomes are method inputs, and a crawl the back end starts is returned as an id.
- The HTML parser, URL resolution, HEAD requests, `json.Marshal` and `JSON.parse` are function parameters. Only the fallbacks the code adds around them are modelled: the href itself when a URL does not parse, and an empty list when parsing fails.
- Crawler.CrawlURL: broken links are gathered in link order. The source appends them from goroutines in completion order, which is not determined, so every property that does not fix that order states membership and counts. The concurrency itself is not modelled.
- Text.Lower: only ASCII letters change case. JavaScript's `toLowerCase` and Go's `strings.ToLower` also fold other letters.
- Dashboard.Compare: `localeCompare` is modelled as comparison by character code. Locale collation is not modelled; the properties proved depend only on the comparator being antisymmetric.
- Dashboard.SortRecords: the result is that of a stable sort. The ECMAScript sort is stable; the page's comparators are proved antisymmetric and transitive, and with such a comparator a stable sort has exactly one result (that uniqueness is not itself proved).
- Presentation is left out: Chakra markup, toasts, the pie chart's drawing and percentage labels, the arrows in the column headers, and the "Last Updated" date formatting.
- The decorative `Pagination.Root` wrapper is left out, because it drives nothing.
- `UpdatedAt` and the other gorm timestamps are left out, apart from the creation time used for ordering. The JSON timestamps are inputs to UiTypes.Served.
- Database errors other than the unique URL index are left out: the 500 replies of the lookup, re-run and delete paths, and the error detail text.
- The length limit of the URL column (225 characters) is left out.
- Controller.RerunURLAnalyses, Controller.DeleteURLAnalyses and Store.Table.Find: an empty id list (`{"ids":[]}`, which the binding accepts) is modelled as matching no row, so both handlers answer 404. The code pins no gorm version; recent gorm adds no condition for an empty key list, so `Find` returns every live row (the re-run would re-queue them all and answer 200) and `Delete` fails for lack of a WHERE clause (a 500). That version-dependent behaviour is not modelled.
- Store.Table.FirstByUrl, Store.Table.Create and Controller.CreateURLAnalysis: URLs are compared as exact strings. The database compares them under the column's collation, and MySQL's default collations ignore case, so there a URL differing from a stored one only in case finds the existing record (200), or hits the unique index of a deleted row (500), where the model adds a new row (202).
- Store.Table.Find: the database's row order is not specified, so the re-run is proved for every order.
- Parsing of the path parameter of GetURLAnalysis is left out; the id arrives as a number.
- Details.BrokenLinks: a JSON text that parses to something other than an array is not modelled.
- The "Add" button sends the add mutation without looking at `handleSubmit`. The button is disabled while the box is empty, so it has the same effect as Dashboard.DashboardState.HandleSubmit.
- Dashboard.DashboardState.CheckRow: unchecking filters the rendered `selection`, while checking appends to the latest one. The two lists are the same when events are handled one at a time, as the model handles them.
- Dashboard.DashboardState.SelectAll: whether the header checkbox turns on or off is an input. The checkbox component decides it from its displayed state.
- Dashboard.DashboardState.ReceiveSnapshot: the page is not re-clamped when the view shrinks, and selected ids that vanish from the list stay selected. The code does neither.
- Dashboard.DashboardState.RerunSettled and Dashboard.DashboardState.DeleteSettled do not clear the selection the action bar uses. The code clears only `selectedURLs`, which is always empty.
- Dashboard.Compare has no tie-break on the id; equal keys keep their order.
- Crawler.ProcessURL: runs as one step. The source starts it in a goroutine beside the handlers. A delete between its two saves, followed by the save of the stale record, is not modelled; gorm's `Save` could then write the deleted row again. Store.Table.Save therefore requires a live row.
- UiTypes.StatusLabel: upper-cases ASCII letters only (Text.UpperChar). JavaScript's `toUpperCase` can also change the length of the text ("ß" becomes "SS").
- Crawler.ProcessURL, Crawler.CrawlURL: the page request and the HEAD requests always answer in the model. The source uses Go's default HTTP client, which has no timeout, so a server that accepts the connection and never answers leaves the record `running` for good; the re-run handler then never re-queues it. Calls that never return are not modelled.
