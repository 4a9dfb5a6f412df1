# GardenSeeds order extractor — verified model of its decision logic

The extractor logs into the GardenSeeds Trading customer portal with a headless browser,
reads the order listing, keeps the orders (`pedidos`) of one target date, reads each
order's detail table into line items (`productos`) and writes a JSON report. This
project models, in Dafny, the logic between the browser calls, with the browser's
answers turned into plain inputs:

- **Login verdict** (`login.dfy`, module `Login`): after the form is submitted, the
  rendered page is searched for `Salir` (also case-folded), `Mi cuenta` and
  `Cerrar sesión`; failing that, the login form still being found means failure and its
  absence means success; any fault earlier in the sequence means failure. The run is an
  input `LoginRun = Faulted | Submitted(page, formStillPresent)`.
- **Listing** (`listing.dfy`, module `Listing`): a table row (cells with trimmed text and
  the first anchor of each cell) becomes a record when it has two cells, its first cell
  holds an anchor and the anchor's `href` ends in `/pedido/<word characters>`; that run
  is the id. The raw `D/M/Y` date is split on `/` and, when there are exactly three
  parts, reordered to `Y-M-D`, without any numeric check. The records whose reordered
  date equals the target date are kept, in order, each stamped with that date.
- **Detail row classifier** (`detail.dfy`, module `Detail`): a row with at least two
  cells is scanned over its first six cells; the reference code is claimed from cell 0
  or 1 (`^[A-Z0-9-]+$`, longer than 2), the quantity by a digit-only cell with value in
  1..9999 while the quantity still reads 1 (so a cell `1` leaves it open and the
  quantity is the first value in 2..9999, or 1), the description by the first cell
  longer than 20 characters, cut to 100. A row yields a line item only with a reference
  code.
- **Orchestration** (`extractor.dfy`, module `Extractor`): a failed login or a fault
  while loading the listing aborts the run (exit code 1, the report is not saved);
  otherwise each candidate's detail page is fetched inside its own failure boundary,
  successful ones are appended with their items, the item count is accumulated, and
  the report ends with `success` true and `total_pedidos` equal to the number of orders.
- `text.dfy` (module `Text`) holds the string operations the stages share: ASCII
  lower-casing, substring containment, Python's `str.split` on one character, and
  decimal digit strings. `wrappers.dfy` holds `Option`.

Three behaviours of the code that the model keeps as written:

- The quantity guard (`cantidad === 1`) treats a field still holding its default `1` as
  unset, so a cell reading `1` leaves the field open and a later digit-only cell with a
  larger value still sets it (`Detail.LeadingOneDoesNotBlock`).
- Every fault inside the login sequence (site load, form reveal, filling, submission) is
  caught and becomes a `false` verdict, so each of them aborts the run with the single
  message `Login falló`.
- An aborted run returns exit code 1 before the report is written, so no report is saved
  on any aborted path. `Aborted` carries the report that is discarded.

The loops of the source (the `forEach` over listing rows, the date filter, the loop
over a row's cells, the loop over detail rows, the aggregation loop) are methods with
`while` loops proved equal to recursive specification functions; the properties are
proved about those functions.

## Model

| member | source | states |
|---|---|---|
| `Text.ContainsIff` | gardenseeds_extractor.py:76-79 | the `in` test used for the session markers holds exactly when the piece occurs at some position of the page |
| `Text.LowerStr` | gardenseeds_extractor.py:78 | the lowered page has the same length and each character is the ASCII lower-case of the original |
| `Text.ContainsLower` | gardenseeds_extractor.py:77-78 | an occurrence of a piece survives lower-casing both the page and the piece |
| `Text.Split` | gardenseeds_extractor.py:156 | `split('/')` gives one more part than there are slashes, and no part contains a slash |
| `Text.JoinSplit` | gardenseeds_extractor.py:156 | gluing the parts back with the separator gives the input: splitting loses nothing |
| `Text.SplitJoin` | gardenseeds_extractor.py:156 | splitting slash-free pieces joined by slashes gives back exactly those pieces |
| `Login.Verdict` | gardenseeds_extractor.py:77-95 | the verdict is true exactly when the sequence did not fault and the lowered page contains `salir`, or the page contains `Mi cuenta` or `Cerrar sesión`, or the login form is gone |
| `Login.MarkerCaseInsensitive` | gardenseeds_extractor.py:77-80 | the four marker tests are equivalent to three: the case-sensitive `Salir` test is subsumed by the case-folded one |
| `Login.AnyCaseSalirLogsIn` | gardenseeds_extractor.py:78 | a page holding any spelling that lowers to `salir` (`SALIR`, `Salir`, ...) is accepted whatever the form probe says |
| `Login.FailureIffFormPersists` | gardenseeds_extractor.py:84-91 | after submission the verdict is false exactly when no marker is present and the form is still found |
| `Login.AccountMarkerIsCaseSensitive` | gardenseeds_extractor.py:79 | `mi cuenta` in lower case is not a marker: with the form still present the verdict is false |
| `Listing.WordRunLength` | gardenseeds_extractor.py:133 | the counted run at the end of the href is all word characters and stops at the start or at a non-word character |
| `Listing.ExtractIdMatchesPattern` | gardenseeds_extractor.py:133-134 | a returned id is a non-empty run of `[A-Za-z0-9_]` that ends the href right after `/pedido/`; and whenever the href has that shape for some id, that id is returned, so the match is unique |
| `Listing.PedidoIdIsWordRun` | gardenseeds_extractor.py:133 | any id the pattern can match is exactly the run of word characters ending the href, preceded by `/pedido/` |
| `Listing.ParseRow` | gardenseeds_extractor.py:123-143 | a row yields a record exactly when it has at least two cells, its first cell has an anchor and that anchor's href ends in `/pedido/<id>`; the record carries that id, the anchor text, the second cell's text and the href, with no formatted date |
| `Listing.ParsedRecords` | gardenseeds_extractor.py:119-146 | there are at most as many records as rows; each has a well-formed id matching its href, no formatted date, and is the record of some row |
| `Listing.ParsedRecordsMembership` | gardenseeds_extractor.py:122-144 | a record is produced exactly when some row parses to it |
| `Listing.ParsedRecordsAppend` | gardenseeds_extractor.py:122-144 | parsing two blocks of rows gives the first block's records followed by the second's: row order is kept |
| `Listing.ParseListing` | gardenseeds_extractor.py:119-146 | the row loop pushes exactly the records of the specification, in row order |
| `Listing.FormatDate` | gardenseeds_extractor.py:156-158 | the reorder is defined exactly when the raw date holds two slashes |
| `Listing.FormatDateRoundTrip` | gardenseeds_extractor.py:156-158 | slash-free `d`, `m`, `y` written `d/m/y` become `y-m-d`, pieces unchanged and not checked to be numbers |
| `Listing.FormatDateSound` | gardenseeds_extractor.py:156-158 | every accepted raw date is `d/m/y` with slash-free pieces and becomes `y-m-d` |
| `Listing.Filtered` | gardenseeds_extractor.py:153-164 | at most as many records come out as went in; each carries the target as formatted date and its raw date reorders to the target |
| `Listing.FilteredMembership` | gardenseeds_extractor.py:154-162 | a record comes out exactly when it is an input record whose raw date reorders to the target, stamped with the target |
| `Listing.FilteredAppend` | gardenseeds_extractor.py:153-162 | filtering two blocks gives the first block's survivors followed by the second's: the result is an in-order subsequence |
| `Listing.FilterByDate` | gardenseeds_extractor.py:153-167 | the filter loop returns exactly the specified records, in order |
| `Detail.Window` | gardenseeds_extractor.py:195 | the cells examined are exactly the first six of the row, or the whole row when it is shorter |
| `Detail.FirstRef` | gardenseeds_extractor.py:198-200 | a claimed reference code has the code shape and length |
| `Detail.FirstQuantity` | gardenseeds_extractor.py:192-204 | the quantity is always in 1..9999 |
| `Detail.FirstDescription` | gardenseeds_extractor.py:193-208 | the description is empty or between 21 and 100 characters long |
| `Detail.RowItem` | gardenseeds_extractor.py:187-217 | a row yields an item exactly when it has two cells and cell 0 or cell 1 is a reference code; the code is cell 0 when it qualifies, else cell 1; the quantity and description are those the field rules pick from the first six cells; quantity in 1..9999; description empty or 21..100 characters |
| `Detail.FirstQuantitySnoc` | gardenseeds_extractor.py:202-204 | one more cell keeps a claimed quantity and otherwise lets the cell claim it |
| `Detail.FirstDescriptionSnoc` | gardenseeds_extractor.py:206-208 | one more cell keeps a claimed description and otherwise lets the cell claim it |
| `Detail.ClassifyRow` | gardenseeds_extractor.py:188-217 | the cell loop with the source's guards (including `cantidad === 1`) yields exactly the specified item |
| `Detail.QuantityIsFirstClaim` | gardenseeds_extractor.py:192-204 | the quantity is the value of the first cell reading 2..9999, and 1 exactly when no cell does |
| `Detail.DescriptionIsFirstLong` | gardenseeds_extractor.py:193-208 | the description is the first cell longer than 20 characters, cut to 100, and empty exactly when no cell is that long |
| `Detail.WindowOnly` | gardenseeds_extractor.py:195 | cells after the sixth never change the item |
| `Detail.LeadingOneDoesNotBlock` | gardenseeds_extractor.py:202 | in `AB-12, 1, 7` the cell `1` leaves the quantity open and the item gets quantity 7 |
| `Detail.CodeDescriptionCountRow` | gardenseeds_extractor.py:195-217 | a row laid out as code, empty cell, long text, count gives that code, the cut text and the count |
| `Detail.Products` | gardenseeds_extractor.py:184-220 | a table yields no more items than rows, each with a valid code, quantity in 1..9999 and description empty or 21..100 characters |
| `Detail.ProductFromRow` | gardenseeds_extractor.py:184-220 | every item of the table is the item of one of its rows |
| `Detail.RowToProduct` | gardenseeds_extractor.py:184-220 | the item any row yields is in the table |
| `Detail.ProductsMembership` | gardenseeds_extractor.py:184-220 | an item is in the table exactly when some row yields it |
| `Detail.ProductsAppend` | gardenseeds_extractor.py:184-220 | the table's items keep row order: the items of two blocks of rows are the first block's followed by the second's |
| `Detail.SingleRowProducts` | gardenseeds_extractor.py:184-220 | each row contributes exactly its own item, or nothing |
| `Detail.ExtractProducts` | gardenseeds_extractor.py:182-222 | the row loop pushes exactly the specified items, in row order |
| `Detail.NoReferenceNoProducts` | gardenseeds_extractor.py:211-217 | a table none of whose rows has a reference code in its first two cells yields no items |
| `Extractor.ExitCode` | gardenseeds_extractor.py:307-321 | the exit code is 0 exactly when the run finished with a successful report, else 1 |
| `Extractor.Candidates` | gardenseeds_extractor.py:110-167 | no table gives no candidates; every candidate carries the target date and an id matching its href |
| `Extractor.CandidateIff` | gardenseeds_extractor.py:119-164 | a record is a candidate exactly when some row parses to a record whose raw date reorders to the target, stamped with it |
| `Extractor.GetPedidos` | gardenseeds_extractor.py:109-167 | the listing stage returns exactly the candidates: parse, then filter, or nothing without the table |
| `Extractor.SuccessfulOrders` | gardenseeds_extractor.py:291-299 | at most one order per candidate; each is a candidate whose detail page loaded, with that page's items |
| `Extractor.SuccessfulOrdersAppend` | gardenseeds_extractor.py:291-299 | orders keep candidate order: the orders of two blocks of candidates are the first block's followed by the second's |
| `Extractor.OrderMembership` | gardenseeds_extractor.py:291-299 | an order is present exactly when its candidate's page loaded, carrying that page's items |
| `Extractor.OrdersPlusFailures` | gardenseeds_extractor.py:291-299 | orders plus faulted fetches equal the number of candidates: a failure drops only its own candidate |
| `Extractor.OneFailureIsolated` | gardenseeds_extractor.py:291-301 | with exactly one faulting candidate among N, N - 1 orders remain |
| `Extractor.NoFaultKeepsAll` | gardenseeds_extractor.py:291-299 | with no fault, every candidate becomes an order in its own position |
| `Extractor.OneLoadedOneFaulted` | gardenseeds_extractor.py:291-299 | a loaded one-row candidate followed by a faulting one gives one order with that row's item and one item in all |
| `Extractor.Aggregate` | gardenseeds_extractor.py:285-301 | the report is successful with no error (even when every fetch faulted or there were no candidates), its orders are the successful candidates in order, `total_pedidos` is their number and `total_productos` the sum of their item counts |
| `Extractor.Run` | gardenseeds_extractor.py:259-310 | a failed login aborts with `Login falló`; a listing fault aborts with its message; an aborted report is unsuccessful with an error; otherwise the run finishes with the aggregated report for the target date; exit code 0 exactly when login succeeded and the listing loaded |

## Left out

- Browser interaction (navigation, waits for selectors, navigation and network idle, clicks, form filling, fixed sleeps, in-page script evaluation): their outcomes are inputs — `LoginRun`, `ListingPage`, and a function from a record to its `DetailPage`.
- The detail fetch is a function of the record: the session's changing state (the same record fetched twice may differ) is not modelled.
- The individual fault points of the login sequence (site load, form reveal and its fallback, form wait, filling, submission and its fallback) are summarised by one `Faulted` outcome, which is all the verdict depends on.
- Browser launch and context configuration, and a fault while launching (which would abort the run like a listing fault).
- Run: faults raised while closing the browser context and the browser (gardenseeds_extractor.py:304-305) are not modelled; such a fault would abort the run with exit code 1 and no saved report, so `Run`'s exit-code-0 promise assumes closing succeeds.
- Command-line parsing and the default date computed from the clock: the target date is a parameter.
- Logging, and the report's `timestamp` (wall clock).
- Credentials from the environment.
- Writing the JSON file: `Finished` carries the report that would be written; `Aborted` carries the report that is discarded.
- Trimming of cell text: cells arrive trimmed.
- Unicode lower-casing: only ASCII letters are lowered.
- Lengths (`> 2`, `> 20`, `substring(0, 100)`) count characters, not UTF-16 code units.
- `parseInt` on very long digit strings: the exact decimal value is used, not a rounded double.
- A missing `href` attribute (a `TypeError` inside the page script): every anchor has a string href.
- The date filter also writes `fecha_formatted` into records it then discards; those records are local to the listing stage and never seen again, so only the kept records carry it.
- Re-parsing the same listing gives the same candidates: immediate for a function, so not stated separately.
