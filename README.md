# PDF export of the Hurwitz Law Group report, modelled in Dafny

The report is a set of static HTML pages (`page1.html` … `page18.html`) with an
"Export to PDF" button. Two pipelines turn pages into a PDF:

- **Server pipeline** (`assets/js/pdf-export.js` with `server.js`). The browser client decides
  which pages to export and sanitises their names leniently: anything invalid becomes
  `page1.html`. It sends them as `page=` or a comma-joined `pages=` query. The Node server
  reduces each name to its posix basename and sanitises it strictly: anything invalid fails the
  request with status 400. It then drops repeats, renders each page to a screenshot, and
  fits every screenshot onto an A4 page. It answers with a `Content-Disposition` name, which the
  client parses back to name the download.
- **Legacy client pipeline** (`pdf-export.js`). The page list is built from the document's
  `pageN.html` links plus the current page, then sorted by page number. Each page is rasterised
  and drawn at full page width into a jsPDF A4 document. A tall image is sliced across as many
  pages as it needs. A flag shared across the export decides whether the first slice opens a
  new page.
- **Full-report button** (`assets/js/export-full-report.js`). It hands the fixed
  eighteen-page list, or a caller's non-empty override, to the client exporter.

Modules:

| module | what it holds |
|---|---|
| `Wrappers` | `Option`, `Result` |
| `Text` | JavaScript string operations: `trim`, `split`, `join`, `pop` of a split, `includes`, `endsWith`, `replace`, `indexOf`, ASCII `toLowerCase`, decimal digits |
| `Seqs` | duplicate-freeness, first-occurrence dedup (`[...new Set(xs)]`, the `includes`/`push` loop), a map that stops at the first failure |
| `Js` | the JavaScript values that reach the entry points |
| `PageIdentifier` | the `^[a-zA-Z0-9_-]+\.html$` pattern both sanitisers use, and `page1.html` |
| `ClientExport` | the client module of `assets/js/pdf-export.js` |
| `Server` | `server.js`: sanitiser, list normaliser, download name, status decision |
| `ServerPdf` | `server.js`: `buildPdfFromScreenshots` |
| `LegacyPageList` | `pdf-export.js`: `getPageList` |
| `LegacyPdf` | `pdf-export.js`: `renderPageIntoPDF` and `exportToPDF`, with a `PdfDocument` class for the jsPDF document and a `FirstPageFlag` class for `isFirstPage` |
| `FullReport` | `assets/js/export-full-report.js` |
| `Interop` | the client and the server together: query round trip, download-name round trip |

Behaviour of the code a reader may not expect:

- The client does not drop invalid array entries; it maps each one to `page1.html`. Only empty
  results would be filtered, and the sanitiser never returns one (`ClientExport.ResolveArray`).
- The server sanitiser does not trim and does not reject an empty name; `undefined` and `""`
  become `page1.html`. A path is reduced to its basename rather than rejected, so
  `../x/page2.html` is accepted as `page2.html` (`Server.TraversalIsReducedToBasename`).
  Elements of an array parameter are not trimmed (`Server.ArrayElementIsNotTrimmed`).
- In the legacy renderer a failed fetch is caught by the same `try` as a rasterisation failure.
  The page is skipped and the export goes on (`LegacyPdf.RunSkipsFailures`).

## Model

| member | source | states |
|---|---|---|
| ClientExport.SanitizePageName | assets/js/pdf-export.js:139-155 | the result always matches the identifier pattern; it is the trimmed input exactly when that matches, otherwise `page1.html` (non-strings and blanks included) |
| ClientExport.SanitizeIsIdempotent | assets/js/pdf-export.js:139-155 | sanitising a sanitised name returns it unchanged |
| ClientExport.UpperCaseSuffixIsDefaulted | assets/js/pdf-export.js:146-153 | `Page1.HTML` passes the case-insensitive `.html` test but fails the case-sensitive pattern, so it yields `page1.html` |
| ClientExport.IdentifierEndsWithLowerSuffix | assets/js/pdf-export.js:146-150 | every string the pattern accepts passes the lower-cased `.html` test, so that test never decides alone |
| ClientExport.GetCurrentPageFromLocation | assets/js/pdf-export.js:163-174 | the result is an identifier; a path without `/pages/` gives `page1.html`; a path containing `/pages/` gives the sanitised last `/` segment |
| ClientExport.CurrentPageOfLastSegment | assets/js/pdf-export.js:163-174 | for any path containing `/pages/` and ending in `/<name>`: the trimmed `name` when it is an identifier, `page1.html` otherwise (so `/pages/a.txt` gives `page1.html`) |
| ClientExport.CurrentPageInSubfolder | assets/js/pdf-export.js:163-174 | a page below a sub-folder of `/pages/` is found: `<dir>/pages/<sub>/<name>` yields the identifier `name` |
| ClientExport.CurrentPageInPagesFolder | assets/js/pdf-export.js:163-174 | viewing `<dir>/pages/<name>` for an identifier `name` yields `name` |
| ClientExport.ResolvePagesToExport | assets/js/pdf-export.js:182-197 | whatever the target, the list is non-empty, duplicate-free and made of identifiers |
| ClientExport.ResolveArray | assets/js/pdf-export.js:183-191 | for a non-empty array: the first-occurrence dedup of the sanitised elements; every element contributes its sanitised name (none dropped), nothing else appears, and first-occurrence order is kept |
| ClientExport.FallsBackToLocation | assets/js/pdf-export.js:189-196 | an empty array, a blank string, `undefined` or an object each export just the page being viewed |
| ClientExport.StringTargetIsOneName | assets/js/pdf-export.js:192-193 | a non-blank string becomes exactly one sanitised name |
| ClientExport.CommaListStringIsDefaulted | assets/js/pdf-export.js:192-193 | a comma list passed as one string is not split: it is one invalid name and becomes `page1.html` |
| ClientExport.BuildEndpointForPages | assets/js/pdf-export.js:205-215 | the parameter is `page` exactly when there is one page, and then holds that page; otherwise it is `pages` |
| ClientExport.EndpointValueSplitsBack | assets/js/pdf-export.js:208-212 | splitting the parameter value on `,` gives back the list of comma-free names |
| ClientExport.CaptureRun | assets/js/pdf-export.js:266 | the greedy `[^";]+` run: a slice of the header, made of capture characters, ending at a quote, a `;` or the end |
| ClientExport.FindFilename | assets/js/pdf-export.js:266-269 | a found name is non-empty and free of `"` and `;`; when none is found, no match starts at any position |
| ClientExport.ResolveDownloadFilename | assets/js/pdf-export.js:264-279 | when the header yields a `filename` capture, that capture is the download name |
| ClientExport.FallbackFilename | assets/js/pdf-export.js:272-278 | with no header name, identifiers give `hurwitz-report-<stems joined by ->.pdf` (the `{page}` replace finds nothing left) |
| ClientExport.PagesPlaceholderFilled | assets/js/pdf-export.js:28 | replacing `{pages}` in the template splices the slug between `hurwitz-report-` and `.pdf` |
| ClientExport.ErrorMessage | assets/js/pdf-export.js:351-361 | an `AbortError` always gives the timeout text; the message is one of the four outcomes; a message shown as-is carries the server-down marker |
| ClientExport.ServerDownAndNetworkMessages | assets/js/pdf-export.js:296-303 | the health-check error is shown word for word; a `Failed to fetch` error gets the connect advice |
| ClientExport.MarkerAndFetchBranches | assets/js/pdf-export.js:351-361 | for every error that is no timeout: a message holding the health-check marker is shown as it is (even when it also holds `Failed to fetch`); one holding only `Failed to fetch` gets the connect advice |
| ClientExport.OtherErrorsArePrefixed | assets/js/pdf-export.js:359-361 | any other error is shown as `Error: ` and its message |
| Server.Basename | server.js:36 | the posix basename holds no `/`, and a name without `/` is its own basename |
| Server.BasenameDropsTrailingSlashes | server.js:36 | trailing `/` are dropped before the last segment is taken: `dir/name///` has basename `name` |
| Server.TrailingSlashesAreAccepted | server.js:35-47 | a request naming `<dir>/<identifier>/` (any number of trailing `/`) is accepted as the identifier |
| Server.BasenameOfPath | server.js:36 | the basename of `dir/name` is `name`, whatever `dir` holds |
| Server.CheckCandidate | server.js:38-46 | an accepted candidate comes back unchanged and matches the pattern |
| Server.SanitizePageName | server.js:35-47 | an accepted name matches the pattern and holds no `/` |
| Server.SanitizeDecision | server.js:36-46 | for a non-empty string: accepted as its basename exactly when the basename matches; "Only .html" exactly when it lacks a `.html` suffix in any case; "Invalid page name" exactly in the remaining case |
| Server.SanitizeDefaults | server.js:35-36 | `undefined` and `""` both give `page1.html` |
| Server.SanitizeKeepsIdentifiers | server.js:36-46 | every identifier passes unchanged |
| Server.TraversalIsReducedToBasename | server.js:36-46 | `<dir>/<identifier>` is accepted as the identifier alone |
| Server.NormalizedPages | server.js:71-93 | a successful list is non-empty, duplicate-free and made of identifiers; a falsy value gives `['page1.html']` |
| Server.NormalizedValues | server.js:83-92 | the list made from a truthy parameter's values is again non-empty, duplicate-free and made of identifiers |
| Server.NormalizePageList | server.js:71-93 | the method returns exactly the normalised list, or the first error |
| Server.SanitizeUnique | server.js:83-90 | the `includes`/`push` loop yields the dedup of the sanitised values, or the first value's error |
| Server.NormalizeIsAllOrNothing | server.js:83-92 | for the values of a truthy parameter: the call fails exactly when some value fails, with the first failing value's error, and no partial list; otherwise it is the sanitised values deduplicated in first-occurrence order |
| Server.NormalizeOfAccepted | server.js:83-92 | when every value of a truthy parameter is accepted, the list is their dedup |
| Server.PageValuesOfJoin | server.js:76-81 | a comma-joined list of identifiers is split and trimmed back into the identifiers |
| Server.NormalizeOfJoin | server.js:76-92 | a comma-joined list of identifiers normalises to its dedup |
| Server.NormalizeJoinRoundTrip | server.js:76-92 | a comma-joined list of distinct identifiers normalises to itself |
| Server.RepeatedNameIsKeptOnce | server.js:83-92 | `a,a,b` normalises to `[a, b]` |
| Server.StringListIsTrimmed | server.js:78-81 | a string parameter's piece is trimmed before it is sanitised |
| Server.ArrayElementIsNotTrimmed | server.js:76-77 | an array element is used untrimmed, so a padded name fails the call |
| Server.DownloadName | server.js:314-316 | the download name ends in `.pdf` |
| Server.DownloadNameShape | server.js:314-316 | a single page gives its name with `.html` replaced by `.pdf`; several give `hurwitz-report-<stems joined by ->.pdf`; no name holds `"` or `;` |
| Server.SinglePageDownloadName | server.js:314-316 | `[x.html]` downloads as exactly `x.pdf` |
| Server.HandleGeneratePdf | server.js:292-335 | status 400 exactly when the page parameter is rejected; 500 exactly when it is accepted and the renderer fails; 200 with a PDF exactly when both succeed |
| Server.ValidationFailureNeverRenders | server.js:297-309 | a rejected parameter yields the same 400 response whatever the renderer would do, so the renderer is never consulted |
| Server.SuccessCarriesRenderedPdf | server.js:312-322 | a 200 response carries exactly the renderer's bytes and length, under the download name of the normalised list |
| ServerPdf.FitScale | server.js:268-272 | the scale lies in (0, 1] and the scaled image fits within the page less its margins |
| ServerPdf.FitScaleIsLargest | server.js:270-272 | no larger scale of at most 1 fits, so the image is shrunk no more than it must be |
| ServerPdf.FittingScreenshotIsNotScaled | server.js:272 | a screenshot that already fits is drawn at its natural size |
| ServerPdf.PlaceOnA4 | server.js:273-283 | the aspect ratio is kept, the image is never enlarged, it fits the margins and is centred on both axes |
| ServerPdf.BuildPdfFromScreenshots | server.js:256-288 | one A4 page per screenshot, in order, each holding that screenshot placed as above |
| LegacyPageList.PageNumberOfPageFile | pdf-export.js:15-22 | the pattern accepts `page<n>.html` and `parseInt` of its digits recovers `n` |
| LegacyPageList.PageFilesDiffer | pdf-export.js:15 | different page numbers name different files |
| LegacyPageList.BeforeFragmentIsPrefix | pdf-export.js:11 | `split('#')[0]` is the longest `#`-free prefix of the href |
| LegacyPageList.BeforeFragmentDropsFragment | pdf-export.js:11 | a `#fragment` after a `#`-free path is removed |
| LegacyPageList.CandidatesMembers | pdf-export.js:8-11 | the candidates are exactly the fragment-free forms of the non-empty hrefs |
| LegacyPageList.CollectNumbered | pdf-export.js:17-24 | every collected entry carries the page number of its own file |
| LegacyPageList.CollectIsDedupOfLinks | pdf-export.js:17-24 | the collected files are the page-file last segments of the candidates, each kept once at its first occurrence |
| LegacyPageList.LinkedFilesMembers | pdf-export.js:18-20 | a file is collected exactly when it is a non-empty page file and the last segment of some candidate |
| LegacyPageList.CollectPages | pdf-export.js:13-24 | the loop's `pages` is the collected list and its `seen` set holds exactly the files of `pages` |
| LegacyPageList.UnsortedPages | pdf-export.js:26-31 | before sorting: the collected files, with the current page appended unless already seen |
| LegacyPageList.SortByNumSortsAndPermutes | pdf-export.js:34 | the sort orders entries by number (the placeholder last) and is a permutation |
| LegacyPageList.SortByNumStable | pdf-export.js:34 | the sort is stable: entries with equal numbers keep their discovery order |
| LegacyPageList.PageListMembers | pdf-export.js:6-36 | a file is listed exactly when it is the current page or a collected page file |
| LegacyPageList.PageListOfLinks | pdf-export.js:6-36 | a file is listed exactly when it is the current page, or a page file that is the last segment of the fragment-free form of a non-empty href |
| LegacyPageList.PageListDistinct | pdf-export.js:17-31 | no file is listed twice |
| LegacyPageList.CurrentPageListedOnce | pdf-export.js:27-31 | the current page is listed exactly once, so the list is never empty |
| LegacyPageList.PageListSorted | pdf-export.js:33-35 | the listed files are ordered by page number, the placeholder after all numbers |
| LegacyPageList.OnlyCurrentPageIsUnnumbered | pdf-export.js:27-31 | only the current page can sort with the placeholder number |
| LegacyPageList.UnnumberedCurrentPageIsLast | pdf-export.js:29-34 | a current page that is no `page<n>.html` file comes last |
| LegacyPageList.ExamplePageList | pdf-export.js:6-36 | links to pages `c`, `a` and `b#top` seen from page `a`, with `a < b < c`, list pages `a`, `b`, `c` |
| LegacyPageList.GetPageList | pdf-export.js:6-36 | the method returns the page list above |
| LegacyPdf.ImageHeight | pdf-export.js:156-158 | the drawn height is positive and keeps the captured image's aspect ratio at the page width |
| LegacyPdf.SliceCountCovers | pdf-export.js:168-176 | the slices of an image cover its height, and one slice fewer would not |
| LegacyPdf.HeightLeftIsPositive | pdf-export.js:169-175 | after `k` slices the height left is positive exactly when `k` is below the slice count, so the loop stops there |
| LegacyPdf.SliceCountIsLeast | pdf-export.js:168-176 | the slice count is the least `k >= 1` with `k` page heights covering the image |
| LegacyPdf.TwoPointFourPagesTakeThreeSlices | pdf-export.js:168-176 | an image 2.4 page heights tall takes three `addImage` calls |
| LegacyPdf.ComposedLayout | pdf-export.js:160-176 | earlier pages are untouched; slice 0 goes at offset 0 on the current last page; slice `i` goes alone on a new page at offset `-i` page heights |
| LegacyPdf.RenderPageCount | pdf-export.js:163-179 | a failed capture changes nothing; a successful one clears the flag and adds one page per slice, less one when it is the document's first |
| LegacyPdf.FlagStaysTrueUntilSuccess | pdf-export.js:201-214 | `isFirstPage` is still set after the loop exactly when it was set before and every capture failed |
| LegacyPdf.RunSkipsFailures | pdf-export.js:203-214 | failed captures leave no trace: the document equals the one built from the successful captures alone |
| LegacyPdf.FreshRunPageCount | pdf-export.js:200-214 | the document has one page per slice of all successful captures (one blank page when there is none), and the flag is still set exactly when there was none |
| LegacyPdf.FitFailFitGivesTwoPages | pdf-export.js:163-179 | two one-page captures with a failure between them give two pages, one image each |
| LegacyPdf.Captures | pdf-export.js:203-213 | one capture per listed page, in list order |
| LegacyPdf.ExportAlwaysSavesWithLibraries | pdf-export.js:188-217 | with the libraries loaded the "No pages" alert cannot fire: the document is saved as `hurwitz-law-group-report.pdf` with a page per slice |
| LegacyPdf.PdfDocument.AddPage | pdf-export.js:164 | `addPage` appends an empty page and keeps the others |
| LegacyPdf.PdfDocument.AddImage | pdf-export.js:168 | `addImage` draws on the last page only |
| LegacyPdf.RenderPageIntoPdf | pdf-export.js:93-180 | the method updates the shared document and flag exactly as the render step above describes |
| LegacyPdf.ExportToPdf | pdf-export.js:182-229 | the method alerts when the libraries are missing or the list is empty, otherwise saves the document the loop over the page list builds |
| FullReport.ReportPagesAreNumbered | assets/js/export-full-report.js:2-6 | `REPORT_PAGES` has 18 entries, and entry `i` is `page{i+1}.html` |
| FullReport.NumberedPages | assets/js/export-full-report.js:2-6 | the list of `page1.html`…`page{n}.html`: length `n`, entry `i` is `page{i+1}.html` |
| FullReport.ReportPagesAreDistinctIdentifiers | assets/js/export-full-report.js:2-6 | the entries are pairwise distinct and match the identifier pattern |
| FullReport.ReportPagesPassBothSanitizers | assets/js/export-full-report.js:2-6 | every entry passes the client's and the server's sanitiser unchanged |
| FullReport.ResolvePagesOverride | assets/js/export-full-report.js:8-13 | the result is never empty; a non-empty array override is returned as it is, anything else gives `REPORT_PAGES` |
| FullReport.ExportFullReport | assets/js/export-full-report.js:15-29 | the pages go to the exporter exactly when it is loaded, and they are the resolved override |
| FullReport.DefaultReportIsExportedInOrder | assets/js/export-full-report.js:8-23 | without an override the client exports exactly the eighteen report pages, in order |
| FullReport.ServerReadsReportPagesBack | server.js:76-92 | the server normalises the comma-joined report pages back to the same eighteen pages |
| Interop.QueryRoundTrip | assets/js/pdf-export.js:205-215 | a non-empty list of distinct identifiers sent as the query is read back by the server as the same list |
| Interop.ServerReadsClientList | assets/js/pdf-export.js:182-215 | whatever the client was asked to export, the server renders exactly the list the client resolved |
| Interop.FirstMatchIsFound | assets/js/pdf-export.js:266 | the leftmost match is the first position where one starts |
| Interop.DispositionNameIsFound | assets/js/pdf-export.js:266-269 | the client's pattern applied to `attachment; filename="<name>"` captures `<name>` |
| Interop.DownloadNameRoundTrip | server.js:314-319 | when the client can read the `Content-Disposition` header (same origin), it saves the PDF under the download name the server chose |
| Interop.HiddenHeaderDownloadName | assets/js/pdf-export.js:264-279 | when the header is hidden (a page from another origin), the client's fallback name equals the server's for several pages and is `hurwitz-report-` + the server's name for one page, so the two differ there |
| Interop.HiddenHeaderOnePage | assets/js/pdf-export.js:264-279 | for one page `x.html` without a readable header the client saves `hurwitz-report-x.pdf`, the server's `x.pdf` prefixed |
| Interop.HiddenHeaderSeveralPages | assets/js/pdf-export.js:264-279 | for several pages without a readable header the client's fallback equals the server's download name |
| Interop.ExportExchange | assets/js/pdf-export.js:285-341 | when the renderer succeeds on the client's list, the answer is 200 with the rendered bytes, and a client that can read the header names the file with the server's download name |

## Left out

- DOM work is not modelled: the overlay and progress text, the hidden container, stylesheet
  injection, `downloadBlob` and `alert` (as a side effect; the alert texts are modelled as
  outcomes). These are browser side effects.
- Network and timing are not modelled: `fetch`, `checkServerStatus`, the `AbortController` and
  its timeout, the settle waits and the 15 s `html2canvas` race. Their outcomes enter the model
  as values: a `JsError` for the client, a `Capture` (image size, or failure) for the legacy
  renderer.
- The client's handling of non-OK responses and non-PDF blobs is not modelled; those messages
  reach `ClientExport.ErrorMessage` only as an error message.
- Puppeteer rendering (`generatePDF`, server.js:103-247) is a parameter of
  `Server.HandleGeneratePdf`.
- The existence check (`assertPageExists`, server.js:55-63) is inside that parameter's failure
  case.
- `pdf-lib` embedding and `save` are not modelled.
- Express routing, static serving, the health endpoint, `app.listen` and signal handlers are not
  modelled.
- Floating point is not modelled: page geometry is over Dafny `real`, so IEEE-754 rounding is
  absent.
- Only the page size is modelled of jsPDF; `getImageProperties` becomes the capture's pixel
  size, taken to be at least one pixel.
- `pdf.save` is an outcome value and the file is not written.
- The alert for an exception outside the per-page `try` (pdf-export.js:218-220) is not modelled.
  With capture abstracted, nothing in the model can throw there.
- `ClientExport.ResolveDownloadFilename`: JavaScript's `$` patterns in `replace` replacements are
  not modelled, because identifiers cannot contain `$`.
- URL percent-encoding of the query value is not modelled: `URLSearchParams` percent-encodes it
  (`,` as `%2C`) and Express decodes it, and the two are taken to cancel.
- `Interop.DownloadNameRoundTrip` and `Interop.ExportExchange` assume the client can read the
  `Content-Disposition` header, that is, a page served from the server's own origin. `cors()`
  with its defaults (server.js:23) exposes no extra response header, so from another origin the
  client falls back to its own name; `Interop.HiddenHeaderDownloadName` states that case.
- `parseInt` is modelled as exact. Above 2^53 it loses precision, and so does the comparator's
  subtraction; that is not modelled.
- The `Number.MAX_SAFE_INTEGER` placeholder of an unnumbered current page is a separate
  `Unknown` value that sorts after every number. The model therefore also puts a current page
  last after links numbered above 2^53 - 1, which the code would not.
- The legacy hrefs' resolution against the location (`new URL(href, …)`) is not modelled. It
  goes into the capture function.
- `toLowerCase` and the `/i` regex flag are modelled on ASCII only. They are used only to test
  for `.html`, `page` and `filename=`. This is exact for these tests: no non-ASCII character
  lower-cases to a single one of their letters, and `/i` without `u` never folds a non-ASCII
  character to an ASCII one.
- `path.basename` is modelled for posix paths as `split('/')` after trailing slashes. A
  non-string value is not modelled by Node's own `TypeError` text; it is the `PathNotString`
  error, which the server likewise answers with status 400.
- Concurrent exports sharing the container or tab are not modelled, because that is concurrency.
- `LegacyPageList.SegmentNumber` models `/(^|\/)page(\d+)\.html$/i` on the last path segment
  only. That is the only string the code applies it to, so the `(^|\/)` alternative always
  matches the start.
