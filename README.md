# RBI circular checker — verified model of its decision core

`App.py` watches the Reserve Bank of India's circulars index. It renders
the index page, takes the first circular listed there as the latest one,
and resolves that circular's detail page to a PDF. The PDF is either a
linked or embedded file, one of three URLs guessed from the circular's
identifier, or a document synthesized from the page's HTML. The program
then downloads or synthesizes the document, uploads it with a checklist,
sends a notification, and records the circular's number so the next run
skips it.

This project models the deterministic part of that work in Dafny and
proves what it guarantees. Every interaction with the outside world is an
input: the browser's rendered page, the answers of the PDF check, `urljoin`, the
clock, the downloads, the Google services and the state file.

| file | module | what it models |
|---|---|---|
| `base.dfy` | `Base` | `Option` and Python truthiness of an optional string |
| `text.dfy` | `Text` | the `str` operations the program relies on (`in`, `split`, `rsplit`, `endswith`, ASCII `lower`), built on first- and last-occurrence search |
| `index_parser.dfy` | `IndexParser` | `parse_circulars_table` (a method with nested loops, proved against a recursive specification) and the choice of the latest circular |
| `pdf_check.dfy` | `PdfCheck` | the acceptance rule of `check_pdf_url_exists` over the outcome of its HEAD request |
| `resolver.dfy` | `Resolver` | `get_pdf_from_circular_page` with its three scans, and `generate_pdf_from_circular_id`; the answers of `check_pdf_url_exists` are the parameter `valid` |
| `naming.dfy` | `Naming` | the `safe_name` sanitiser, the artifact file names and the name `download_pdf` stores a PDF under |
| `orchestrator.dfy` | `Orchestrator` | one run of `main`: the already-processed check, the routing on the resolver's pair, the early exits and the single state write at the end |

The loops keep their imperative form. `ParseCircularsTable`,
`CollectAnchorLinks`, `CollectEmbedLinks` and `TryGeneratedUrls` are
proved equal to recursive specification functions, and the properties are
proved about those functions. `CircularChecker.RunOnce`, with its early
returns, is proved equal to the function `Run`. `GetPdfFromCircularPage`
returns a member of `Collected`, or `HtmlOnly` exactly when `Collected`
is empty.

## Model

| member | source | states |
|---|---|---|
| `IndexParser.RowToCircular` | App.py:155-163 | the record read from a row takes its href and circular number from the first cell's link and date, department and subject from cells 1-3; its href holds the detail-page marker |
| `IndexParser.ParseCircularsTable` | App.py:144-168 | the nested scan over tables and rows returns exactly `CircularsOfTables(doc)` |
| `IndexParser.CircularsOfRowsAppend` | App.py:148-165 | parsing two runs of rows gives the records of the first run followed by those of the second |
| `IndexParser.MalformedRowDropped` | App.py:151-154 | a row with fewer than four cells, or without a detail-page link in its first cell, is dropped and shifts nothing around it |
| `IndexParser.WellFormedRowKept` | App.py:151-164 | a row that passes the structural test contributes its own record, in place |
| `IndexParser.TablesAreRowsInOrder` | App.py:146-149 | the records appear in document order: table by table, row by row |
| `IndexParser.ParsedRecordHasRow` | App.py:151-164 | every parsed record comes from some row that passes the structural test |
| `IndexParser.RowYieldsParsedRecord` | App.py:151-164 | every row that passes the structural test yields a parsed record |
| `IndexParser.CircularsOfRowsMembership` | App.py:151-164 | a record is parsed if and only if some row that passes the structural test yields it |
| `IndexParser.FirstCircularIsFirstWellFormedRow` | App.py:270-275 | the list is empty if and only if no row passes; otherwise its first record is that of the first passing row |
| `IndexParser.LatestCircular` | App.py:270-278 | with a `urljoin` that never raises, no latest circular if and only if no row of the page passes; otherwise it is the first passing row's record, with its link resolved against `https://rbi.org.in/Scripts/` |
| `PdfCheck.PdfResponseIff` | App.py:187-197 | a URL is accepted if and only if the HEAD request succeeds with status 200 and a content type containing `pdf` in any case; a failed request is never accepted |
| `PdfCheck.ValidationExamples` | App.py:188-197 | `application/pdf` and `Application/PDF; charset=binary` pass; `text/html`, a 404, a missing content type and a failed request do not |
| `Text.IndexOf` | App.py:212-213 | the result is the first index where the pattern occurs, or absent exactly when it occurs nowhere |
| `Text.LastIndexOf` | App.py:307 | the result is the last index where the pattern occurs, or absent exactly when it occurs nowhere |
| `Text.Before` | App.py:213 | `split(sep)[0]` is a prefix free of `sep` at whose positions no `sep` starts, ends where the first `sep` starts, and is the whole string when there is no `sep` |
| `Text.After` | App.py:213 | `split(sep, 1)[1]` is the suffix that starts right after an occurrence of `sep` before which no `sep` starts, so it runs from the first `sep` to the end; `split(sep)[1]` is then `Before` of it |
| `Text.AfterLast` | App.py:304 | `rsplit(sep, 1)[-1]`, which is `split('/')[-1]` for the one-character `/`, is a suffix free of `sep` that starts right after the last occurrence of `sep`, or the whole string when there is none |
| `Text.BeforeLast` | App.py:307 | `rsplit(sep, 1)[0]` is a prefix that ends where the last `sep` starts, or the whole string when there is none |
| `Resolver.CircularId` | App.py:211-213 | the identifier is absent if and only if the URL lacks `?Id=` |
| `Resolver.CircularIdShape` | App.py:212-213 | the identifier is the text right after the first `?Id=`; it holds no `&` and no `?Id=`, and it ends at the end of the URL, at an `&` or at another `?Id=` |
| `Resolver.GeneratePdfUrls` | App.py:171-177 | exactly three guesses |
| `Resolver.GeneratedUrlsProperties` | App.py:171-177 | each guess embeds the identifier, the three are pairwise distinct, and different identifiers give different guesses |
| `Resolver.FirstAccepted` | App.py:233-237 | the first guess that validates: absent if and only if none validates, otherwise a validating guess preceded only by rejected ones |
| `Resolver.ValidatedHasSource` | App.py:217-229 | every URL collected from a scan validates and is the resolved form of a source that passes the scan's filter |
| `Resolver.SourceIsValidated` | App.py:217-229 | a source that passes the scan's filter and whose resolved URL validates is collected |
| `Resolver.ValidatedMembership` | App.py:217-229 | a URL is collected from a scan if and only if it validates and is the resolved form of a source that passes the scan's filter |
| `Resolver.ValidatedAppend` | App.py:216-229 | scanning two runs of sources collects the URLs of the first run, then those of the second |
| `Resolver.ValidatedStep` | App.py:217-229 | scanning one more source adds its resolved URL exactly when the source passes the filter and the URL validates |
| `Resolver.ValidatedSkipsRejected` | App.py:219-226 | a source the filter rejects contributes nothing, wherever it stands |
| `Resolver.CollectedProvenance` | App.py:216-237 | every collected URL validated and comes from a filtered anchor or embedded source, or, only when the page yielded nothing, from the guesses for a non-empty identifier |
| `Resolver.CollectedComplete` | App.py:217-229 | every filtered anchor or embedded source whose resolved URL validates is collected |
| `Resolver.HtmlOnlyIff` | App.py:231-242 | nothing is collected, so the circular is HTML-only, if and only if no filtered page source validates and either there is no non-empty identifier or no guess validates |
| `Resolver.FallbackAddsFirstAccepted` | App.py:231-237 | when the page yields nothing, at most one URL is collected: the first guess that validates |
| `Resolver.PageCandidatesTakePriority` | App.py:231 | when the page yields a candidate, the guesses are not consulted |
| `Resolver.WatermarkedRejected` | App.py:219-226 | neither the anchor filter nor the embedded-source filter accepts a string that mentions `utkarsh` in any case |
| `Resolver.EmbedSourcesInsert` | App.py:224-225 | inserting an embedded element inserts its source at the same position |
| `Resolver.WatermarkedAnchorIgnored` | App.py:217-222 | inserting a rejected anchor anywhere changes nothing the anchor scan collects |
| `Resolver.WatermarkedEmbedIgnored` | App.py:224-229 | inserting, anywhere, any embedded element whose source (`src`, else `data`) the filter rejects changes nothing the embedded-source scan collects |
| `Resolver.WatermarkedSourcesIgnored` | App.py:217-229 | inserting, anywhere, an anchor whose href and an embedded element whose source (`src`, else `data`) mention `utkarsh` in any case changes nothing that is collected |
| `Resolver.SingleLinkedPdfResolves` | App.py:217-247 | a page holding one validating PDF link and nothing else collects exactly that link's absolute URL |
| `Resolver.CollectAnchorLinks` | App.py:217-222 | the anchor loop collects exactly the validated, filtered anchor links in page order |
| `Resolver.CollectEmbedLinks` | App.py:224-229 | the object/iframe/embed loop collects exactly the validated, filtered sources in page order, each element's source being its non-empty `src`, else its `data` |
| `Resolver.TryGeneratedUrls` | App.py:231-237 | the guess loop stops at the first guess that validates and adds only that one |
| `Resolver.GetPdfFromCircularPage` | App.py:200-256 | with a `urljoin` that never raises, no result if and only if the page could not be rendered; HTML-only carries the page body and happens only when nothing was collected; a PDF result is one of the collected URLs |
| `Naming.SafeNameShape` | App.py:104 | sanitising keeps the length, keeps every word character, `-`, `_` and `.` in place, and puts `_` in place of every other character |
| `Naming.SafeNameIsSafe` | App.py:104 | a sanitised name holds allowed characters only |
| `Naming.SafeNameFixedPoints` | App.py:104 | sanitising leaves a name unchanged if and only if it holds only allowed characters |
| `Naming.SafeNameIdempotent` | App.py:104 | sanitising twice is the same as sanitising once |
| `Naming.TimestampIsSafe` | App.py:105 | a `%Y%m%d_%H%M%S` timestamp holds allowed characters only |
| `Naming.ArtifactNameIsSafe` | App.py:104-105 | `<prefix>_<sanitised number>_<timestamp>.<ext>` is safe whenever its prefix, timestamp and extension are |
| `Naming.CircularArtifactNamesAreSafe` | App.py:104-115 | both names of a document made from an HTML-only circular, `.pdf` and `.html`, hold allowed characters only |
| `Naming.ChecklistFileNameIsSafe` | App.py:368-369 | the checklist file name holds allowed characters only |
| `Naming.ArtifactNameDetermines` | App.py:104-105 | for a fixed prefix, extension and timestamp width, an artifact name determines the sanitised number and the timestamp |
| `Naming.WithPdfExtensionEnds` | App.py:304-306 | after forcing the extension, the name ends in `.pdf` in some letter case |
| `Naming.StoredNameEnding` | App.py:304-308 | whatever the last segment, the stored name, as written and corrected, ends with `_<timestamp>.pdf` |
| `Naming.DownloadFileNameEnding` | App.py:303-308 | whatever the URL path, the stored name, as written and corrected, ends with `_<timestamp>.pdf` |
| `Naming.LastPdfIsAppended` | App.py:306-307 | when `.pdf` has been appended, `rsplit` removes exactly that appended `.pdf` |
| `Naming.StoredNameOfOtherSegment` | App.py:304-308 | a non-empty last segment not ending in `.pdf` in any case is kept whole and followed by `_<timestamp>.pdf`, as written and corrected |
| `Naming.StoredNameOfPdfSegment` | App.py:304-308 | a last segment ending in lower-case `.pdf` loses that extension before the timestamp goes in, and the correction changes nothing here |
| `Naming.StoredNameOfEmptySegment` | App.py:304-308 | an empty last segment falls back to `rbi_circular_<timestamp>`, and the name then carries the timestamp twice |
| `Naming.AfterLastOfJoin` | App.py:304 | the text after the last `/` of `a/b` is `b` when `b` holds no `/` |
| `Naming.UpperExtensionAddsNoMatch` | App.py:307 | appending `.PDF` to a stem free of `.pdf` creates no lower-case `.pdf` |
| `Naming.StoredNameKeepsUpperCaseExtension` | App.py:305-308 | as written, a last segment `<stem>.PDF` is stored as `<stem>.PDF_<timestamp>.pdf`; the corrected name is `<stem>_<timestamp>.pdf` |
| `Naming.UpperCaseExtensionExample` | App.py:303-307 | the path `/rdocs/notification/PDFs/NT12.PDF` has last segment `NT12.PDF`, whose stem `NT12` meets the requirement of the lemma above |
| `Naming.StoredNameCorrectedStripsAnyCase` | App.py:305-308 | the corrected name strips the extension in any case: `<stem>_<timestamp>.pdf` |
| `Orchestrator.CollectedUrlsPassTheHeadCheck` | App.py:187-229 | when validation is the PDF check over the HEAD outcomes, every collected URL got status 200 with a content type containing `pdf` in some letter case |
| `Orchestrator.RouteMatchesResolution` | App.py:591-607 | through the `(pdf_url, html_content)` pair, a non-empty PDF URL other than `HTML_ONLY` is downloaded, an HTML-only page is converted with its body, and an unresolved page aborts |
| `Orchestrator.StateWrittenOnlyAtTheEnd` | App.py:575-646 | the stored number changes only on a completed run, and then to the current circular's number; saving is the last step and happens exactly once |
| `Orchestrator.CompletionCondition` | App.py:571-646 | a run completes if and only if there is a new circular, a route, a local document, a credentials file, successful authentication and an upload link; the notification's outcome plays no part |
| `Orchestrator.AlreadyProcessedIsSkipped` | App.py:575-580 | a circular whose number is stored is skipped with no step and no change |
| `Orchestrator.AlreadyProcessedOnlyWhenStored` | App.py:577-580 | the run reports "already processed" only when the current number is the stored one |
| `Orchestrator.SecondRunIsNoOp` | App.py:577-646 | after a completed run, a run that sees the same latest circular does nothing |
| `Orchestrator.StepsFollowRoute` | App.py:591-629 | nothing is uploaded without credentials that authenticate; a download happens only on the PDF route and a conversion only for an HTML-only page |
| `Orchestrator.CircularChecker.constructor` | App.py:545-550 | the checker starts from the stored number, absent when there is no state file |
| `Orchestrator.CircularChecker.RunOnce` | App.py:560-650 | the run with early returns leaves exactly the state, steps and status of `Run` |

## Left out

- Browser rendering (Selenium, waits, sleeps), HTTP requests, file I/O and logging are left out: they are I/O. The rendered index page, the rendered detail page and each HEAD outcome are inputs.
- The resolver takes the answers of `check_pdf_url_exists` as a function of the URL (`valid: string -> bool`). `PdfCheck.CheckPdfUrlExists` models how each answer is decided from the HEAD outcome; `Orchestrator.CollectedUrlsPassTheHeadCheck` instantiates `valid` with that rule. The other resolver lemmas hold for any `valid`. Two requests for the same URL in one run are assumed to agree.
- `urljoin` and `urlparse(...).path` are uninterpreted: `join` is a parameter, and the download name takes the URL path as its input.
- The index page's nested `find_all` calls are given as flat lists: a table's rows and a row's cells, in document order, each cell with its first `href`-bearing anchor.
- `find_all` searches all descendants, so the rows and cells of a table nested in another appear under both tables. The input lists must repeat them in that way for the model to agree with the program; the model does not derive them from a document tree.
- `\w` and `lower()` are restricted to ASCII. Non-ASCII letters, which Python treats as word characters, become `_` in this model.
- `datetime.now()` is a timestamp parameter. The two clock readings in `download_pdf` are assumed to give the same string.
- `download_pdf`'s streamed write, byte counter and `%PDF` read-back are left out because they are file and network I/O. Only the file name is modelled.
- PDF text extraction, HTML-to-PDF conversion, checklist generation, Drive uploads, Gmail sending and Google authentication are foreign services. Their outcomes are fields of `RunInputs`.
- The checklist text and the checklist file are one input, `checklistPath`, absent when either step fails.
- Exceptions escaping `main` are outcomes of the oracles above. A failing write of the state file itself is not modelled.
- Reading the state file strips whitespace, and this is not modelled. The stored number is a link text already stripped by the parser.
- `Resolver.GetPdfFromCircularPage`: does not say which collected URL is returned, because `list(set(...))[0]` depends on Python's hash order.
- `Resolver.GetPdfFromCircularPage`: `join` is total, but `urljoin` can raise (a `ValueError` for an href such as `http://[x/a.pdf`, which passes the `.pdf` filter). The program then returns `(None, None)` for a rendered page (App.py:251-253), and `main` aborts (App.py:605-607). The model does not capture this outcome.
- `IndexParser.LatestCircular`: the same holds for the `urljoin` of the first record's link. A raising `urljoin` makes `get_latest_circular_info` return `None` although a row passes (App.py:279-281), and `main` stops (App.py:570-572). The model does not capture this outcome.
- Four behaviours of the code that are easy to get wrong, which the model follows:
  - The state is advanced even when the notification email fails, because its result is ignored (App.py:643-646).
  - A missing `credentials.json` ends the run without recording the circular (App.py:615-617).
  - An empty circular number is not rejected.
  - The identifier ends at a second `?Id=` as well as at `&`.
- The `utkarsh` filter applies to the raw `href`/`src` only, not to the resolved URL or to the identifier-derived guesses.

## Findings

| source | as written | input that shows it | evidently intended | confidence | as-written member | corrected member |
|---|---|---|---|---|---|---|
| App.py:305-308 | the ending test lower-cases the name, but `rsplit('.pdf', 1)` is case-sensitive, so an upper-case extension stays inside the stem | URL path `/rdocs/notification/PDFs/NT12.PDF` is stored as `NT12.PDF_<timestamp>.pdf` | the extension just tested for is replaced in any case: `NT12_<timestamp>.pdf` | not executed; medium | `Naming.StoredNameKeepsUpperCaseExtension` | `Naming.StoredNameCorrectedStripsAnyCase` |
