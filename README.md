# Vedunya presentation builder — a Dafny model of its core

The Vedunya presentation builder shows slide decks in a browser and exports them to PDF.
It has two export paths:

- **In the browser**, `exportToPdf` drives the slide viewer with synthetic keyboard
  events. It rasterises each slide, places each bitmap on a 1920×1080 page so it covers
  the page, reports progress and saves the document.
- **On the backend**, a FastAPI service scans a directory of presentation modules for their
  `export const metadata = { … }` blocks and `<Slide` components. It also runs export
  jobs that print the viewer to PDF with a headless browser, keeps those jobs in memory,
  serves their status and files, and cleans up old ones.

The frontend's API client serves a static list built from the one bundled
presentation's metadata.

The model has one module per source file, plus two shared ones:

| module | file | models |
|---|---|---|
| `PdfExport` | `pdf_export.dfy` | `navigateSlide`, cover-fit placement, progress arithmetic, file-name sanitising and the `exportToPdf` loop |
| `Scanner` | `scanner.dfy` | `PresentationScanner`: slide counting, metadata extraction, file parsing, directory listing, lookup by id |
| `ExportService` | `export_service.dfy` | `ExportService`: job ids, job creation, processing outcomes and cleanup |
| `ExportRoutes` | `export_routes.dfy` | the `/api/exports` endpoints |
| `PresentationRoutes` | `presentation_routes.dfy` | the `/api/presentations` endpoints |
| `Schemas` | `schemas.dfy` | the pydantic records and their validation |
| `ApiClient` | `api_client.dfy` | the static frontend client |
| `Text` | `text.dfy` | the Python string operations the backend uses |
| `Http`, `Wrappers` | `http.dfy`, `wrappers.dfy` | route errors; `Option` and `Result` |

How each part is represented:

- **`exportToPdf`** is a method with a loop. It returns the ordered trace of its effects:
  progress reports, key presses, the document's opening, `addPage`, `addImage` and `save`.
  Its outcome is a separate value. The method is proved equal to the specification
  function `Export`, and the lemmas about `Export` state what the routine promises:
  - which slides reach the document, and on which pages (replaying the trace with
    jsPDF's page semantics);
  - the exact progress sequence and that it never decreases;
  - the exact navigation sequence;
  - that the file is saved exactly when the export succeeds.
- **The screen capture** is an oracle: a function from the slide index to a canvas size,
  or to an exception.
- **`ExportService`** is a class. Its job table is a `map` field and its export directory
  a `set` of file names. The methods update them in place.
- **The browser session** of `_process_export` is an oracle (`BrowserRun`). It either
  completes or names the step that raised and the message raised.
- **The scanner's directory** is a sequence of files: name, text (absent when it cannot be
  read) and creation and modification times.
- **The two route modules** keep the registered service or scanner in a class. That class
  stands for the module-level global the routes read.

Three behaviours of `exportToPdf` worth knowing:

- A new page is added for every drawn slide whose *index* is above 0. If slide 0's capture
  is empty, the first page stays blank and every later drawn slide gets a page of its own.
  This is what `PdfExport.ExportDocument` proves.
- A slide with an empty capture still sends `next`, even when it is the last slide.
- A capture that raises stops the loop with no reset of the reported progress.
  The code has no watchdog timer and no guard against starting a second export.

## Model

| member | source | states |
|---|---|---|
| PdfExport.NavigationEvent | frontend/src/utils/pdfExport.ts:22-47 | `next`, `prev` and `first` dispatch ArrowRight/39, ArrowLeft/37 and Home/36, with `code` equal to `key` |
| PdfExport.NavigationEventDecodes | frontend/src/utils/pdfExport.ts:41-47 | the legacy key code alone identifies the direction that was sent |
| PdfExport.CoverFitCoversPage | frontend/src/utils/pdfExport.ts:147-171 | the placed image covers the whole page and is centred on it. Its aspect ratio is the canvas's, and it matches the page in width or in height |
| PdfExport.CoverFitBranches | frontend/src/utils/pdfExport.ts:156-168 | a relatively wider canvas fits the height and overflows left and right by equal amounts. Otherwise it fits the width and is centred vertically. Equal ratios fill the page exactly with no offset |
| PdfExport.SlideProgressClosedForm | frontend/src/utils/pdfExport.ts:174 | `10 + Math.round((i + 1) / n * 80)` on reals equals an integer closed form |
| PdfExport.SlideProgressRange | frontend/src/utils/pdfExport.ts:173-175 | a slide's progress is between 10 and 90, and exactly 90 for the last slide |
| PdfExport.SlideProgressMonotone | frontend/src/utils/pdfExport.ts:174 | a later slide never reports less progress |
| PdfExport.SanitizeTitle | frontend/src/utils/pdfExport.ts:186 | the sanitised title is as long as the title in UTF-16 code units, as JavaScript measures it, and holds only ASCII letters, digits, `-` and `_` |
| PdfExport.Replacement | frontend/src/utils/pdfExport.ts:186 | one character is replaced by one safe character per UTF-16 code unit it takes |
| PdfExport.SanitizeTitleOne | frontend/src/utils/pdfExport.ts:186 | a safe character is kept; any other becomes `_`, or `__` when it lies outside the Basic Multilingual Plane, since the pattern has no `u` flag |
| PdfExport.SanitizeTitleConcat | frontend/src/utils/pdfExport.ts:186 | the global replacement works piece by piece: sanitising two halves and joining them gives the sanitised whole |
| PdfExport.SanitizeTitleEmoji | frontend/src/utils/pdfExport.ts:186-187 | the title made of U+1F4CA, a space and `Q3` is saved as `___Q3.pdf` |
| PdfExport.SanitizeTitleIdempotent | frontend/src/utils/pdfExport.ts:186 | sanitising a sanitised title changes nothing |
| PdfExport.SanitizeTitleKeepsSafe | frontend/src/utils/pdfExport.ts:186 | a title is kept as it is exactly when it is made only of safe characters |
| PdfExport.PdfFilename | frontend/src/utils/pdfExport.ts:186 | the file name is the sanitised title, as many characters as the title has UTF-16 code units, followed by `.pdf` |
| PdfExport.FirstThrowFromIsFirst | frontend/src/utils/pdfExport.ts:122-129 | the slide at which the loop aborts is the first whose capture raises, and there is none exactly when no capture raises |
| PdfExport.PlaceSlide | frontend/src/utils/pdfExport.ts:137-180 | one drawn slide emits the specified effects: a new page when its index is above 0, the image at its cover-fit placement, its progress, then `next` unless it is the last slide |
| PdfExport.ExportToPdf | frontend/src/utils/pdfExport.ts:92-193 | the effects and outcome of the loop are those of the specification `Export`. A non-positive slide count fails before any effect |
| PdfExport.DrawnExactly | frontend/src/utils/pdfExport.ts:129-135 | the slides drawn are exactly those whose capture has a non-zero width and height, in increasing order |
| PdfExport.SlidesProgress | frontend/src/utils/pdfExport.ts:122-181 | over the first k slides, the progress reports are one per drawn slide, in order, each that slide's percentage |
| PdfExport.SlidesNavigation | frontend/src/utils/pdfExport.ts:131-180 | with no capture raising, the first k slides press `next` once each, except for a drawn last slide |
| PdfExport.SlidesNeverSave | frontend/src/utils/pdfExport.ts:122-181 | the slide loop never saves the document |
| PdfExport.ExportOutcomeCases | frontend/src/utils/pdfExport.ts:92-193 | the export has one of three outcomes: success when there are slides and no capture raises; "no slides" exactly when the count is not positive; otherwise failure at the first capture that raises |
| PdfExport.ExportProgress | frontend/src/utils/pdfExport.ts:102-192 | the progress reports are: 5 and 10, then one per drawn slide, then 95 and 100 on success. A failure stops after the slides before it, and "no slides" reports nothing |
| PdfExport.ExportProgressClimbs | frontend/src/utils/pdfExport.ts:102-192 | the reported progress never decreases, and a successful export ends at 100 after at least four reports |
| PdfExport.ExportNavigation | frontend/src/utils/pdfExport.ts:116-190 | the keys sent are: `first`, then `next` per slide (none after a drawn last slide), then `first` again on success; a failure stops at the slide that raised |
| PdfExport.ExportSaves | frontend/src/utils/pdfExport.ts:185-187 | the document is saved once, under the sanitised title, exactly when the export succeeds |
| PdfExport.SlidesDocument | frontend/src/utils/pdfExport.ts:105-171 | after k slides, the document is a blank first page when slide 0 was not drawn, then one page per drawn slide holding only that slide |
| PdfExport.ExportDocument | frontend/src/utils/pdfExport.ts:105-193 | a successful export's document has one page per drawn slide, in order, preceded by a blank page exactly when slide 0 was not drawn |
| Scanner.TagsDoNotOverlap | backend/services/presentation_scanner.py:173-174 | two `<Slide` tags never overlap, so counting the tags counts the non-overlapping matches `re.findall` returns |
| Scanner.FindAllIsTagPositions | backend/services/presentation_scanner.py:173-175 | the left-to-right scan that skips past each match counts every position where the pattern matches |
| Scanner.CountSlidesCountsTags | backend/services/presentation_scanner.py:162-175 | the slide count is the number of positions where `<Slide` is followed by whitespace or `>` |
| Scanner.NoTagWithoutOpening | backend/services/presentation_scanner.py:173-175 | text with no `<` holds no slide |
| Scanner.BareTagIsSlide | backend/services/presentation_scanner.py:173 | `<Slide>` counts as one slide |
| Scanner.TagWithAttributesIsSlide | backend/services/presentation_scanner.py:173 | `<Slide a>` counts as one slide |
| Scanner.LongerNameIsNotSlide | backend/services/presentation_scanner.py:173 | `<SlideFrame>` is not a slide |
| Scanner.ClosingTagIsNotSlide | backend/services/presentation_scanner.py:173 | `</Slide>` is not a slide |
| Scanner.SkipSpaces | backend/services/presentation_scanner.py:132 | `\s*` stops at the end of the text or at the first character that is not whitespace |
| Scanner.FindClose | backend/services/presentation_scanner.py:132 | the closing brace found lies at or after the start position |
| Scanner.FindCloseIsFirst | backend/services/presentation_scanner.py:132 | no brace comes before the one found, and none at all when none is found |
| Scanner.BraceGroup | backend/services/presentation_scanner.py:132-138 | a captured group `([^}]+)` is non-empty and holds no closing brace |
| Scanner.MetadataBlockShape | backend/services/presentation_scanner.py:132-138 | a metadata block matched at a position is non-empty and holds no closing brace |
| Scanner.SearchFromIsLeftmost | backend/services/presentation_scanner.py:133-136 | the search finds the block of the leftmost position where the pattern matches, or none when it matches nowhere |
| Scanner.ExtractMetadata | backend/services/presentation_scanner.py:121-160 | the loop over the block's lines builds the specified map. No block gives the empty map |
| Scanner.LineEntryClean | backend/services/presentation_scanner.py:144-156 | a line's key has no surrounding whitespace and no colon, and its value neither begins nor ends with a quote |
| Scanner.MetadataClean | backend/services/presentation_scanner.py:143-158 | every key and value of the extracted metadata is clean in that sense |
| Scanner.CollectKeys | backend/services/presentation_scanner.py:143-158 | a key is in the metadata exactly when some line with a colon yields it |
| Scanner.LastEntryWins | backend/services/presentation_scanner.py:158 | when a key is repeated, the value of its last line wins |
| Scanner.LastDot | backend/services/presentation_scanner.py:97 | the suffix separator found is a dot inside the name |
| Scanner.LastDotIsLast | backend/services/presentation_scanner.py:97 | no dot follows the separator `Path.stem` cuts at |
| Scanner.StemDropsExtension | backend/services/presentation_scanner.py:97 | the stem of `id` followed by a scanned extension is `id` |
| Scanner.DefaultTitleSpaces | backend/services/presentation_scanner.py:98 | the fallback title keeps the stem's length, and each `-` and `_` of the stem becomes a space |
| Scanner.ParsedPresentationFields | backend/services/presentation_scanner.py:69-119 | a file yields a presentation exactly when it is readable, has metadata and has at least one slide. The metadata's id, title, description and timestamps override the defaults: the stem, the title-cased stem, none, and the file times. The path is `presentations/` and the name |
| Scanner.ParsePresentationFile | backend/services/presentation_scanner.py:69-119 | the step-by-step parse returns the specified presentation |
| Scanner.ScannedWithStep | backend/services/presentation_scanner.py:40-44 | scanning one more file appends what that file contributes |
| Scanner.ScanExtension | backend/services/presentation_scanner.py:40-47 | the files matching one glob are parsed in directory order, keeping the successes |
| Scanner.ScanAll | backend/services/presentation_scanner.py:29-49 | the listing is the presentations for `.tsx`, `.jsx`, `.ts` and `.js`, in that order |
| Scanner.ScannedWithMembers | backend/services/presentation_scanner.py:40-44 | a presentation is found for one extension exactly when some file with that extension parses to it |
| Scanner.ScannedUpToMembers | backend/services/presentation_scanner.py:39-47 | a presentation is listed after the first e globs exactly when some file matching one of them parses to it |
| Scanner.ScanAllMembers | backend/services/presentation_scanner.py:29-49 | a presentation is listed exactly when some file matching one of the four globs parses to it |
| Scanner.FileNamed | backend/services/presentation_scanner.py:63-65 | the file opened for an existing name is in the directory and has that name |
| Scanner.FirstExtensionFromIsFirst | backend/services/presentation_scanner.py:187-192 | the extension chosen is the first in priority order for which the file exists, and none is chosen exactly when no such file exists |
| Scanner.GetFilePath | backend/services/presentation_scanner.py:177-192 | the loop returns the first existing `id` plus extension, or none |
| Scanner.GetById | backend/services/presentation_scanner.py:51-67 | the lookup parses the first existing file for the id, and yields none when there is none |
| ExportService.Hex | backend/services/export_service.py:45 | the rendering has the requested number of digits, all lower-case hexadecimal |
| ExportService.HexRoundTrip | backend/services/export_service.py:45 | reading back the digits of a number that fits gives the number |
| ExportService.JobIdShape | backend/services/export_service.py:45 | a job id is `export_` followed by twelve lower-case hexadecimal digits, 19 characters in all |
| ExportService.ErrorMessage | backend/services/export_service.py:168-180 | a closed-browser message becomes the crash explanation. Otherwise a missing-executable message becomes the install hint. Any other message is kept |
| ExportService.ProcessedOutcome | backend/services/export_service.py:98-181 | processing ends `completed` exactly when the run completes, otherwise `failed`. A completed job gets progress 100 and the download URL. A failed job gets the mapped error and the last progress reached. Both get the completion time. Id, presentation and creation time are kept |
| ExportService.ProgressStepsClimb | backend/services/export_service.py:100-159 | the progress a job takes starts at 10, never goes down and stays within 0 to 100 |
| ExportService.CompletedHasPdf | backend/services/export_service.py:140-159 | a completed job's PDF has been written. A run that raised before or while printing writes nothing |
| ExportService.ElementsSnoc | backend/services/export_service.py:212 | appending an id to the removal list adds it to the listed set |
| ExportService.RemoveStep | backend/services/export_service.py:216-217 | deleting the listed ids one by one removes exactly the listed ids |
| ExportService.ExpiredStep | backend/services/export_service.py:201-213 | visiting a job adds it to the removed ones exactly when it finished before the cutoff |
| ExportService.SweepStep | backend/services/export_service.py:201-213 | one visited job: an expired one joins the removal list, its PDF leaves the directory and the count grows by one. Any other job changes nothing |
| ExportService.PdfNamesAdd | backend/services/export_service.py:208-210 | removing one more job removes its PDF name too |
| ExportService.CleanupKeeps | backend/services/export_service.py:196-219 | the jobs kept are exactly the unfinished ones and those finished at or after the cutoff, unchanged. A second cleanup with the same cutoff removes nothing |
| ExportService.ValidJobsRemove | backend/services/export_service.py:215-217 | removing jobs keeps every job stored under its own id with its progress in 0 to 100 |
| ExportService.Cleanup | backend/services/export_service.py:196-219 | the two passes remove exactly the jobs finished before the cutoff and their PDFs, and count them |
| ExportService.ExportService.constructor | backend/services/export_service.py:20-33 | the frontend URL loses its trailing slashes. The job table starts empty |
| ExportService.ExportService.CreateExportJob | backend/services/export_service.py:35-60 | a pending job at progress 0 is stored under the uuid's id, and nothing else changes |
| ExportService.ExportService.JobStatus | backend/services/export_service.py:62-72 | the stored job, present exactly when the id is in the table |
| ExportService.ExportService.PdfPath | backend/services/export_service.py:74-85 | the job's PDF path, present exactly when the file exists |
| ExportService.ExportService.ProcessExport | backend/services/export_service.py:87-184 | an unknown id changes nothing. Otherwise the job becomes its processed outcome, the PDF is written once printing succeeded, and the progress steps are those specified |
| ExportService.ExportService.CleanupOldJobs | backend/services/export_service.py:186-219 | the jobs that finished more than `max_age_hours` ago leave the table, their PDFs leave the directory, and the count returned is how many. The table stays valid |
| ExportRoutes.StatusOf | backend/routes/exports.py:107-116 | a known job is returned in a status response. An unknown one is a 404 naming the id |
| ExportRoutes.Download | backend/routes/exports.py:138-177 | only a completed job whose PDF exists is served, as a PDF named after its presentation. The checks run in order: unknown job 404, failed 400 with its error, not yet completed 400 with its status, missing file 404 |
| ExportRoutes.CreatedJobNotReady | backend/routes/exports.py:155-159 | a job just created can be polled, and its download is refused as pending |
| ExportRoutes.ProcessedDownload | backend/routes/exports.py:148-177 | after a completed run the job's PDF is served. After a failed run the download is a 400 carrying the mapped error |
| ExportRoutes.ExportRouter.constructor | backend/routes/exports.py:18-19 | no service is registered at first |
| ExportRoutes.ExportRouter.SetExportService | backend/routes/exports.py:22-25 | the service given is the one registered |
| ExportRoutes.ExportRouter.GetExportService | backend/routes/exports.py:28-32 | the registered service, or the "not initialized" runtime error |
| ExportRoutes.ExportRouter.CreateExport | backend/routes/exports.py:41-73 | without a service, the runtime error. With one, the new pending job, stored in the service's table |
| ExportRoutes.ExportRouter.GetExportStatus | backend/routes/exports.py:81-116 | without a service, the runtime error. With one, the status answer for the current table |
| ExportRoutes.ExportRouter.DownloadExport | backend/routes/exports.py:124-177 | without a service, the runtime error. With one, the download answer for the current table and directory |
| PresentationRoutes.FoundIsListed | backend/routes/presentations.py:94-103 | a presentation found by id is one the listing shows, and it has at least one slide |
| PresentationRoutes.ListedAreValid | backend/routes/presentations.py:58-64 | every listed presentation has at least one slide |
| PresentationRoutes.PresentationRouter.constructor | backend/routes/presentations.py:14-16 | no scanner is registered at first |
| PresentationRoutes.PresentationRouter.SetScanner | backend/routes/presentations.py:19-22 | the scanner given is the one registered |
| PresentationRoutes.PresentationRouter.GetScanner | backend/routes/presentations.py:25-29 | the registered scanner, or the "not initialized" runtime error |
| PresentationRoutes.PresentationRouter.ListPresentations | backend/routes/presentations.py:33-64 | without a scanner, the runtime error. With one, the full scan and its length as the total |
| PresentationRoutes.PresentationRouter.GetPresentation | backend/routes/presentations.py:68-103 | without a scanner, the runtime error. With one, the presentation found by id, or a 404 naming the id |
| Schemas.MakePresentation | backend/models/schemas.py:10-19 | a presentation is built exactly when its slide count is at least 1, with the fields given |
| Schemas.MakePresentationList | backend/models/schemas.py:36-40 | a list is built exactly when its total is not negative |
| Schemas.StatusValues | backend/models/schemas.py:61-67 | the four status values name the four statuses one to one, and no other string names a status |
| Schemas.MakeExportJob | backend/models/schemas.py:85-95 | a job is built exactly when its progress is absent or within 0 to 100. Download URL, error and completion time start absent |
| ApiClient.StaticList | frontend/src/api/client.ts:5-14 | the static list is exactly the Vedunya presentation's metadata |
| ApiClient.FetchPresentations | frontend/src/api/client.ts:17-20 | the list returned is the Vedunya presentation alone |
| ApiClient.FindIndex | frontend/src/api/client.ts:23 | `find` picks the first presentation with the id, and finds none exactly when no presentation has it |
| ApiClient.FetchPresentation | frontend/src/api/client.ts:22-28 | succeeds exactly when a listed presentation has the id, and returns one with that id. Otherwise the error names the id |
| ApiClient.FetchPresentationStatic | frontend/src/api/client.ts:22-28 | only `vedunya-product` is found, and it yields the Vedunya metadata |
| Text.LStrip | backend/services/presentation_scanner.py:144 | `lstrip` returns a suffix that does not start with a stripped character |
| Text.RStrip | backend/services/export_service.py:28 | `rstrip` returns a prefix that does not end with a stripped character |
| Text.LStripDrops | backend/services/presentation_scanner.py:144 | everything `lstrip` drops is a stripped character |
| Text.RStripDrops | backend/services/presentation_scanner.py:153 | everything `rstrip` drops is a stripped character |
| Text.StripCharsSplits | backend/services/presentation_scanner.py:144-156 | `strip` keeps a middle part of the text, between runs of stripped characters, that neither starts nor ends with one |
| Text.StripCharsRuns | backend/services/presentation_scanner.py:144-156 | the runs `strip` drops are made of stripped characters, and what remains is the slice between them |
| Text.StripCharsEnds | backend/services/presentation_scanner.py:152-156 | a stripped result neither starts nor ends with a stripped character |
| Text.StripCharsIdempotent | backend/services/presentation_scanner.py:144-156 | stripping twice strips nothing more |
| Text.ReplaceChar | backend/services/presentation_scanner.py:98 | `replace` of one character changes exactly its occurrences and keeps the length |
| Text.Split | backend/services/presentation_scanner.py:143 | `split` always yields at least one piece |
| Text.JoinSplit | backend/services/presentation_scanner.py:143 | joining the pieces of `split` with the separator gives the text back |
| Text.SplitPiecesFree | backend/services/presentation_scanner.py:143 | no piece of `split` contains the separator |
| Text.SplitOnce | backend/services/presentation_scanner.py:145-148 | without a colon the text is one piece. With one it is the part before the first colon and the rest, which rejoined give the text |
| Text.TitleFrom | backend/services/presentation_scanner.py:98 | `title` keeps the length |
| Text.TitleFromCharacters | backend/services/presentation_scanner.py:98 | `title` upper-cases the first cased character of each word, lower-cases the others, and keeps which characters are cased |
| Text.TitleFromIdempotent | backend/services/presentation_scanner.py:98 | title-casing twice changes nothing more |

## Left out

- The jsPDF document is not modelled as an object. It is the trace of `addPage` and
  `addImage` calls, replayed with jsPDF's page semantics. The image data is left out
  (its JPEG encoding, the `scale` option and `html2canvas`'s rendering); only the
  canvas size and whether the capture raised are kept.
- A capture that raises (`CaptureThrows`) stands for either `html2canvas` raising or
  `canvas.toDataURL` raising, for example on a tainted canvas. Both happen before the
  slide's first effect, so the trace is the same. Exceptions from jsPDF, and a
  `totalSlides` that is not a whole number, are not modelled.
- `sleep`, `console` logging and `document.dispatchEvent` are left out. A key press
  is an effect in the trace, and the viewer's response to it is the capture oracle.
- The optional `onProgress` callback is modelled as always present; an absent callback
  only drops the progress effects.
- Cover-fit arithmetic is on exact reals, not IEEE doubles. `Math.round` is floor(x + 1/2),
  and it is proved equal to the integer closed form.
- PdfExport.SanitizeTitle: a title is a sequence of Unicode scalar values. A JavaScript
  string holding a lone surrogate code unit cannot be written, so its sanitising (one `_`
  for that unit) is not modelled.
- `printPresentation` calls the browser's print dialog and has no logic to model.
- PdfExport.ExportProgress: the progress is not reset to 0 when the export fails, and
  there is no timeout. The code does neither.
- ExportService.ExportService.CleanupOldJobs: the age has no default argument in Dafny.
  The default of 24 hours is the constant `ExportService.DefaultMaxAgeHours`, which a
  caller passes.
- The uuid and the clock are parameters: a uuid is a number below 2^128 and a time is
  whole seconds since the epoch. Sub-second precision in the cleanup comparison is not
  modelled.
- File creation and modification times reach the scanner already rendered as ISO
  strings. A file that cannot be read as UTF-8 has no text, and it yields no presentation.
- The scanner's constructor check that the directory exists is not modelled: the
  directory is a value.
- `print`, `traceback` and the exception messages logged while scanning are not modelled.
- `str.title` is modelled for ASCII letters only. `\s` and `str.strip()` use Python's
  full whitespace set.
- Error texts render statuses as `ExportJobStatus.PENDING` and so on. This is how
  Python 3.11 and later format a member of an enum that mixes in `str`.
- `asyncio.create_task` scheduling is not modelled. Processing is a separate call to
  `ProcessExport`, and the intermediate `processing` states a concurrent poll could
  observe are not stored. The run returns the progress values the job takes, in order.
- Job objects are values. The aliasing between the created job and the stored one is
  not modelled.
- A job is processed against a browser oracle. The Playwright launch options, the URL
  the browser opens and the PDF's page format are not modelled.
- The `ExportRequest` options are accepted by `CreateExport` and unused, as in the code.
- Pydantic's validation is modelled when a record is built. Field assignment after
  construction is not validated, as in the code.
- `ExportService.close` does nothing and is not modelled. The FastAPI app wiring
  (`main.py`) is not part of this model.
