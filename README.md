# docuparse core, modelled in Dafny

docuparse is a paper reader. A Next.js front end shows a paper's HTML and
watches what the reader points at or looks at. A small Python back end
stores the text of a page in chunks and answers questions from the chunks
nearest to them. This project models the sequential logic inside those
components and proves properties about it:

- **Hover history.** When the pointer settles on an element, TextExtractor.tsx,
  gptextractor.tsx and both PaperViewer.tsx files extract the element's text.
  They record it in a bounded recent-history list, and each filters,
  deduplicates, trims and expires items by its own rules.
- **DOM text and path extraction.** The direct text of an element, with its
  two fallback rules; the value of inputs and textareas; element metadata;
  and the `tag:nth-of-type(k) > …` path of an element.
- **The DOM highlighter.** The ancestor walk that excludes elements, and the
  hovered, clicked and interacting state.
- **The gaze tracker.** The gaze-sample filter and history, and the
  calibration sequence driven by dot clicks and dot timeouts.
- **The PDF upload and the two `/api/pdfparser` routes.** Request checks, URL
  normalisation and priority-ordered dispatch of the PDF.co conversion
  response.
- **The back end.** `chunk_text`, the chunk count that `/ingest` reports, and
  the context that `/query` joins.
- **The eye-tracking heatmap of eyetrack/app.py.** A bounds-checked in-place
  increment over the frame loop, the hot spot, and the nearest word.
- **The agent panel and the testimonial carousel.** A polling loop with a
  flag pair, and a cyclic index.

The DOM is an abstract tree (module `Dom`), and an element is identified by
its position in it. Every browser or network facility (`fetch`, `DOMParser`,
`elementFromPoint`, `FileReader`, WebGazer, the webcam, OpenAI and Supabase)
becomes an input: an outcome per call, or a function parameter. Timers
become explicit events. JavaScript's truthiness (`Strings.Truthy`), `||`
fallbacks (`Strings.OrElse`), `slice` with negative bounds
(`HoverHistory.Slice`), Python's clamped slices (`Backend.PySlice`) and
Python's truncating `int()` (`Heatmap.Trunc`) are written out.

Both PaperViewer.tsx files define `extractPreciseTextContent` and
`createSanitizedHtml` identically. TextExtractor.tsx and gptextractor.tsx
share the bodies of the text extractor and `getDomPath`. Each of these is
defined once (`DomText`, `DomPath`, `PaperViewer`), and the components
that share it import it.

Handlers that update component state step by step are classes whose methods
state the whole new state:

- `DomHighlighter.Highlighter`
- `GazeTracker.Tracker`
- `PdfUploader.Uploader`
- `Heatmap.GazeMap`, whose heatmap is an `array2`
- `AgentPanel.Component`

The loops of the source are methods with loop invariants, proved against
specification functions: `ExtractTextContent`, `ExtractPreciseText`,
`GetElementMetadata`, `GetDomPath`, `IsElementExcluded`, `ClosestWord`,
`Argmax`, `Track` and `Loop`. List updaters, string templates and request
dispatchers are functions, with lemmas stating what they promise.

## Model

| member | source | states |
|---|---|---|
| HoverHistory.Slice | frontend/src/components/TextExtractor.tsx:157 | `slice(start)` keeps a suffix: length max(n − start, 0) for a non-negative start and min(−start, n) for a negative one |
| HoverHistory.TakeLast | frontend/src/components/TextExtractor.tsx:157 | `slice(-m)` keeps a suffix of the list, and a non-empty one for m ≥ 0 |
| HoverHistory.TakeLastBound | frontend/src/components/TextExtractor.tsx:157 | `slice(-m)` for m > 0 keeps the newest min(m, n) items, so at most m, and all of a short list; m = 0 keeps everything |
| HoverHistory.TakeLastKeepsNewest | frontend/src/components/TextExtractor.tsx:157 | a positive bound never drops the newest item |
| HoverHistory.ZeroBoundKeepsEverything | frontend/src/components/TextExtractor.tsx:155-157 | with `maxHistoryItems` 0 the list is never cut: every new text is appended |
| HoverHistory.DedupPush | frontend/src/components/TextExtractor.tsx:143-158 | the deduplicating updater; the list grows by at most one item, keeps its length on a repeat, and (for a bound ≥ 0) ends with the pushed text and timestamp |
| HoverHistory.DedupPushRefreshes | frontend/src/components/TextExtractor.tsx:145-153 | a repeat of the newest text keeps the length and every other item; only the newest item's timestamp changes |
| HoverHistory.DedupPushAppends | frontend/src/components/TextExtractor.tsx:155-157 | new text becomes the last item, after the newest min(n, max − 1) old items; length min(n + 1, max) |
| HoverHistory.AppendThenCut | frontend/src/components/gptextractor.tsx:60 | `[...s, x].slice(-m)` for m > 0: x last, after the newest min(n, m − 1) elements of s |
| HoverHistory.Young | frontend/src/components/TextExtractor.tsx:109 | the age filter never adds items |
| HoverHistory.YoungAppend | frontend/src/components/TextExtractor.tsx:109 | the age filter distributes over concatenation, so the kept items keep their order |
| HoverHistory.YoungMembers | frontend/src/components/TextExtractor.tsx:109 | an item survives the filter exactly when `now − timestamp < duration` |
| HoverHistory.YoungOfYoung | frontend/src/components/TextExtractor.tsx:109 | filtering a list of young items changes nothing |
| HoverHistory.YoungAllYoung | frontend/src/components/TextExtractor.tsx:109 | every item the filter keeps is young |
| HoverHistory.Cleanup | frontend/src/components/TextExtractor.tsx:105-112 | `cleanupHistory`'s updater: never longer than the history, and every item it keeps is young |
| HoverHistory.CleanupKeeps | frontend/src/components/TextExtractor.tsx:105-112 | the cleanup keeps only young items, the newest of them, in order, and min(max, young count) of them for a positive bound |
| HoverHistory.CleanupIdempotent | frontend/src/components/TextExtractor.tsx:105-112 | two cleanups at the same instant equal one |
| HoverHistory.YoungIsSuffix | frontend/src/components/TextExtractor.tsx:105-112 | in an oldest-first history the young items form a suffix: cleanup drops only from the front |
| HoverHistory.DedupPushKeepsInvariant | frontend/src/components/TextExtractor.tsx:143-158 | a push at a time no earlier than the history keeps it bounded, without adjacent repeats, oldest first and without future items |
| HoverHistory.CleanupKeepsInvariant | frontend/src/components/TextExtractor.tsx:105-112 | a later cleanup keeps the same invariant |
| HoverHistory.SuffixKeepsInvariant | frontend/src/components/TextExtractor.tsx:157 | dropping items from the front keeps the invariant |
| Dom.AncestorsAreElements | frontend/src/components/gptextractor.tsx:85-99 | the `parentElement` chain from an element passes through elements only, down to the document element |
| Dom.ParentOfValid | frontend/src/components/gptextractor.tsx:88-89 | an element's parent is an element that has it among its children |
| DomText.DirectText | frontend/src/components/TextExtractor.tsx:85-94 | the text the loop accumulates from direct text children; empty when there are none |
| DomText.ExtractTextContent | frontend/src/components/TextExtractor.tsx:84-102 | the loop gives the trimmed direct text, or the trimmed `textContent` when the direct text is blank |
| DomText.ExtractTextSpec | frontend/src/components/TextExtractor.tsx:101 | the result never starts or ends with white space |
| DomText.DirectTextIsTextWithoutChildElements | frontend/src/components/TextExtractor.tsx:85-94 | the accumulated text is the `textContent` of the element with every child element removed |
| DomText.ExtractTextPrefersDirect | frontend/src/components/TextExtractor.tsx:96-101 | non-blank direct text is the whole (non-empty) result; descendant text does not enter it |
| DomText.ExtractTextEmptyIffBlank | frontend/src/components/gptextractor.tsx:35-38 | the result is empty exactly when the element's `textContent` is blank |
| DomText.DirectTextWithoutElements | src/components/PaperViewer.tsx:39-42 | without element children the direct text equals `textContent` |
| DomText.ExtractPreciseText | src/components/PaperViewer.tsx:16-43 | text, search and email inputs and textareas give their trimmed value; other elements give the direct text, falling back to `textContent` only when it is blank and there are no element children |
| DomText.PreciseTextIsDirectText | src/components/PaperViewer.tsx:28-43 | outside text-like inputs and textareas the result is always the trimmed direct text: the fallback never changes it |
| DomText.NonEmpty | frontend/src/components/PaperViewer.tsx:51-52 | `x \|\| undefined` is absent exactly for the empty string and otherwise the string itself |
| DomText.GetElementMetadata | frontend/src/components/PaperViewer.tsx:48-59 | lower-cased tag name, `id`/`className` absent when empty, the precise text, and the attributes the reduce collects |
| DomText.AttrMapKeys | frontend/src/components/PaperViewer.tsx:54-57 | the attribute map's keys are exactly the attribute names |
| DomText.AttrMapValues | frontend/src/components/PaperViewer.tsx:54-57 | each name maps to the value of its last attribute, so in a DOM to its own value |
| DomPath.Selectors | frontend/src/components/TextExtractor.tsx:295-310 | the path has one segment per element from the document element down to the element |
| DomPath.Segment | frontend/src/components/TextExtractor.tsx:296-306 | one loop iteration renders the lower-cased node name with `:nth-of-type(k)` when the parent has several same-named children |
| DomPath.GetDomPath | frontend/src/components/TextExtractor.tsx:293-312 | the walk with `unshift` gives the segments from the root down, joined by " > " |
| DomPath.SegmentsFollowAncestors | frontend/src/components/gptextractor.tsx:83-102 | segment j names the ancestor at depth j by its lower-cased node name |
| DomPath.NthInRange | frontend/src/components/gptextractor.tsx:88-95 | an index appears exactly when more than one sibling shares the name, and it lies in 1..(their number) |
| DomPath.NthDistinguishesSiblings | frontend/src/components/gptextractor.tsx:89-94 | two same-named sibling elements get different segments |
| DomPath.DomPathNonEmpty | frontend/src/components/gptextractor.tsx:101 | with non-empty tag names the path is never the empty string |
| Strings.Utf16Length | frontend/src/components/TextExtractor.tsx:133 | JavaScript's `length`: one UTF-16 unit per character of the Basic Multilingual Plane, two per astral character, so between n and 2n for n characters |
| TextExtractor.Accepted | frontend/src/components/TextExtractor.tsx:131-135 | a non-empty text shorter than 150 UTF-16 units; for text without astral characters exactly 1 to 149 characters, for astral-only text 1 to 74 |
| TextExtractor.Texts | frontend/src/components/TextExtractor.tsx:167 | the mapped texts, one per item, in order |
| TextExtractor.AggregateTakesNewest | frontend/src/components/TextExtractor.tsx:163-168 | a history of at most 10 items is aggregated whole; a longer one by exactly its 10 newest texts, joined by spaces |
| TextExtractor.Aggregate | frontend/src/components/TextExtractor.tsx:163-168 | the request text: empty for an empty history, the single text for a one-item history |
| TextExtractor.AggregateEndsWithNewest | frontend/src/components/TextExtractor.tsx:163-168 | the aggregate ends with the newest text |
| TextExtractor.Settle | frontend/src/components/TextExtractor.tsx:124-208 | the timeout handler: a request is made exactly when a report is, only for a non-empty captured history, with the slug and an empty `document_id`; the reported text is accepted and its element is the hovered one |
| TextExtractor.SettleIgnores | frontend/src/components/TextExtractor.tsx:125-135 | no element, blank text or text of 150 or more UTF-16 code units: nothing is recorded, posted or reported |
| TextExtractor.SettleRecords | frontend/src/components/TextExtractor.tsx:137-208 | accepted text goes through the deduplicating push; the request (aggregate of the pre-update history, the slug, empty `document_id`) and `onTextExtracted` happen exactly when that history is non-empty |
| TextExtractor.SettleKeepsInvariant | frontend/src/components/TextExtractor.tsx:143-158 | settle events at non-decreasing times keep the history invariant |
| TextExtractor.NewestIsHovered | frontend/src/components/TextExtractor.tsx:143-158 | after the push the newest item carries the hovered text |
| TextExtractor.FirstHoverIsNotPosted | frontend/src/components/TextExtractor.tsx:163-170 | as written, the first hover of a session is recorded but never posted or reported |
| TextExtractor.IntendedPostsEveryHover | frontend/src/components/TextExtractor.tsx:162-187 | corrected: every accepted hover is posted and reported, and the aggregate ends with its text |
| GptExtractor.Accepted | frontend/src/components/gptextractor.tsx:51 | a non-empty text of at most 150 UTF-16 units; for text without astral characters 1 to 150 characters, for astral-only text 1 to 75 |
| GptExtractor.Hover | frontend/src/components/gptextractor.tsx:41-64 | the timeout handler: an emitted item is accepted and stamped with the current time; without one the list is unchanged; the list grows by at most one |
| GptExtractor.HoverEmitsIff | frontend/src/components/gptextractor.tsx:47-51 | an item is produced exactly when an element's text is 1 to 150 UTF-16 code units long; otherwise nothing changes |
| GptExtractor.HoverAppends | frontend/src/components/gptextractor.tsx:53-64 | no dedup: the list ends with exactly the item given to `onExtract`, after the newest earlier items, at most `maxItems` long |
| GptExtractor.ElementIdIsPath | frontend/src/components/gptextractor.tsx:55 | `elementId` is never `null`: it is always the DOM path |
| PaperViewer.Settle | src/components/PaperViewer.tsx:187-232 | the timeout handler: the history grows by at most one item, and changes or opens the modal only for an element outside the skipped tags |
| PaperViewer.SettleSkips | src/components/PaperViewer.tsx:191-201 | SCRIPT, STYLE, HEAD, META, LINK, HTML and BODY elements, and empty text, change nothing |
| PaperViewer.SettleRecords | src/components/PaperViewer.tsx:201-228 | other text of any length is pushed with the lower-cased tag and the non-empty id/class, and the modal is shown |
| PaperViewer.SettleKeepsInvariant | src/components/PaperViewer.tsx:214-228 | settle events at non-decreasing times keep the history invariant |
| PaperViewer.SanitizedLayout | src/components/PaperViewer.tsx:72-109 | `createSanitizedHtml` (modelled by `PaperViewer.CreateSanitizedHtml`): the page is prefix, head content, style block, end of head and `<body>`, body content and suffix, in this order |
| PaperViewer.StyleBlockOpens | src/components/PaperViewer.tsx:80 | the injected block opens with `<style>` |
| PaperViewer.SanitizedInjective | src/components/PaperViewer.tsx:72-109 | head and body content of a given head length are recovered from the page |
| PaperViewer.Source | src/components/PaperViewer.tsx:266-276 | the HTML to show or the error: a failure only without `paperContent`; a page without `paperContent` only from an ok response to the fetch of `paperPath` |
| PaperViewer.Load | src/components/PaperViewer.tsx:261-295 | one run of the effect from the previous state: loading ends; the error changes only on a failure, which sets it and keeps the old content |
| PaperViewer.LoadOutcome | src/components/PaperViewer.tsx:261-295 | every run ends loading; a success sets the page (`paperContent` before `paperPath`) and keeps the error, a failure sets its error and keeps the content; from the initial state: the page or an error, never both; no source gives "No paper content or path provided" |
| PaperViewer.ReloadKeepsStaleError | src/components/PaperViewer.tsx:261-307 | as written, after a run with no source, a run given `paperContent` sets the page but keeps the old error, which the error screen then shows instead |
| PaperViewer.IntendedErrorIsCurrent | src/components/PaperViewer.tsx:261-295 | corrected, an effect that clears the error first: on every run the error is set exactly when that run failed, and a success shows its own page |
| FrontendPaperViewer.Load | frontend/src/components/PaperViewer.tsx:141-179 | one run of the effect as written: the error is never touched, and loading ends whenever the state changes |
| FrontendPaperViewer.LoadSetsContentFirst | frontend/src/components/PaperViewer.tsx:141-179 | on every run, loading ends only with the page set and a failure changes nothing; the error is never set; `paperContent` wins |
| FrontendPaperViewer.FailureKeepsSpinner | frontend/src/components/PaperViewer.tsx:145-162 | as written, no source or a failed fetch leaves the viewer loading for ever, with no error |
| FrontendPaperViewer.IntendedShowsError | src/components/PaperViewer.tsx:286-291 | corrected: with a catch and finally, the same cases end loading and show an error |
| FrontendPaperViewer.AgreesOnSuccess | frontend/src/components/PaperViewer.tsx:157-162 | where a page is assembled both loaders give the same state, from any previous state |
| DomHighlighter.MatchesAny | src/components/DOMHighlighter.tsx:34 | only an element matches, and only when there are selectors; an element whose tag name is listed matches |
| DomHighlighter.IsElementExcluded | src/components/DOMHighlighter.tsx:28-41 | excluded iff the element is null, or it or an ancestor matches a selector |
| DomHighlighter.ExcludedStep | src/components/DOMHighlighter.tsx:32-38 | excluded iff it matches or its parent element is excluded |
| DomHighlighter.ExclusionInherited | src/components/DOMHighlighter.tsx:32-38 | every element inside an excluded element is excluded |
| DomHighlighter.NothingExcludedWithoutSelectors | src/components/DOMHighlighter.tsx:32-40 | with no selectors nothing is excluded |
| DomHighlighter.Highlighter.constructor | src/components/DOMHighlighter.tsx:22-25 | nothing hovered or clicked, not interacting |
| DomHighlighter.Highlighter.MouseMove | src/components/DOMHighlighter.tsx:73-92 | disabled or pressed: nothing; excluded: cleared, `null` reported only if something was hovered; otherwise hovered, reported once per change |
| DomHighlighter.Highlighter.Click | src/components/DOMHighlighter.tsx:95-114 | excluded: `clickedElement` cleared and `onClick(null)`; otherwise the target is clicked and reported |
| DomHighlighter.Highlighter.MouseDown | src/components/DOMHighlighter.tsx:124-162 | while enabled sets `isInteracting`; the listener exists only while enabled, so a press while disabled changes nothing; nothing else changes |
| DomHighlighter.Highlighter.MouseUp | src/components/DOMHighlighter.tsx:124-162 | while enabled clears `isInteracting`; a release while disabled is not heard and leaves the press pending; nothing else changes |
| DomHighlighter.Highlighter.SetEnabled | src/components/DOMHighlighter.tsx:124-129 | disabling clears hovered and clicked; the hovered and clicked elements are never excluded |
| GazeTracker.Accepted | frontend/src/components/GazeTracker.tsx:117 | only a present sample is accepted, and none with a zero coordinate |
| GazeTracker.ButtonLabel | frontend/src/components/GazeTracker.tsx:353-355 | while calibrating the label reads "Calibrating (…)" |
| GazeTracker.ButtonLabelShowsStep | frontend/src/components/GazeTracker.tsx:353-355 | while calibrating, the label reads back as step `currentCalibrationPoint + 1` of `calibrationPoints.length`: the digits before the slash parse to the step, those after it to the number of points |
| GazeTracker.Tracker.constructor | frontend/src/components/GazeTracker.tsx:41-47 | not ready, not calibrating, index 0, empty history |
| GazeTracker.Tracker.WebGazerReady | frontend/src/components/GazeTracker.tsx:137-139 | ready; calibration state untouched |
| GazeTracker.Tracker.GazeSample | frontend/src/components/GazeTracker.tsx:116-123 | accepted iff non-null with truthy x and y: it becomes the position, is appended to the history and reported; otherwise nothing changes |
| GazeTracker.Tracker.ClearHistory | frontend/src/components/GazeTracker.tsx:376 | the history is emptied, nothing else changes |
| GazeTracker.Tracker.ShowCalibrationPoint | frontend/src/components/GazeTracker.tsx:157-233 | index ≥ number of points ends calibration, resets the index and completes; otherwise the dot of that point is shown |
| GazeTracker.Tracker.StartCalibration | frontend/src/components/GazeTracker.tsx:149-155 | a no-op unless ready and not calibrating; otherwise calibration starts at point 0 |
| GazeTracker.Tracker.ClickDot | frontend/src/components/GazeTracker.tsx:211-220 | the dot goes, the index advances by exactly one, the next point is scheduled |
| GazeTracker.Tracker.PendingFires | frontend/src/components/GazeTracker.tsx:217-219 | the scheduled point is shown, or calibration completes after the last |
| GazeTracker.Tracker.TimeoutFires | frontend/src/components/GazeTracker.tsx:226-232 | advances by one only while that very dot is present, so a clicked dot never advances twice |
| GazeTracker.LastClickOverruns | frontend/src/components/GazeTracker.tsx:353-355 | as written, after the click on the only dot the button reads "Calibrating (2/1)" |
| GazeTracker.IntendedStepInRange | frontend/src/components/GazeTracker.tsx:353-355 | corrected: the shown step lies in 1..points in every calibrating state, and agrees with the original before the last click |
| Backend.PySlice | backend/server.py:42 | a clamped slice is never longer than the text |
| Backend.ChunkText | backend/server.py:41-42 | `chunk_text`: no chunks for empty text or a negative size; no chunk longer than the text |
| Backend.ChunkCountBounds | backend/server.py:42 | the count is ceil(n / size): the least number of chunks covering n; zero exactly for n = 0 |
| Backend.ChunkTextCount | backend/server.py:42 | one chunk per `chunk_size` characters, rounded up; empty text has no chunks |
| Backend.ChunkTextSizes | backend/server.py:42 | chunk i starts at i·size; all but the last have exactly `chunk_size` characters, the last 1 to `chunk_size` |
| Backend.ChunkTextRoundTrip | backend/server.py:41-42 | joining the chunks in order gives back the text |
| Backend.Ingest | backend/server.py:52-65 | `/ingest` reports "success" and as many chunks as it stores rows |
| Backend.IngestReportsChunks | backend/server.py:52-65 | the reported `chunks` is the number of rows, one per chunk, with the request's url and id, whose contents make up the text |
| Backend.Prompt | backend/server.py:82 | the prompt is longer than the context and the question together and ends with "\nAnswer:" |
| Backend.Query | backend/server.py:67-88 | `/query`: the 404 exactly when no row comes back; otherwise 1 to 5 chunks of context |
| Backend.QueryUsesTopK | backend/server.py:75-81 | an empty result is exactly the 404; otherwise the context is the contents of the nearest min(5, n) rows, in rank order |
| Backend.ContextOrder | backend/server.py:80-81 | the joined context opens with the nearest row and closes with the last kept one |
| FrontendPdfRoute.NormaliseUrl | frontend/src/app/api/pdfparser/route.ts:34-38 | the sent URL has no commas and is the given one, possibly with 8 more characters |
| FrontendPdfRoute.NormaliseUrlShape | frontend/src/app/api/pdfparser/route.ts:34-38 | no commas, starts with "http", "https://" added exactly when missing, every other character kept |
| FrontendPdfRoute.NormaliseUrlIdempotent | frontend/src/app/api/pdfparser/route.ts:34-38 | normalising twice equals normalising once |
| FrontendPdfRoute.Post | frontend/src/app/api/pdfparser/route.ts:20-82 | a URL is sent only for a string URL and a key, and it is the normalised one; a success is a 200 after PDF.co replied |
| FrontendPdfRoute.PostChecksInputFirst | frontend/src/app/api/pdfparser/route.ts:20-33 | a missing URL is a 400 before the key is checked, a missing key a 500, and nothing is sent before both pass |
| FrontendPdfRoute.PostPassesUpstreamOn | frontend/src/app/api/pdfparser/route.ts:62-75 | not ok or `error`: PDF.co's status (or 500) and message (or 'PDF.co API error'); otherwise the job with status defaulting to 'working' |
| FrontendPdfRoute.PostReplyShape | frontend/src/app/api/pdfparser/route.ts:20-82 | errors carry `error: true` and a message; successes are 200 without one; a thrown call is an error |
| PdfRoute.Post | src/app/api/pdfparser/route.ts:24-116 | PDF.co is called only with a URL and a key; a success needs its reply |
| PdfRoute.Dispatch | src/app/api/pdfparser/route.ts:66-108 | the error flag always fails; a success is a 200 with HTML or PDF.co's job |
| PdfRoute.PostChecksInputFirst | src/app/api/pdfparser/route.ts:24-40 | 400 for a missing URL, then 500 for a missing key; PDF.co is called exactly when both are there |
| PdfRoute.DispatchPriority | src/app/api/pdfparser/route.ts:66-108 | the error flag wins (500), then inline HTML, then the downloaded URL, then the started job, else 500 'Unexpected response format…' |
| PdfRoute.ReplyErrorIffFailure | src/app/api/pdfparser/route.ts:24-116 | `error: true` exactly on non-200 replies, which are 400 or 500 with a message; successes carry HTML or a started job |
| PdfUploader.Validate | src/components/PDFUploader.tsx:22-33 | a rejection carries one of the two messages |
| PdfUploader.ValidateAccepts | src/components/PDFUploader.tsx:22-33 | exactly PDFs of at most 10 MiB pass; the type is checked first |
| PdfUploader.Base64Segment | src/components/PDFUploader.tsx:43 | the segment holds no comma |
| PdfUploader.Base64SegmentOfDataUrl | src/components/PDFUploader.tsx:43 | `header,payload` gives exactly the payload; no comma gives `undefined` |
| PdfUploader.Base64SegmentFollowsFirstComma | src/components/PDFUploader.tsx:43 | the segment starts right after the first comma and holds no comma |
| PdfUploader.OutputName | src/components/PDFUploader.tsx:84 | the name keeps its length or grows by one (".pdf" to ".html") |
| PdfUploader.OutputNameRewrites | src/components/PDFUploader.tsx:84 | a trailing ".pdf" in any case becomes ".html"; other names unchanged; idempotent |
| PdfUploader.Process | src/components/PDFUploader.tsx:38-120 | the upload is sent exactly when the file was read; the conversion only after it; a result only after both, with the rewritten name |
| PdfUploader.ProcessSucceedsIff | src/components/PDFUploader.tsx:38-120 | the blob URL is handed on iff read, upload, conversion and download all succeed; an upload or conversion reply not ok or without `url` fails with its message or the default |
| PdfUploader.Uploader.constructor | src/components/PDFUploader.tsx:13-14 | not uploading, no error |
| PdfUploader.Uploader.HandleFileChange | src/components/PDFUploader.tsx:17-127 | no file: no change; a rejected file: its message, no upload; otherwise the error is cleared, `isUploading` ends false, and either the result is handed on or its message is the error |
| Heatmap.Trunc | eyetrack/app.py:85 | `int()` never crosses zero: non-negative for non-negative values, non-positive for non-positive ones |
| Heatmap.TruncTowardZero | eyetrack/app.py:85 | `int()` truncates toward zero, so −1 < v < 1 gives 0 |
| Heatmap.Handled | eyetrack/app.py:78-100 | the loop handles the frames up to the first missing one, or up to and including the pass with stop pressed |
| Heatmap.HitCountAppend | eyetrack/app.py:85-87 | hit counts over consecutive stretches of frames add up |
| Heatmap.HitCountBounds | eyetrack/app.py:86 | a cell off the page is never hit; no cell more often than there are frames |
| Heatmap.GazeMap.constructor | eyetrack/app.py:34-40 | not tracking; an all-zero heatmap of page size |
| Heatmap.GazeMap.StartTracking | eyetrack/app.py:44-46 | tracking, on a fresh all-zero heatmap of page size |
| Heatmap.GazeMap.Record | eyetrack/app.py:85-87 | only the cell under an on-page point gains 1; every other cell, and everything for an off-page point, is unchanged |
| Heatmap.GazeMap.Track | eyetrack/app.py:78-100 | each cell gains its hit count over the handled frames; stop clears tracking; a missing frame is the webcam error and leaves tracking set |
| Heatmap.GazeMap.Argmax | eyetrack/app.py:54 | the first cell in row-major order holding the largest count |
| Heatmap.GazeMap.FirstMaxUnique | eyetrack/app.py:54 | that cell is unique |
| Heatmap.ClosestWord | eyetrack/app.py:57-66 | none exactly for no words; otherwise the first word at the least squared centre distance |
| Heatmap.ClosestUnique | eyetrack/app.py:58-66 | that word is unique |
| Heatmap.GazeMap.ShowHotContent | eyetrack/app.py:49-72 | tracking stops; all-zero: no gaze; no words: no text; otherwise the word closest to the first hottest cell |
| Testimonials.Next | frontend/src/components/TestimonialsSection.tsx:44-46 | `(prev + 1) % n` with JavaScript's `%` stays in 0..n−1 from any index ≥ −1 |
| Testimonials.Prev | frontend/src/components/TestimonialsSection.tsx:48-50 | `(prev - 1 + n) % n` stays in 0..n−1 from any index ≥ 1 − n |
| Testimonials.Step | frontend/src/components/TestimonialsSection.tsx:44-50 | a click keeps an index in range, and a dot click (line 129) sets its own index |
| Testimonials.Run | frontend/src/components/TestimonialsSection.tsx:42-50 | no clicks keep the index; after a final dot click the index is that dot's |
| Testimonials.StepsStayInRange | frontend/src/components/TestimonialsSection.tsx:44-50 | next and previous stay in range, wrapping from the last to the first and back |
| Testimonials.ArrowsInverse | frontend/src/components/TestimonialsSection.tsx:44-50 | previous after next, and next after previous, give back the index |
| Testimonials.RunStaysInRange | frontend/src/components/TestimonialsSection.tsx:42-50 | from an index in range, any clicks keep it in range, and a dot click lands on its testimonial |
| Testimonials.NextRepeated | frontend/src/components/TestimonialsSection.tsx:44-46 | k next clicks move k places round the circle |
| Testimonials.FullRound | frontend/src/components/TestimonialsSection.tsx:44-46 | a full round of next clicks returns to the start |
| Testimonials.CarouselStaysOnSlides | frontend/src/components/TestimonialsSection.tsx:15-50 | for the section's three testimonials from index 0: any clicks stay on a testimonial, previous on the first shows the third, three next clicks return to the first |
| AgentPanel.GetVariant | frontend/src/components/AgentPanel.tsx:90-94 | 'thinking' iff `isThinking`; 'idle' iff neither flag |
| AgentPanel.Apply | frontend/src/components/AgentPanel.tsx:24-57 | a failed cycle changes nothing; an answered one flips both flags and sets non-empty content |
| AgentPanel.Run | frontend/src/components/AgentPanel.tsx:21-61 | the cycles keep the two flags apart exactly when they started apart |
| AgentPanel.RunFlips | frontend/src/components/AgentPanel.tsx:53-54 | each flag is its start value flipped once per answered poll; failed polls change nothing |
| AgentPanel.RunShowsLastAnswer | frontend/src/components/AgentPanel.tsx:47 | the content is the last answer, or 'No content available' when it is empty |
| AgentPanel.FlagsStayApart | frontend/src/components/AgentPanel.tsx:6-7 | from `true`/`false` the flags always differ, so the dots are never 'idle' |
| AgentPanel.Ran | frontend/src/components/AgentPanel.tsx:19-22 | the loop runs up to and including the cycle after which the panel is unmounted |
| AgentPanel.Component.constructor | frontend/src/components/AgentPanel.tsx:6-9 | `isOpen` true, `showThinking` false, not scrolled, empty content |
| AgentPanel.Component.HandleScroll | frontend/src/components/AgentPanel.tsx:12-18 | `isScrolled` iff `scrollY > 10` |
| AgentPanel.Component.Loop | frontend/src/components/AgentPanel.tsx:21-61 | the state is the run of the polls of the cycles before unmount; unmount ends the loop |

## Left out

- PdfCoApi.Reply has no `details` or `data` member: the error replies of src/app/api/pdfparser/route.ts:68, :106 and :113 and of frontend/src/app/api/pdfparser/route.ts:79 attach the PDF.co body or the thrown error's text for diagnosis; the model keeps the status, the flag and the message of those replies, and thrown errors carry no text in it.
- Network, database and foreign calls become inputs: PDF.co, `/fastingest`, `/query`, the HTML download and its abort timeout, OpenAI embeddings and completions, Supabase, BeautifulSoup. So do the browser facilities: `DOMParser`, `elementFromPoint`, `FileReader`, Blob URLs, `matches`, layout and scroll offsets.
- WebGazer, D3, sweetalert2, Streamlit's rendering and cv2 are not modelled. The heatmap overlay, the calibration-dot positions and all drawing are presentation.
- Timing is not modelled: debounce timers, the cleanup interval, React's render scheduling and the timing of the async loops. A timer firing is an explicit event or a method call, and time is an input `now`.
- TextExtractor.Settle reads the history as captured before the update, which is how the handler's closure sees it. A stale closure that lags further behind is not modelled.
- TextExtractor.Settle models reading `hoveredItems[0]` on an empty history: the handler stops with a TypeError. Nothing is then posted or reported, and the queued history update still applies.
- Strings.Lower folds ASCII letters only. Tag names and file extensions in this code are ASCII.
- PaperViewer.CreateSanitizedHtml has no contract of its own; its layout and injectivity are stated by PaperViewer.SanitizedLayout and PaperViewer.SanitizedInjective.
- PaperViewer.Source passes on an Error with an empty message as an empty error string, which the component treats as no error; the model keeps that string but does not model that rendering.
- DomHighlighter.MatchesAny treats selectors as tag names, matched case-insensitively. The default list contains only tag names. Other CSS selectors are not modelled.
- The highlight box of DOMHighlighter.tsx (its position and style) is presentation.
- GazeTracker.Accepted takes coordinates as reals. A NaN coordinate is not modelled.
- Heatmap coordinates are exact reals, and the `float32` counts are integers. Counts beyond 2^24 would lose precision in the source.
- Heatmap.GazeMap.Argmax requires a page that is not empty, because numpy raises on an empty array.
- Heatmap.GazeMap.Track models the stop button as a flag of each pass. Streamlit's rerun of the whole script is not modelled. Nor is the session state that keeps `heatmap` and `tracking` from eyetrack/app.py:39-40 across uploads: the model always sizes the heatmap to the current page, while the app keeps the array of the earlier page until "Start Eye Tracking", so its `heatmap[y, x] += 1` and "Show Hot Content" can act on an array of another shape.
- PdfUploader.Process takes a thrown value to be an Error with a message. The 'Failed to process PDF' fallback for other values is not modelled.
- The `API_KEY` header that PDFUploader.tsx sends refers to an undefined name and is not modelled.
- Backend.ChunkText requires a non-zero chunk size, because Python's `range` raises on a zero step. Only the default 500 is ever used.
- The prompt and the answer of `/query` are not modelled beyond the prompt text itself.
- AgentPanel.Poll does not model a truthy `data.answer` that is not a string. The console logging (including the stale `content` it prints) is not modelled.
- The client-side EyeTracker.tsx and the eye-tracking page are not modelled. Their calibration is driven by dialog results. Navbar, hero, features, pricing and the other presentation components are not modelled either.

## Findings

| source | as written | input that shows it | evidently intended | confidence | as-written member | corrected member |
|---|---|---|---|---|---|---|
| frontend/src/components/TextExtractor.tsx:163-170 | the aggregate and `getDomPath(hoveredItems[0].element)` read the pre-update history, which is empty on the first hover | the first accepted hover of a session: the handler throws before the request and `onTextExtracted` | every accepted hover is posted and reported, the aggregate including the new text | not executed | TextExtractor.FirstHoverIsNotPosted | TextExtractor.IntendedPostsEveryHover |
| frontend/src/components/GazeTracker.tsx:353-355 | the label shows `currentCalibrationPoint + 1`, and a click on the last dot sets the index to the number of points before the final delay | one calibration point, clicked: "Calibrating (2/1)" for 500 ms | the step stays within 1..number of points | not executed | GazeTracker.LastClickOverruns | GazeTracker.IntendedStepInRange |
| frontend/src/components/PaperViewer.tsx:145-162 | `fetchPaperContent` has no catch or finally, so a thrown error leaves `isLoading` true and sets no error | neither `paperContent` nor `paperPath` given, or a fetch that is not ok | loading ends and the error is shown, as in src/components/PaperViewer.tsx | not executed | FrontendPaperViewer.FailureKeepsSpinner | FrontendPaperViewer.IntendedShowsError |
| src/components/PaperViewer.tsx:261-307 | the loading effect runs again whenever `paperContent` or `paperPath` changes, but never clears the error of an earlier run, and the error screen is tested before the page | first no source ("No paper content or path provided"), then `paperContent` given: the new page is set but the error screen stays | each run clears the error first, so the error shown is that of the latest run | not executed | PaperViewer.ReloadKeepsStaleError | PaperViewer.IntendedErrorIsCurrent |
