# PdfHelper, modelled in Dafny

A model of the `PdfHelper` class of PdfFunctions (`PdfHelper/PdfHelper.cs`). The class
collects images and PDF documents under increasing positions, then builds one output PDF
from them: for each position, the image page (if any) and then every page of the document
(if any), optionally stamping every imported page with one rotation and every output page
with a "Page k" caption. It can instead split the document at position 1 into the pages
outside a range and the pages inside it. A terminal call (save, return, split) runs the
work and then performs its action, but only if the output has at least one page.

Pages are opaque values: an input page is its content bytes and its Rotate attribute; an
output page is either an image drawn on a fresh page (with the height chosen for it) or an
imported input page, plus the caption drawn on it. A PDF payload is represented by the list
of pages it opens to.

Files:

- `options.dfy` — `Option`, for PdfHelper.cs's nullable values.
- `pdf_enums.dfy` — `PdfAction`, `PdfAngle`, and the EXIF orientation-code table.
- `pages.dfy` — page values, decimal notation and the "Page k" caption.
- `progress.dfy` — the percentage reported after each position.
- `assembly.dfy` — what the assembly loop builds, as functions of the registry, and its properties.
- `page_split.dfy` — what the split loop leaves and extracts, and its properties.
- `pdf_helper.dfy` — the `PdfHelper` class: fields, add methods, both `DoWork` variants and their position loops, `DoSplitPdf`, `WorkCompleted`, and the terminal calls, each proved against the functions above.

Where PdfHelper.cs behaves in ways a caller might not expect, the model follows it:

- The split range is not checked up front. An index outside the document makes `Pages[i]`
  throw in the middle of the loop, after some pages may already have been removed from the
  modified handle (`RemainderOnFailure`). A start after the end passes the loop without
  extracting anything, and a range covering the whole document empties the modified
  handle; in both cases the unconditional `Save` of the half without pages throws, because
  the PDF library refuses to save a document with no pages.
- A cancelled worker run is not discarded: the completion handler does not look at the
  cancellation, so the terminal action runs on the pages built before the cancellation.
- `DoWork` never clears the output document, so `SavePdf` and `ReturnPdf` append a fresh
  assembly (with captions counting from 1 again) to whatever the output document holds:
  what the previous save or return built, or, after a `SplitPdf`, the document at position 1.
- The angle set by `AddSinglePdfByteWithRotation` applies to every document in the job,
  whichever add method filed it.

## Model

| member | source | states |
|---|---|---|
| PdfEnums.AngleFromCode | PdfHelper/PdfHelper.cs:83-92 | total: an angle exactly for the codes 1, 3, 6, 8 and none for any other integer; the angle found is the one whose EXIF code is the input |
| PdfEnums.Degrees | PdfHelper/PdfHelper.cs:533-539 | every angle is a multiple of 90 in 0..359 |
| PdfEnums.AngleTableInverse | PdfHelper/PdfHelper.cs:83-92 | the table maps each angle's code back to that angle; distinct angles have distinct degree values |
| PdfEnums.AngleTableDegrees | PdfHelper/PdfHelper.cs:533-539 | codes 1, 6, 3, 8 give 0, 90, 180, 270 degrees |
| Pages.DecimalDigits | PdfHelper/PdfHelper.cs:327 | the page number is written as a non-empty string of decimal digits without a leading zero |
| Pages.DecimalRoundTrip | PdfHelper/PdfHelper.cs:327 | reading the digits back gives the number |
| Pages.LabelInjective | PdfHelper/PdfHelper.cs:359 | two captions "Page j" and "Page k" are equal only when j = k |
| WorkerProgress.Progress | PdfHelper/PdfHelper.cs:367 | the report is in 0..100 and is 100·i/order rounded to nearest with halves going up (half away from zero for these non-negative values) |
| WorkerProgress.ProgressMonotone | PdfHelper/PdfHelper.cs:367-368 | reports never decrease as the position advances |
| WorkerProgress.ProgressComplete | PdfHelper/PdfHelper.cs:367 | the report after the last position is exactly 100 |
| WorkerProgress.ProgressReports | PdfHelper/PdfHelper.cs:367-368 | one report per finished position, each in 0..100 |
| WorkerProgress.ReportsOfFullRun | PdfHelper/PdfHelper.cs:289-368 | a run through all positions reports a non-decreasing sequence ending in 100 |
| Assembly.Imported | PdfHelper/PdfHelper.cs:343-348 | a document contributes exactly as many pages as it has |
| Assembly.Numbered | PdfHelper/PdfHelper.cs:345-359 | numbering adds no page and removes none |
| Assembly.StopPosition | PdfHelper/PdfHelper.cs:289-295 | the worker stops at the first position whose cancellation check is set, having processed every earlier position, or runs to the end when none is set |
| Assembly.LayoutPageCount | PdfHelper/PdfHelper.cs:296-366 | the output has one page per image entry plus every page of every document entry |
| Assembly.LayoutPrefix | PdfHelper/PdfHelper.cs:289-369 | later positions only append after the pages of earlier positions |
| Assembly.LayoutPosition | PdfHelper/PdfHelper.cs:296-366 | position i's pages form one contiguous block right after those of positions 1..i-1: its image page first, then its document's pages in their own order |
| Assembly.LayoutUncaptioned | PdfHelper/PdfHelper.cs:301-348 | pages carry no caption before the overlay is drawn |
| Assembly.LayoutRotationStamped | PdfHelper/PdfHelper.cs:346-347 | with an angle set, every imported page's Rotate is the angle's degree value |
| Assembly.LayoutRotationUntouched | PdfHelper/PdfHelper.cs:343-348 | with no angle, every imported page is one of the input pages exactly as it was |
| Assembly.AssembledCaptions | PdfHelper/PdfHelper.cs:301-359 | the k-th page built is the k-th laid-out page with caption "Page k" when numbering is on and none when it is off |
| Assembly.CaptionsDistinct | PdfHelper/PdfHelper.cs:345-359 | with numbering on, no two pages carry the same caption |
| Assembly.NumberedSnoc | PdfHelper/PdfHelper.cs:345-348 | appending a page numbered after the pages already there extends the numbered output by that page |
| Assembly.ImageThenDocumentExample | PdfHelper/PdfHelper.cs:289-368 | one image then a two-page document give three pages captioned Page 1..Page 3, and reports 50 then 100 |
| PageSplit.RemoveAt | PdfHelper/PdfHelper.cs:506 | removing one page shortens the list by one |
| PageSplit.RemoveRepeatedlyIsRemainder | PdfHelper/PdfHelper.cs:502-507 | removing end-start+1 times at the fixed index start-1 leaves the pages before the range followed by those after it |
| PageSplit.SplitSizes | PdfHelper/PdfHelper.cs:503-509 | a valid split leaves P-(end-start+1) pages and extracts end-start+1 |
| PageSplit.SplitOrder | PdfHelper/PdfHelper.cs:503-509 | extracted page k is original page start-1+k; the remainder keeps the pages before the range and after it, in order |
| PageSplit.SplitRoundTrip | PdfHelper/PdfHelper.cs:503-509 | splicing the extracted pages back in at index start-1 gives the original document |
| PageSplit.SplitExamples | PdfHelper/PdfHelper.cs:503-519 | split(2,3) of five pages keeps 1,4,5 and extracts 2,3 and succeeds; split(4,2) extracts nothing and split(1,5) keeps nothing, so a save throws; split(0,1) and split(4,6) run outside the document |
| PageSplit.SplitSucceedsIffBothHalvesHavePages | PdfHelper/PdfHelper.cs:503-519 | a split goes through exactly when the loop stays inside the document and both the remainder and the extracted document have pages to save |
| PdfFunctions.PdfHelper.constructor | PdfHelper/PdfHelper.cs:44-56 | empty registry, order 0, empty output document, numbering as asked, worker path exactly when the session is not interactive |
| PdfFunctions.PdfHelper.AddPdfbytesToPdf | PdfHelper/PdfHelper.cs:63-71 | order grows by one and the document is filed under the new order, a key not used before; the keys stay exactly 1..order |
| PdfFunctions.PdfHelper.AddSinglePdfByteWithRotation | PdfHelper/PdfHelper.cs:78-93 | the output document restarts empty, the document is filed under the next position, and the angle is the table's value for the code (none outside 1, 3, 6, 8) |
| PdfFunctions.PdfHelper.AddImagebytesToPdf | PdfHelper/PdfHelper.cs:99-108 | order grows by one and the image and its height are filed under the new order, a key not used before; the keys stay exactly 1..order |
| PdfFunctions.PdfHelper.CreateBlankPdf | PdfHelper/PdfHelper.cs:175-178 | the output document is a new empty one |
| PdfFunctions.PdfHelper.AppendDocument | PdfHelper/PdfHelper.cs:343-362 | every page of the document is appended in order, rotated to the job's angle when one is set, and numbered by the running page count, which grows by the document's page count |
| PdfFunctions.PdfHelper.AppendPosition | PdfHelper/PdfHelper.cs:296-366 | one position appends its image page (drawn at the requested height when positive, else page height) and then its document's pages, each numbered by the running page count, which ends equal to the number of pages laid out |
| PdfFunctions.PdfHelper.OpenForSplit | PdfHelper/PdfHelper.cs:277-285 | both handles hold the pages of the document at position 1; with none there it throws and changes nothing |
| PdfFunctions.PdfHelper.AssembleReporting | PdfHelper/PdfHelper.cs:288-369 | appends the assembly of the positions before the first cancellation, reports one percentage per finished position, and says whether it was cancelled |
| PdfFunctions.PdfHelper.DoWorkReporting | PdfHelper/PdfHelper.cs:273-377 | on a split job it only opens the two handles (failing without a document at position 1); otherwise it appends the assembly of the positions before the first cancellation with one report per finished position, and leaves the modified handle alone |
| PdfFunctions.PdfHelper.AssembleHeadless | PdfHelper/PdfHelper.cs:394-468 | appends the assembly of all positions 1..order |
| PdfFunctions.PdfHelper.DoWorkHeadless | PdfHelper/PdfHelper.cs:379-476 | on a split job it only opens the two handles (failing without a document at position 1); otherwise it appends the assembly of all positions 1..order and leaves the modified handle alone |
| PdfFunctions.PdfHelper.MovePages | PdfHelper/PdfHelper.cs:502-509 | on a range inside the document, the modified handle ends as the remainder and the new document as the requested pages in order; on a range with start ≤ end that reaches outside the document, `Pages[i]` throws, leaving the pages before the range (or all of them when the first index is already outside); a range with start > end moves nothing; its loop invariant keeps pagesRemoved = i-(start-1), so every removal is at index start-1 |
| PdfFunctions.PdfHelper.DoSplitPdf | PdfHelper/PdfHelper.cs:497-521 | on a range inside the document that leaves pages on both sides, the modified handle keeps the remainder and one (remainder, extracted) entry is added; otherwise it throws (an index outside the document, or `Save` of a half without pages) and adds no entry |
| PdfFunctions.PdfHelper.DoSavePdf | PdfHelper/PdfHelper.cs:478-486 | the document is written only when the dialog is confirmed |
| PdfFunctions.PdfHelper.DoReturnPdf | PdfHelper/PdfHelper.cs:488-495 | the returned document becomes the output document |
| PdfFunctions.PdfHelper.WorkCompleted | PdfHelper/PdfHelper.cs:245-270 | with no output page nothing happens; otherwise exactly the chosen action (save, return or split) runs |
| PdfFunctions.PdfHelper.RunDoWork | PdfHelper/PdfHelper.cs:183-205 | on the worker path the output grows by the positions before the first cancellation, with their reports; on the headless path by all positions, with no reports; a split job opens both handles on the document at position 1 or fails without one |
| PdfFunctions.PdfHelper.BeginBackGroundWorker | PdfHelper/PdfHelper.cs:180-208 | runs the work on the worker or headless path, then the completion step, also after a cancellation; a failed split opening ends the job and leaves both document handles as they were; a split of a document without pages leaves both handles empty |
| PdfFunctions.PdfHelper.SavePdf | PdfHelper/PdfHelper.cs:113-120 | appends the assembly, and saves the whole output when it has pages and the dialog is confirmed |
| PdfFunctions.PdfHelper.ReturnPdf | PdfHelper/PdfHelper.cs:126-134 | appends the assembly and returns the whole output when it has pages, else the previously returned value |
| PdfFunctions.PdfHelper.SplitPdf | PdfHelper/PdfHelper.cs:158-169 | returns one (remainder, extracted) pair for a range inside the document at position 1 that leaves pages on both sides, nothing for a document without pages, and fails when there is no such document, or when, for a document with pages, the range reaches outside it or leaves either half empty; the output document becomes the document at position 1 and the modified handle what the page moves left of it (the remainder, or only the pages before the range when an index falls outside; both handles are left as they were when there is no such document) |

## Left out

- `GetPdfPageCount` (PdfHelper/PdfHelper.cs:141-150): a wrapper over the PDF library's reader; a document here is already its page list.
- Opening, rendering and saving PDFs, decoding images, and the exceptions these raise for malformed bytes: these are PDF library calls. A document payload is modelled by its pages, a saved or returned document by its page list.
- Drawing geometry (25-unit margins, `page.Width - 50`, the caption's font, box and alignment): library doubles and fonts; only the choice between the requested height and the page height is kept.
- `BusyWindow.xaml.cs`, `Worker_ProgressChanged` and `ExceptionLogger.cs`: display and logging; the reported percentages are returned as a sequence instead.
- Threads and the BackgroundWorker: the work and its completion run in sequence. The race in which the headless `ReturnPdf` and `SplitPdf` return before the thread finishes is not modelled, and neither is who sets the cancellation flag (nothing in PdfHelper.cs sets it except `CancelAsync` in the exception handler); the flag's value at each position is a parameter.
- The worker's completion handler firing after an exception in `DoWork` (PdfHelper/PdfHelper.cs:372-376): the model ends the job on that exception on both paths.
- The second `WorkCompleted` overload (PdfHelper/PdfHelper.cs:216-243) differs from the one modelled only by closing the busy window.
- `throw ex` rethrowing: exceptions are a `failed` result.
- 32-bit `int` overflow of `order` and `pagecount`: unbounded naturals here.
- `pdfSplit` is a dictionary keyed by byte-array reference; its entries are modelled as a list, which receives one entry per split.
- `Environment.UserInteractive` is read once, in the constructor; it is a constructor parameter.
