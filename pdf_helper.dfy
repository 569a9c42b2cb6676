/** The PdfHelper object of PdfHelper.cs: an input registry filled by the add methods, and
    three terminal calls that build the output document (or split the registered document)
    and then save it, return it or return the split pair.

    The output document is never null in PdfHelper.cs (the constructor creates it and nothing
    resets it to null), so it is a page list here and the `outputDocument != null` tests are
    always true. Serialising a document to bytes is the library's job: a saved or returned
    document is represented by its page list. */
module PdfFunctions {
  import opened Options
  import opened PdfEnums
  import opened Pages
  import opened WorkerProgress
  import opened Assembly
  import opened PageSplit

  /** The one entry SplitPdf's dictionary receives: the modified original and the new document. */
  datatype SplitResult = SplitResult(remainder: seq<Page>, extracted: seq<Page>)

  /** Where the split loop leaves the modified document when `Pages[i]` throws: the pages
      before the range stay, those removed before the throw are gone. */
  function RemainderOnFailure(orig: seq<Page>, start: int, end: int): seq<Page>
  {
    if 1 <= start <= |orig| then orig[..start - 1] else orig
  }

  /** The state DoSplitPdf leaves behind: the modified document and the split dictionary's
      entries. The entry is added only when the loop stayed inside the document and both
      halves could be saved. */
  function AfterSplit(orig: seq<Page>, start: int, end: int, results: seq<SplitResult>)
    : (seq<Page>, seq<SplitResult>)
  {
    if RangeFails(|orig|, start, end) then (RemainderOnFailure(orig, start, end), results)
    else if !SplitSucceeds(|orig|, start, end) then (Remainder(orig, start, end), results)
    else (Remainder(orig, start, end), results + [SplitResult(Remainder(orig, start, end), Extracted(orig, start, end))])
  }

  class PdfHelper {
    var outputDocument: seq<Page>
    var modifyOutputDocument: seq<Page>
    var returnDocument: Option<seq<Page>>
    var images: map<int, Bytes>
    var pdfs: map<int, seq<SourcePage>>
    var pdfSplit: seq<SplitResult>
    var action: PdfAction
    var splitStart: int
    var splitEnd: int
    var order: nat
    var angle: Option<PdfAngle>
    var showPageNumbers: bool
    var heightForImage: map<int, int>
    var onUiThread: bool
    /** The document last written through the save dialog, standing for the file. */
    var savedDocument: Option<seq<Page>>

    /** The registry invariant: every add took the next position, so the keys are exactly
        1..order, each position holds one entry, and each image has its height. */
    ghost predicate Valid()
      reads this`images, this`pdfs, this`order, this`heightForImage
    {
      images.Keys !! pdfs.Keys &&
      (forall k :: k in images || k in pdfs <==> 1 <= k <= order) &&
      heightForImage.Keys == images.Keys
    }

    /** The inputs DoWork reads. */
    function Reg(): Registry
      reads this`images, this`heightForImage, this`pdfs, this`angle
    {
      Registry(images, heightForImage, pdfs, angle)
    }

    /** How many positions a run gets through: all of them on the headless path, those
        before the first cancellation request on the worker path. */
    ghost function PositionsRun(cancel: int -> bool): nat
      reads this`onUiThread, this`order
      ensures PositionsRun(cancel) <= order
    {
      if onUiThread then StopPosition(cancel, 1, order) - 1 else order
    }

    /** `userInteractive` is what `Environment.UserInteractive` reads when the object is made. */
    constructor(userInteractive: bool, addPageNumbers: bool := false)
      ensures Valid()
      ensures order == 0 && images == map[] && pdfs == map[] && heightForImage == map[]
      ensures outputDocument == [] && angle == None && showPageNumbers == addPageNumbers
      ensures onUiThread == !userInteractive
      ensures returnDocument == None && savedDocument == None && pdfSplit == []
    {
      outputDocument := [];
      modifyOutputDocument := [];
      returnDocument := None;
      images := map[];
      pdfs := map[];
      pdfSplit := [];
      action := Save;
      splitStart, splitEnd := 0, 0;
      order := 0;
      angle := None;
      showPageNumbers := addPageNumbers;
      heightForImage := map[];
      onUiThread := !userInteractive;
      savedDocument := None;
    }

    // -------------------------------------------------------------------------
    // Input registry

    /** Files a document under the next position. */
    method AddPdfbytesToPdf(document: seq<SourcePage>)
      requires Valid()
      modifies this`order, this`pdfs
      ensures Valid()
      ensures order == old(order) + 1 && order !in old(pdfs) && order !in images
      ensures pdfs == old(pdfs)[order := document]
    {
      order := order + 1;
      pdfs := pdfs[order := document];
    }

    /** Starts a fresh output document, files the document under the next position and sets
        the job-wide angle from an EXIF orientation code. */
    method AddSinglePdfByteWithRotation(document: seq<SourcePage>, rotation: int)
      requires Valid()
      modifies this`outputDocument, this`order, this`pdfs, this`angle
      ensures Valid()
      ensures outputDocument == []
      ensures order == old(order) + 1 && order !in old(pdfs) && order !in images
      ensures pdfs == old(pdfs)[order := document]
      ensures angle == AngleFromCode(rotation)
      ensures angle.Some? <==> rotation in {1, 3, 6, 8}
    {
      CreateBlankPdf();
      order := order + 1;
      pdfs := pdfs[order := document];
      angle := AngleFromCode(rotation);
    }

    /** Files an image, with the height to draw it at (0 for the full page), under the next
        position. */
    method AddImagebytesToPdf(image: Bytes, imageHeight: int := 0)
      requires Valid()
      modifies this`order, this`images, this`heightForImage
      ensures Valid()
      ensures order == old(order) + 1 && order !in old(images) && order !in pdfs
      ensures images == old(images)[order := image]
      ensures heightForImage == old(heightForImage)[order := imageHeight]
    {
      order := order + 1;
      images := images[order := image];
      heightForImage := heightForImage[order := imageHeight];
    }

    method CreateBlankPdf()
      modifies this`outputDocument
      ensures outputDocument == []
    {
      outputDocument := [];
    }

    // -------------------------------------------------------------------------
    // Assembly

    /** The import loop of one position: every page of the document, rotated to the job's
        angle when one is set, is added and numbered with the running page count. `before`
        is what the run laid out ahead of this document. */
    method AppendDocument(document: seq<SourcePage>, pagecount: nat, ghost base: seq<Page>, ghost before: seq<Page>)
      returns (count: nat)
      requires outputDocument == base + Numbered(before, showPageNumbers)
      requires pagecount == |before|
      modifies this`outputDocument
      ensures count == |before| + |document|
      ensures outputDocument == base + Numbered(before + Imported(document, angle), showPageNumbers)
    {
      count := pagecount;
      var k := 0;
      while k < |document|
        invariant 0 <= k <= |document|
        invariant count == |before| + k
        invariant outputDocument == base + Numbered(before + Imported(document[..k], angle), showPageNumbers)
      {
        count := count + 1;
        var source := document[k];
        if angle.Some? {
          source := source.(rotate := Degrees(angle.value));
        }
        var page := ImportedPage(source, None);
        ImportedSnoc(document, k, angle);
        assert before + Imported(document[..k + 1], angle) == (before + Imported(document[..k], angle)) + [page];
        NumberedSnoc(before + Imported(document[..k], angle), page, showPageNumbers);
        outputDocument := outputDocument + [Captioned(page, count, showPageNumbers)];
        k := k + 1;
      }
      assert document[..k] == document;
    }

    /** The work DoWork does at position i: the image page, then every page of the document,
        each numbered with the running page count. `done` is what earlier positions laid out
        and `base` what the output held before the run. */
    method AppendPosition(i: int, pagecount: nat, ghost base: seq<Page>, ghost done: seq<Page>)
      returns (count: nat)
      requires Valid()
      requires outputDocument == base + Numbered(done, showPageNumbers)
      requires pagecount == |done|
      modifies this`outputDocument
      ensures count == |done + PositionPages(Reg(), i)|
      ensures outputDocument == base + Numbered(done + PositionPages(Reg(), i), showPageNumbers)
    {
      count := pagecount;
      ghost var added: seq<Page> := [];
      if i in images {
        var page := ImagePage(images[i], DrawHeightFor(heightForImage[i]), None);
        count := count + 1;
        NumberedSnoc(done, page, showPageNumbers);
        outputDocument := outputDocument + [Captioned(page, count, showPageNumbers)];
        added := [page];
      }
      assert added == ImagePart(Reg(), i);
      if i in pdfs {
        count := AppendDocument(pdfs[i], count, base, done + added);
      }
    }

    /** Opens the document at position 1 twice, as the import handle (kept in outputDocument)
        and as the handle that pages are removed from. `pdfs[1]` throws when there is none. */
    method OpenForSplit() returns (failed: bool)
      modifies this`outputDocument, this`modifyOutputDocument
      ensures failed <==> 1 !in pdfs
      ensures failed ==> outputDocument == old(outputDocument) && modifyOutputDocument == old(modifyOutputDocument)
      ensures !failed ==> outputDocument == AsPages(pdfs[1]) && modifyOutputDocument == outputDocument
    {
      if 1 !in pdfs {
        return true;
      }
      outputDocument := AsPages(pdfs[1]);
      modifyOutputDocument := AsPages(pdfs[1]);
      failed := false;
    }

    /** The position loop of DoWork on the BackgroundWorker: before each position it looks at
        the cancellation flag (`cancel(i)`), and after each position it reports the percentage
        done. */
    method AssembleReporting(cancel: int -> bool) returns (progress: seq<int>, cancelled: bool)
      requires Valid()
      modifies this`outputDocument
      ensures cancelled == (StopPosition(cancel, 1, order) <= order)
      ensures outputDocument == old(outputDocument) + Assembled(Reg(), StopPosition(cancel, 1, order) - 1, showPageNumbers)
      ensures progress == ProgressReports(StopPosition(cancel, 1, order) - 1, order)
    {
      progress, cancelled := [], false;
      var pagecount := 0;
      var i := 1;
      while i <= order
        invariant 1 <= i <= order + 1
        invariant forall j :: 1 <= j < i ==> !cancel(j)
        invariant pagecount == |Layout(Reg(), i - 1)|
        invariant outputDocument == old(outputDocument) + Assembled(Reg(), i - 1, showPageNumbers)
        invariant progress == ProgressReports(i - 1, order)
      {
        if cancel(i) {
          cancelled := true;
          return;
        }
        pagecount := AppendPosition(i, pagecount, old(outputDocument), Layout(Reg(), i - 1));
        ProgressReportsSnoc(i - 1, order);
        progress := progress + [Progress(i, order)];
        i := i + 1;
      }
      assert StopPosition(cancel, 1, order) == order + 1;
    }

    /** DoWork on the BackgroundWorker: a split job only opens the two handles, any other
        job walks the positions. */
    method DoWorkReporting(cancel: int -> bool) returns (progress: seq<int>, cancelled: bool, failed: bool)
      requires Valid()
      modifies this`outputDocument, this`modifyOutputDocument
      ensures action == Split ==>
                progress == [] && !cancelled && (failed <==> 1 !in pdfs) &&
                (failed ==> outputDocument == old(outputDocument) && modifyOutputDocument == old(modifyOutputDocument)) &&
                (!failed ==> outputDocument == AsPages(pdfs[1]) && modifyOutputDocument == outputDocument)
      ensures action != Split ==> !failed && modifyOutputDocument == old(modifyOutputDocument)
      ensures action != Split ==> cancelled == (StopPosition(cancel, 1, order) <= order)
      ensures action != Split ==>
                outputDocument == old(outputDocument) + Assembled(Reg(), StopPosition(cancel, 1, order) - 1, showPageNumbers)
      ensures action != Split ==> progress == ProgressReports(StopPosition(cancel, 1, order) - 1, order)
    {
      if action == Split {
        progress, cancelled := [], false;
        failed := OpenForSplit();
      } else {
        failed := false;
        progress, cancelled := AssembleReporting(cancel);
      }
    }

    /** The position loop of DoWork on a plain thread: the same walk, without cancellation or
        progress. */
    method AssembleHeadless()
      requires Valid()
      modifies this`outputDocument
      ensures outputDocument == old(outputDocument) + Assembled(Reg(), order, showPageNumbers)
    {
      var pagecount := 0;
      var i := 1;
      while i <= order
        invariant 1 <= i <= order + 1
        invariant pagecount == |Layout(Reg(), i - 1)|
        invariant outputDocument == old(outputDocument) + Assembled(Reg(), i - 1, showPageNumbers)
      {
        pagecount := AppendPosition(i, pagecount, old(outputDocument), Layout(Reg(), i - 1));
        i := i + 1;
      }
    }

    /** DoWork on a plain thread. */
    method DoWorkHeadless() returns (failed: bool)
      requires Valid()
      modifies this`outputDocument, this`modifyOutputDocument
      ensures action == Split ==>
                (failed <==> 1 !in pdfs) &&
                (failed ==> outputDocument == old(outputDocument) && modifyOutputDocument == old(modifyOutputDocument)) &&
                (!failed ==> outputDocument == AsPages(pdfs[1]) && modifyOutputDocument == outputDocument)
      ensures action != Split ==> !failed && modifyOutputDocument == old(modifyOutputDocument)
      ensures action != Split ==> outputDocument == old(outputDocument) + Assembled(Reg(), order, showPageNumbers)
    {
      if action == Split {
        failed := OpenForSplit();
      } else {
        failed := false;
        AssembleHeadless();
      }
    }

    // -------------------------------------------------------------------------
    // Split

    /** The loop of DoSplitPdf: moves pages splitStart..splitEnd out of the modified handle
        into a new document, reading each from the import handle, whose indices do not shift.
        It removes at `i - pagesRemoved`, which stays at splitStart-1. `failed` is the
        exception `Pages[i]` throws on an index outside the document. */
    method MovePages() returns (newDocument: seq<Page>, failed: bool)
      requires modifyOutputDocument == outputDocument
      modifies this`modifyOutputDocument
      ensures failed == RangeFails(|outputDocument|, splitStart, splitEnd)
      ensures failed ==> modifyOutputDocument == RemainderOnFailure(outputDocument, splitStart, splitEnd)
      ensures !failed ==> modifyOutputDocument == Remainder(outputDocument, splitStart, splitEnd)
      ensures !failed ==> newDocument == Extracted(outputDocument, splitStart, splitEnd)
    {
      var pages, first, last := outputDocument, splitStart - 1, splitEnd - 1;
      newDocument := [];
      var pagesRemoved := 0;
      var i := first;
      while i <= last
        invariant first <= i
        invariant first <= last ==> i <= last + 1
        invariant first > last ==> i == first
        invariant pagesRemoved == i - first
        invariant i > first ==>
                    0 <= first && i <= |pages| &&
                    modifyOutputDocument == RemoveRepeatedly(pages, first, pagesRemoved) &&
                    modifyOutputDocument == pages[..first] + pages[i..] &&
                    newDocument == pages[first..i]
        invariant i == first ==> modifyOutputDocument == pages && newDocument == []
      {
        if !(0 <= i < |pages|) {
          if i > first {
            assert pages[i..] == [];
          }
          return newDocument, true;
        }
        var page := pages[i];
        var index := i - pagesRemoved;
        MoveStep(pages, index, i, modifyOutputDocument, newDocument);
        modifyOutputDocument := RemoveAt(modifyOutputDocument, index);
        pagesRemoved := pagesRemoved + 1;
        newDocument := newDocument + [page];
        i := i + 1;
      }
      failed := false;
    }

    /** Splits the opened document and saves both halves into the split dictionary.
        `failed` is an exception: `Pages[i]` on an index outside the document, or `Save` on
        a half left without pages. */
    method DoSplitPdf() returns (failed: bool)
      requires modifyOutputDocument == outputDocument
      modifies this`modifyOutputDocument, this`pdfSplit
      ensures failed == !SplitSucceeds(|outputDocument|, splitStart, splitEnd)
      ensures (modifyOutputDocument, pdfSplit) == AfterSplit(outputDocument, splitStart, splitEnd, old(pdfSplit))
    {
      var newDocument;
      newDocument, failed := MovePages();
      if failed {
        return;
      }
      // `Save` refuses a document without pages: first the modified original, then the new one.
      if |modifyOutputDocument| == 0 {
        return true;
      }
      if |newDocument| == 0 {
        return true;
      }
      pdfSplit := pdfSplit + [SplitResult(modifyOutputDocument, newDocument)];
    }

    // -------------------------------------------------------------------------
    // Terminal actions

    /** The save dialog writes the document when the user confirms it. */
    method DoSavePdf(dialogAccepted: bool)
      modifies this`savedDocument
      ensures savedDocument == if dialogAccepted then Some(outputDocument) else old(savedDocument)
    {
      if dialogAccepted {
        savedDocument := Some(outputDocument);
      }
    }

    method DoReturnPdf()
      modifies this`returnDocument
      ensures returnDocument == Some(outputDocument)
    {
      returnDocument := Some(outputDocument);
    }

    /** Runs the terminal action, but only when the output document has at least one page. */
    method WorkCompleted(dialogAccepted: bool) returns (failed: bool)
      requires action == Split ==> modifyOutputDocument == outputDocument
      modifies this`savedDocument, this`returnDocument, this`modifyOutputDocument, this`pdfSplit
      ensures |outputDocument| == 0 || action != Split ==>
                !failed && modifyOutputDocument == old(modifyOutputDocument) && pdfSplit == old(pdfSplit)
      ensures |outputDocument| == 0 || action != Save ==> savedDocument == old(savedDocument)
      ensures |outputDocument| == 0 || action != Return ==> returnDocument == old(returnDocument)
      ensures |outputDocument| > 0 && action == Save ==>
                savedDocument == if dialogAccepted then Some(outputDocument) else old(savedDocument)
      ensures |outputDocument| > 0 && action == Return ==> returnDocument == Some(outputDocument)
      ensures |outputDocument| > 0 && action == Split ==>
                failed == !SplitSucceeds(|outputDocument|, splitStart, splitEnd) &&
                (modifyOutputDocument, pdfSplit) == AfterSplit(outputDocument, splitStart, splitEnd, old(pdfSplit))
    {
      failed := false;
      if |outputDocument| > 0 {
        match action
        case Save => DoSavePdf(dialogAccepted);
        case Return => DoReturnPdf();
        case Split => failed := DoSplitPdf();
      }
    }

    /** The DoWork half of a job, on the path onUiThread picks: the BackgroundWorker (progress,
        cancellation) or a plain thread. */
    method RunDoWork(cancel: int -> bool) returns (progress: seq<int>, failed: bool)
      requires Valid()
      modifies this`outputDocument, this`modifyOutputDocument
      ensures action == Split ==>
                progress == [] && (failed <==> 1 !in pdfs) &&
                (failed ==> outputDocument == old(outputDocument) && modifyOutputDocument == old(modifyOutputDocument)) &&
                (!failed ==> outputDocument == AsPages(pdfs[1]) && modifyOutputDocument == outputDocument)
      ensures action != Split ==> !failed && modifyOutputDocument == old(modifyOutputDocument)
      ensures action != Split ==>
                outputDocument == old(outputDocument) + Assembled(Reg(), PositionsRun(cancel), showPageNumbers)
      ensures action != Split ==>
                progress == if onUiThread then ProgressReports(PositionsRun(cancel), order) else []
    {
      if onUiThread {
        var cancelled;
        progress, cancelled, failed := DoWorkReporting(cancel);
      } else {
        progress := [];
        failed := DoWorkHeadless();
      }
    }

    /** Runs DoWork and then WorkCompleted. The worker's completion handler does not look at
        the cancellation, so a cancelled run still reaches WorkCompleted with the pages built
        so far. An exception in DoWork ends the job. */
    method BeginBackGroundWorker(cancel: int -> bool, dialogAccepted: bool) returns (progress: seq<int>, failed: bool)
      requires Valid()
      modifies this`outputDocument, this`modifyOutputDocument, this`savedDocument, this`returnDocument, this`pdfSplit
      ensures action != Split ==>
                !failed && pdfSplit == old(pdfSplit) && modifyOutputDocument == old(modifyOutputDocument)
      ensures action != Split ==>
                outputDocument == old(outputDocument) + Assembled(Reg(), PositionsRun(cancel), showPageNumbers)
      ensures action != Split ==>
                progress == if onUiThread then ProgressReports(PositionsRun(cancel), order) else []
      ensures action != Save || |outputDocument| == 0 ==> savedDocument == old(savedDocument)
      ensures action != Return || |outputDocument| == 0 ==> returnDocument == old(returnDocument)
      ensures action == Save && |outputDocument| > 0 ==>
                savedDocument == if dialogAccepted then Some(outputDocument) else old(savedDocument)
      ensures action == Return && |outputDocument| > 0 ==> returnDocument == Some(outputDocument)
      ensures action == Split ==> progress == []
      ensures action == Split && 1 !in pdfs ==>
                failed && outputDocument == old(outputDocument) && pdfSplit == old(pdfSplit)
      ensures action == Split && 1 in pdfs ==> outputDocument == AsPages(pdfs[1])
      ensures action == Split && 1 !in pdfs ==> modifyOutputDocument == old(modifyOutputDocument)
      ensures action == Split && 1 in pdfs && |outputDocument| == 0 ==>
                !failed && pdfSplit == old(pdfSplit) && modifyOutputDocument == []
      ensures action == Split && 1 in pdfs && |outputDocument| > 0 ==>
                failed == !SplitSucceeds(|outputDocument|, splitStart, splitEnd) &&
                (modifyOutputDocument, pdfSplit) == AfterSplit(outputDocument, splitStart, splitEnd, old(pdfSplit))
    {
      progress, failed := RunDoWork(cancel);
      if !failed {
        failed := WorkCompleted(dialogAccepted);
      }
    }

    /** Builds the document and offers it to the save dialog. */
    method SavePdf(cancel: int -> bool, dialogAccepted: bool) returns (progress: seq<int>)
      requires Valid()
      modifies this`action, this`outputDocument, this`modifyOutputDocument, this`savedDocument,
               this`returnDocument, this`pdfSplit
      ensures action == Save
      ensures outputDocument == old(outputDocument) + Assembled(Reg(), PositionsRun(cancel), showPageNumbers)
      ensures progress == if onUiThread then ProgressReports(PositionsRun(cancel), order) else []
      ensures savedDocument == if |outputDocument| > 0 && dialogAccepted then Some(outputDocument) else old(savedDocument)
      ensures returnDocument == old(returnDocument) && pdfSplit == old(pdfSplit)
      ensures modifyOutputDocument == old(modifyOutputDocument)
    {
      action := Save;
      var failed;
      progress, failed := BeginBackGroundWorker(cancel, dialogAccepted);
    }

    /** Builds the document and hands it back; with no pages built, whatever was returned
        before (initially nothing) comes back. */
    method ReturnPdf(cancel: int -> bool) returns (document: Option<seq<Page>>, progress: seq<int>)
      requires Valid()
      modifies this`action, this`outputDocument, this`modifyOutputDocument, this`savedDocument,
               this`returnDocument, this`pdfSplit
      ensures action == Return
      ensures outputDocument == old(outputDocument) + Assembled(Reg(), PositionsRun(cancel), showPageNumbers)
      ensures progress == if onUiThread then ProgressReports(PositionsRun(cancel), order) else []
      ensures document == returnDocument
      ensures returnDocument == if |outputDocument| > 0 then Some(outputDocument) else old(returnDocument)
      ensures savedDocument == old(savedDocument) && pdfSplit == old(pdfSplit)
      ensures modifyOutputDocument == old(modifyOutputDocument)
    {
      action := Return;
      var failed;
      progress, failed := BeginBackGroundWorker(cancel, false);
      document := returnDocument;
    }

    /** Splits the document registered at position 1: pages pageStart..pageEnd go to a new
        document, the rest stay. `failed` is an exception: no document at position 1, or, for
        a document with pages, a range reaching outside it or leaving either half empty. */
    method SplitPdf(pageStart: int, pageEnd: int) returns (result: seq<SplitResult>, failed: bool)
      requires Valid()
      modifies this`action, this`splitStart, this`splitEnd, this`outputDocument, this`modifyOutputDocument,
               this`savedDocument, this`returnDocument, this`pdfSplit
      ensures action == Split && splitStart == pageStart && splitEnd == pageEnd
      ensures result == pdfSplit
      ensures failed <==> 1 !in pdfs || (|pdfs[1]| > 0 && !SplitSucceeds(|pdfs[1]|, pageStart, pageEnd))
      ensures !failed ==>
                result == if |pdfs[1]| == 0 then []
                          else [SplitResult(Remainder(AsPages(pdfs[1]), pageStart, pageEnd),
                                            Extracted(AsPages(pdfs[1]), pageStart, pageEnd))]
      ensures 1 !in pdfs ==>
                outputDocument == old(outputDocument) && modifyOutputDocument == old(modifyOutputDocument)
      ensures 1 in pdfs ==> outputDocument == AsPages(pdfs[1])
      ensures 1 in pdfs && |pdfs[1]| == 0 ==> modifyOutputDocument == []
      ensures 1 in pdfs && |pdfs[1]| > 0 ==>
                modifyOutputDocument == AfterSplit(AsPages(pdfs[1]), pageStart, pageEnd, []).0
      ensures savedDocument == old(savedDocument) && returnDocument == old(returnDocument)
    {
      pdfSplit := [];
      splitStart := pageStart;
      splitEnd := pageEnd;
      action := Split;
      var progress;
      progress, failed := BeginBackGroundWorker(j => false, false);
      result := pdfSplit;
    }
  }
}
