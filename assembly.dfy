/** What DoWork builds, stated as functions of the input registry: for positions 1..n in
    order, the image page at that position (if any) and then every page of the document at
    that position (if any), each imported page stamped with the job-wide angle; with page
    numbers on, the k-th page built carries the caption "Page k". */
module Assembly {
  import opened Options
  import opened PdfEnums
  import opened Pages
  import opened WorkerProgress

  /** The inputs of one job: the three dictionaries keyed by position and the angle. */
  datatype Registry = Registry(
    images: map<int, Bytes>,
    heights: map<int, int>,
    pdfs: map<int, seq<SourcePage>>,
    angle: Option<PdfAngle>)
  {
    /** Every image has its height entry, so `heightForImage[i]` never throws. */
    ghost predicate WellFormed()
    {
      images.Keys <= heights.Keys
    }
  }

  /** `heightForImage[i] > 0` selects the caller's height, anything else fits the page. */
  function DrawHeightFor(h: int): DrawHeight
  {
    if h > 0 then Requested(h) else FitPage
  }

  /** An input page as it is imported: its Rotate is overwritten when an angle is set. */
  function Rotated(p: SourcePage, angle: Option<PdfAngle>): SourcePage
  {
    if angle.Some? then p.(rotate := Degrees(angle.value)) else p
  }

  /** The pages of one input document, imported in their own order, before numbering. */
  function Imported(document: seq<SourcePage>, angle: Option<PdfAngle>): (pages: seq<Page>)
    ensures |pages| == |document|
  {
    seq(|document|, k requires 0 <= k < |document| => ImportedPage(Rotated(document[k], angle), None))
  }

  /** The pages of a document opened for splitting, where no angle applies. */
  function AsPages(document: seq<SourcePage>): seq<Page>
  {
    Imported(document, None)
  }

  function ImagePart(r: Registry, i: int): seq<Page>
    requires r.WellFormed()
  {
    if i in r.images then [ImagePage(r.images[i], DrawHeightFor(r.heights[i]), None)] else []
  }

  function DocumentPart(r: Registry, i: int): seq<Page>
  {
    if i in r.pdfs then Imported(r.pdfs[i], r.angle) else []
  }

  /** Position i contributes its image page first, then its document's pages. */
  function PositionPages(r: Registry, i: int): seq<Page>
    requires r.WellFormed()
  {
    ImagePart(r, i) + DocumentPart(r, i)
  }

  /** The pages of positions 1..n, in position order, before numbering. */
  function Layout(r: Registry, n: nat): seq<Page>
    requires r.WellFormed()
  {
    if n == 0 then [] else Layout(r, n - 1) + PositionPages(r, n)
  }

  /** The "Page k" overlay applied to a run of pages, counting from 1. */
  function Numbered(pages: seq<Page>, show: bool): (numbered: seq<Page>)
    ensures |numbered| == |pages|
  {
    seq(|pages|, k requires 0 <= k < |pages| => Captioned(pages[k], k + 1, show))
  }

  /** The pages DoWork appends to the output document after positions 1..n. */
  function Assembled(r: Registry, n: nat, show: bool): seq<Page>
    requires r.WellFormed()
  {
    Numbered(Layout(r, n), show)
  }

  /** One image page per image entry plus every page of every document entry. */
  function PageTotal(r: Registry, n: nat): nat
  {
    if n == 0 then 0
    else PageTotal(r, n - 1) + (if n in r.images then 1 else 0) + (if n in r.pdfs then |r.pdfs[n]| else 0)
  }

  // ---------------------------------------------------------------------------
  // Steps DoWork takes, one page at a time

  /** Appending one page, numbered after those already there, extends the numbered run. */
  lemma NumberedSnoc(done: seq<Page>, p: Page, show: bool)
    ensures Numbered(done + [p], show) == Numbered(done, show) + [Captioned(p, |done| + 1, show)]
  {
    var lhs, rhs := Numbered(done + [p], show), Numbered(done, show) + [Captioned(p, |done| + 1, show)];
    assert |lhs| == |rhs|;
    forall k | 0 <= k < |lhs| ensures lhs[k] == rhs[k] {
      if k < |done| {
        assert (done + [p])[k] == done[k];
      }
    }
  }

  /** Importing one more page of a document extends the imported run by that page. */
  lemma ImportedSnoc(document: seq<SourcePage>, k: nat, angle: Option<PdfAngle>)
    requires k < |document|
    ensures Imported(document[..k + 1], angle) ==
            Imported(document[..k], angle) + [ImportedPage(Rotated(document[k], angle), None)]
  {
  }

  // ---------------------------------------------------------------------------
  // Properties of the layout

  /** The output holds one page per image entry plus every page of every document entry. */
  lemma {:induction false} LayoutPageCount(r: Registry, n: nat)
    requires r.WellFormed()
    ensures |Layout(r, n)| == PageTotal(r, n)
  {
    if n > 0 {
      LayoutPageCount(r, n - 1);
    }
  }

  /** Later positions only add pages after the earlier ones. */
  lemma {:induction false} LayoutPrefix(r: Registry, m: nat, n: nat)
    requires r.WellFormed() && m <= n
    ensures Layout(r, m) <= Layout(r, n)
    decreases n - m
  {
    if m < n {
      LayoutPrefix(r, m, n - 1);
    }
  }

  /** The pages of position i occupy one contiguous block of the output, right after those
      of positions 1..i-1: the image page first, then the document's pages in order. */
  lemma LayoutPosition(r: Registry, i: nat, n: nat)
    requires r.WellFormed() && 1 <= i <= n
    ensures |Layout(r, i - 1)| + |PositionPages(r, i)| <= |Layout(r, n)|
    ensures Layout(r, n)[|Layout(r, i - 1)|..|Layout(r, i - 1)| + |PositionPages(r, i)|] == PositionPages(r, i)
  {
    LayoutPrefix(r, i, n);
    var before := Layout(r, i - 1);
    assert Layout(r, i) == before + PositionPages(r, i);
    assert Layout(r, i)[|before|..] == PositionPages(r, i);
  }

  /** No page has a caption before numbering. */
  lemma {:induction false} LayoutUncaptioned(r: Registry, n: nat)
    requires r.WellFormed()
    ensures forall k :: 0 <= k < |Layout(r, n)| ==> Layout(r, n)[k].caption.None?
  {
    if n > 0 {
      LayoutUncaptioned(r, n - 1);
      var before := Layout(r, n - 1);
      forall k | 0 <= k < |Layout(r, n)| ensures Layout(r, n)[k].caption.None? {
        if k >= |before| {
          var j := k - |before|;
          assert Layout(r, n)[k] == PositionPages(r, n)[j];
        }
      }
    }
  }

  /** With an angle set, every imported page carries the angle's degrees as its Rotate;
      image pages are fresh pages and are not rotated. */
  lemma {:induction false} LayoutRotationStamped(r: Registry, n: nat)
    requires r.WellFormed() && r.angle.Some?
    ensures forall k :: 0 <= k < |Layout(r, n)| && Layout(r, n)[k].ImportedPage? ==>
              Layout(r, n)[k].source.rotate == Degrees(r.angle.value)
  {
    if n > 0 {
      LayoutRotationStamped(r, n - 1);
      var before := Layout(r, n - 1);
      forall k | 0 <= k < |Layout(r, n)| && Layout(r, n)[k].ImportedPage?
        ensures Layout(r, n)[k].source.rotate == Degrees(r.angle.value)
      {
        if k >= |before| {
          assert Layout(r, n)[k] == PositionPages(r, n)[k - |before|];
        }
      }
    }
  }

  /** Without an angle, every imported page is an input page exactly as it was. */
  lemma {:induction false} LayoutRotationUntouched(r: Registry, n: nat)
    requires r.WellFormed() && r.angle.None?
    ensures forall k :: 0 <= k < |Layout(r, n)| && Layout(r, n)[k].ImportedPage? ==>
              exists i, j :: 1 <= i <= n && i in r.pdfs && 0 <= j < |r.pdfs[i]| &&
                             Layout(r, n)[k].source == r.pdfs[i][j]
  {
    if n > 0 {
      LayoutRotationUntouched(r, n - 1);
      var before, layout := Layout(r, n - 1), Layout(r, n);
      assert layout == before + PositionPages(r, n);
      forall k | 0 <= k < |layout| && layout[k].ImportedPage?
        ensures exists i, j :: 1 <= i <= n && i in r.pdfs && 0 <= j < |r.pdfs[i]| && layout[k].source == r.pdfs[i][j]
      {
        if k < |before| {
          assert layout[k] == before[k];
          var i, j :| 1 <= i <= n - 1 && i in r.pdfs && 0 <= j < |r.pdfs[i]| && before[k].source == r.pdfs[i][j];
          assert 1 <= i <= n && i in r.pdfs && 0 <= j < |r.pdfs[i]| && layout[k].source == r.pdfs[i][j];
        } else {
          var m := k - |before|;
          assert layout[k] == PositionPages(r, n)[m];
          var j := m - |ImagePart(r, n)|;
          assert 1 <= n <= n && n in r.pdfs && 0 <= j < |r.pdfs[n]| && layout[k].source == r.pdfs[n][j];
        }
      }
    }
  }

  /** The k-th page built is the k-th page of the layout with caption "Page k+1" when page
      numbers are on, and with no caption otherwise. */
  lemma AssembledCaptions(r: Registry, n: nat, show: bool)
    requires r.WellFormed()
    ensures |Assembled(r, n, show)| == |Layout(r, n)|
    ensures forall k :: 0 <= k < |Layout(r, n)| ==>
              Assembled(r, n, show)[k] ==
              Layout(r, n)[k].(caption := if show then Some(Label(k + 1)) else None)
  {
    LayoutUncaptioned(r, n);
  }

  /** With page numbers on, no two pages carry the same caption. */
  lemma CaptionsDistinct(r: Registry, n: nat, j: nat, k: nat)
    requires r.WellFormed() && j < k < |Layout(r, n)|
    ensures Assembled(r, n, true)[j].caption != Assembled(r, n, true)[k].caption
  {
    if Assembled(r, n, true)[j].caption == Assembled(r, n, true)[k].caption {
      LabelInjective(j + 1, k + 1);
    }
  }

  /** One image added with height 0, then a two-page document, numbering on and no angle:
      three pages captioned "Page 1".."Page 3", and reports 50 then 100. */
  lemma ImageThenDocumentExample(img: Bytes, p1: SourcePage, p2: SourcePage)
    ensures var r := Registry(map[1 := img], map[1 := 0], map[2 := [p1, p2]], None);
            Assembled(r, 2, true) ==
              [ImagePage(img, FitPage, Some("Page 1")),
               ImportedPage(p1, Some("Page 2")),
               ImportedPage(p2, Some("Page 3"))] &&
            ProgressReports(2, 2) == [50, 100]
  {
    var r := Registry(map[1 := img], map[1 := 0], map[2 := [p1, p2]], None);
    assert Layout(r, 1) == [ImagePage(img, FitPage, None)];
    assert Imported([p1, p2], None) == [ImportedPage(p1, None), ImportedPage(p2, None)];
    assert Layout(r, 2) == [ImagePage(img, FitPage, None), ImportedPage(p1, None), ImportedPage(p2, None)];
    assert DecimalDigits(1) == "1" && DecimalDigits(2) == "2" && DecimalDigits(3) == "3";
    assert Label(1) == "Page 1" && Label(2) == "Page 2" && Label(3) == "Page 3";
    var a := Assembled(r, 2, true);
    assert a[0] == ImagePage(img, FitPage, Some("Page 1"));
    assert a[1] == ImportedPage(p1, Some("Page 2"));
    assert a[2] == ImportedPage(p2, Some("Page 3"));
  }

  // ---------------------------------------------------------------------------
  // Cancellation

  /** The first position in i..order at which the worker sees a cancellation request
      (it checks once, at the top of each position), or order + 1 if none. */
  function StopPosition(cancel: int -> bool, i: nat, order: nat): (stop: nat)
    requires 1 <= i <= order + 1
    ensures i <= stop <= order + 1
    ensures forall j :: i <= j < stop ==> !cancel(j)
    ensures stop <= order ==> cancel(stop)
    decreases order + 1 - i
  {
    if i > order then order + 1
    else if cancel(i) then i
    else StopPosition(cancel, i + 1, order)
  }
}
