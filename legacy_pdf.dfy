/**
 * The legacy client's PDF assembly (`renderPageIntoPDF` and `exportToPDF`): each captured page
 * is drawn at the full page width and, when taller than a page, sliced across as many pages as
 * it needs; a flag shared across the whole export decides whether the first slice opens a new page.
 */
module LegacyPdf {
  import opened LegacyPageList

  /** jsPDF's A4 page in millimetres: 595.28 x 841.89 points at 72/25.4 points per millimetre. */
  const PAGE_WIDTH: real := 595.28 * 25.4 / 72.0
  const PAGE_HEIGHT: real := 841.89 * 25.4 / 72.0

  const REPORT_FILENAME: string := "hurwitz-law-group-report.pdf"
  const MISSING_LIBRARIES: string := "Missing PDF libraries. Please ensure html2canvas and jsPDF are loaded."
  const NO_PAGES: string := "No pages found to export."

  type Pixels = n: int | n >= 1 witness 1

  /** What capturing one page yields: the rasterised image's size, or a failure caught by the `catch`. */
  datatype Capture = Captured(width: Pixels, height: Pixels) | CaptureFailed

  /** One `addImage(imgData, 'PNG', x, y, width, height)` call. */
  datatype ImageDraw = ImageDraw(x: real, y: real, width: real, height: real)

  /** `(imgProps.height * imgWidth) / imgProps.width` with `imgWidth` the page width. */
  function ImageHeight(width: Pixels, height: Pixels): (r: real)
    ensures r > 0.0
    ensures r * width as real == height as real * PAGE_WIDTH
  {
    (height as real * PAGE_WIDTH) / width as real
  }

  function Ceil(x: real): (c: int)
    ensures c as real >= x && (c - 1) as real < x
  {
    -((-x).Floor)
  }

  /** How many `addImage` calls an image of height `h` takes: one, and one more for each page height still left. */
  function SliceCount(h: real): (k: nat)
    requires h > 0.0
  {
    if h <= PAGE_HEIGHT then 1 else Ceil(h / PAGE_HEIGHT)
  }

  lemma SliceCountCovers(h: real)
    requires h > 0.0
    ensures SliceCount(h) >= 1 && SliceCount(h) as real * PAGE_HEIGHT >= h
    ensures SliceCount(h) == 1 || (SliceCount(h) - 1) as real * PAGE_HEIGHT < h
  {
    if h > PAGE_HEIGHT {
      var q := h / PAGE_HEIGHT;
      assert q * PAGE_HEIGHT == h;
      var c := Ceil(q);
      assert c as real >= q;
      assert c as real * PAGE_HEIGHT >= q * PAGE_HEIGHT;
      assert (c - 1) as real * PAGE_HEIGHT < q * PAGE_HEIGHT;
    }
  }

  /** The loop runs on while the height left is positive: after `k` slices exactly when `k` is below the count. */
  lemma HeightLeftIsPositive(h: real, k: nat)
    requires h > 0.0 && k >= 1
    ensures h - k as real * PAGE_HEIGHT > 0.0 <==> k < SliceCount(h)
  {
    SliceCountCovers(h);
    var c := SliceCount(h);
    if k < c {
      assert k as real * PAGE_HEIGHT <= (c - 1) as real * PAGE_HEIGHT;
    } else {
      assert k as real * PAGE_HEIGHT >= c as real * PAGE_HEIGHT;
    }
  }

  /** The slice count is the least `k >= 1` with `k` page heights covering the image. */
  lemma SliceCountIsLeast(h: real, k: nat)
    requires h > 0.0 && k >= 1 && k as real * PAGE_HEIGHT >= h
    ensures SliceCount(h) <= k
  {
    HeightLeftIsPositive(h, k);
  }

  /** An image 2.4 pages tall takes three slices. */
  lemma TwoPointFourPagesTakeThreeSlices()
    ensures SliceCount(2.4 * PAGE_HEIGHT) == 3
  {
    var h := 2.4 * PAGE_HEIGHT;
    HeightLeftIsPositive(h, 2);
    HeightLeftIsPositive(h, 3);
  }

  /** Slice `i`: the whole image drawn `i` page heights higher, so that its `i`-th page-height band shows. */
  function Slice(h: real, i: nat): ImageDraw {
    ImageDraw(0.0, -(i as real) * PAGE_HEIGHT, PAGE_WIDTH, h)
  }

  /** The pages after `k` slices: the first on the current last page of `start`, each later one on a page of its own. */
  function Composed(start: seq<seq<ImageDraw>>, h: real, k: nat): (r: seq<seq<ImageDraw>>)
    requires |start| >= 1 && k >= 1
  {
    if k == 1 then start[..|start| - 1] + [start[|start| - 1] + [Slice(h, 0)]]
    else Composed(start, h, k - 1) + [[Slice(h, k - 1)]]
  }

  /** What composing leaves: the earlier pages untouched, slice 0 on the last of them, slice `i` alone on each new page. */
  lemma {:induction false} ComposedLayout(start: seq<seq<ImageDraw>>, h: real, k: nat)
    requires |start| >= 1 && k >= 1
    ensures |Composed(start, h, k)| == |start| + k - 1
    ensures Composed(start, h, k)[..|start| - 1] == start[..|start| - 1]
    ensures Composed(start, h, k)[|start| - 1] == start[|start| - 1] + [Slice(h, 0)]
    ensures forall i :: 1 <= i < k ==> Composed(start, h, k)[|start| - 1 + i] == [Slice(h, i)]
  {
    if k > 1 {
      ComposedLayout(start, h, k - 1);
      var prev := Composed(start, h, k - 1);
      assert Composed(start, h, k) == prev + [[Slice(h, k - 1)]];
      assert forall i :: 0 <= i < |prev| ==> Composed(start, h, k)[i] == prev[i];
    }
  }

  /** The document pages and the shared `isFirstPage.value`. */
  datatype DocState = DocState(pages: seq<seq<ImageDraw>>, isFirstPage: bool)

  /** A fresh `new jsPDF('p', 'mm', 'a4')` (one blank page) and `{ value: true }`. */
  function Fresh(): DocState {
    DocState([[]], true)
  }

  /** `renderPageIntoPDF` on the document state: nothing on a failed capture, else `addPage` unless first, then the slices. */
  function Render(st: DocState, capture: Capture): (r: DocState)
    requires |st.pages| >= 1
    ensures |r.pages| >= 1
  {
    match capture
    case CaptureFailed => st
    case Captured(w, ht) =>
      var start := if st.isFirstPage then st.pages else st.pages + [[]];
      DocState(Composed(start, ImageHeight(w, ht), SliceCount(ImageHeight(w, ht))), false)
  }

  /** The `for` loop of `exportToPDF` over the captures of its pages. */
  function Run(st: DocState, captures: seq<Capture>): (r: DocState)
    requires |st.pages| >= 1
    ensures |r.pages| >= 1
  {
    if |captures| == 0 then st else Render(Run(st, captures[..|captures| - 1]), captures[|captures| - 1])
  }

  /** The captures of the listed pages, in order. */
  function Captures(capture: string -> Capture, pageList: seq<string>): (r: seq<Capture>)
    ensures |r| == |pageList|
    ensures forall k :: 0 <= k < |r| ==> r[k] == capture(pageList[k])
  {
    if |pageList| == 0 then [] else Captures(capture, pageList[..|pageList| - 1]) + [capture(pageList[|pageList| - 1])]
  }

  /** One more capture is one more render after the run over the captures before it. */
  lemma RunStep(st: DocState, captures: seq<Capture>, i: nat)
    requires |st.pages| >= 1 && i < |captures|
    ensures Run(st, captures[..i + 1]) == Render(Run(st, captures[..i]), captures[i])
  {
    assert captures[..i + 1][..i] == captures[..i];
  }

  /** How `exportToPDF` ends: an alert, or the saved document. */
  datatype ExportOutcome = Alerted(message: string) | Saved(filename: string, pages: seq<seq<ImageDraw>>)

  function ExportResult(librariesLoaded: bool, hrefs: seq<string>, pathname: string, capture: string -> Capture): ExportOutcome {
    var pageList := PageList(hrefs, pathname);
    if !librariesLoaded then Alerted(MISSING_LIBRARIES)
    else if |pageList| == 0 then Alerted(NO_PAGES)
    else Saved(REPORT_FILENAME, Run(Fresh(), Captures(capture, pageList)).pages)
  }

  /** The slices a capture takes: none when it failed. */
  function SlicesOf(capture: Capture): nat {
    match capture
    case CaptureFailed => 0
    case Captured(w, ht) => SliceCount(ImageHeight(w, ht))
  }

  /** The slices of all captures together. */
  function TotalSlices(captures: seq<Capture>): nat {
    if |captures| == 0 then 0 else TotalSlices(captures[..|captures| - 1]) + SlicesOf(captures[|captures| - 1])
  }

  /** The captures that succeeded, in order. */
  function Succeeded(captures: seq<Capture>): (r: seq<Capture>)
    ensures forall k :: 0 <= k < |r| ==> r[k].Captured?
  {
    if |captures| == 0 then []
    else Succeeded(captures[..|captures| - 1]) + (if captures[|captures| - 1].Captured? then [captures[|captures| - 1]] else [])
  }

  /** One render adds a page per slice, except for a first slice placed on the document's first page. */
  lemma RenderPageCount(st: DocState, capture: Capture)
    requires |st.pages| >= 1
    ensures capture.CaptureFailed? ==> Render(st, capture) == st
    ensures capture.Captured? ==> !Render(st, capture).isFirstPage
    ensures capture.Captured? ==>
              |Render(st, capture).pages| == |st.pages| + SlicesOf(capture) - (if st.isFirstPage then 1 else 0)
  {
    if capture.Captured? {
      var h := ImageHeight(capture.width, capture.height);
      SliceCountCovers(h);
      var start := if st.isFirstPage then st.pages else st.pages + [[]];
      ComposedLayout(start, h, SliceCount(h));
    }
  }

  /** `isFirstPage.value` is still true after the loop exactly when it was at the start and no capture succeeded. */
  lemma {:induction false} FlagStaysTrueUntilSuccess(st: DocState, captures: seq<Capture>)
    requires |st.pages| >= 1
    ensures Run(st, captures).isFirstPage <==> st.isFirstPage && forall k :: 0 <= k < |captures| ==> captures[k].CaptureFailed?
  {
    if |captures| > 0 {
      var init := captures[..|captures| - 1];
      FlagStaysTrueUntilSuccess(st, init);
      RenderPageCount(Run(st, init), captures[|captures| - 1]);
      assert forall k :: 0 <= k < |init| ==> init[k] == captures[k];
    }
  }

  /** A failed capture leaves no trace: the run equals the run over the successful captures only. */
  lemma {:induction false} RunSkipsFailures(st: DocState, captures: seq<Capture>)
    requires |st.pages| >= 1
    ensures Run(st, captures) == Run(st, Succeeded(captures))
  {
    if |captures| > 0 {
      var init := captures[..|captures| - 1];
      var last := captures[|captures| - 1];
      RunSkipsFailures(st, init);
      if last.Captured? {
        var kept := Succeeded(init) + [last];
        assert Succeeded(captures) == kept;
        assert kept[..|kept| - 1] == Succeeded(init) && kept[|kept| - 1] == last;
      } else {
        assert Succeeded(captures) == Succeeded(init) + [];
        assert Succeeded(init) + [] == Succeeded(init);
      }
    }
  }

  /** From a fresh document: one page per slice of every successful capture, and the blank first page when there is none. */
  lemma {:induction false} FreshRunPageCount(captures: seq<Capture>)
    ensures |Run(Fresh(), captures).pages| == if TotalSlices(captures) == 0 then 1 else TotalSlices(captures)
    ensures Run(Fresh(), captures).isFirstPage <==> TotalSlices(captures) == 0
  {
    if |captures| > 0 {
      var init := captures[..|captures| - 1];
      var last := captures[|captures| - 1];
      FreshRunPageCount(init);
      RenderPageCount(Run(Fresh(), init), last);
      if last.Captured? {
        SliceCountCovers(ImageHeight(last.width, last.height));
      }
    }
  }

  /** Two captures that fit on a page, with a failure between them, give two pages, one image on each. */
  lemma FitFailFitGivesTwoPages(a: Capture, b: Capture)
    requires a.Captured? && b.Captured?
    requires ImageHeight(a.width, a.height) <= PAGE_HEIGHT && ImageHeight(b.width, b.height) <= PAGE_HEIGHT
    ensures Run(Fresh(), [a, CaptureFailed, b]).pages == [[Slice(ImageHeight(a.width, a.height), 0)], [Slice(ImageHeight(b.width, b.height), 0)]]
  {
    var captures := [a, CaptureFailed, b];
    assert captures[..2] == [a, CaptureFailed];
    assert captures[..2][..1] == [a];
    assert [a][..0] == [];
    var ha := ImageHeight(a.width, a.height);
    var hb := ImageHeight(b.width, b.height);
    assert SliceCount(ha) == 1 && SliceCount(hb) == 1;
    assert Run(Fresh(), [a]) == Render(Fresh(), a);
    var one: seq<seq<ImageDraw>> := [[]];
    assert one[..0] == [] && one[0] == [];
    assert one[0] + [Slice(ha, 0)] == [Slice(ha, 0)];
    var afterA := DocState([[Slice(ha, 0)]], false);
    assert Render(Fresh(), a) == afterA;
    assert Run(Fresh(), [a, CaptureFailed]) == afterA;
    var two := afterA.pages + [[]];
    assert two[..1] == [[Slice(ha, 0)]] && two[1] == [];
    assert two[1] + [Slice(hb, 0)] == [Slice(hb, 0)];
    assert Render(afterA, b).pages == [[Slice(ha, 0)], [Slice(hb, 0)]];
  }

  /**
   * With the libraries loaded the export always saves: the current page is always listed, so the
   * "no pages" alert cannot fire, and the document has a page per slice (one blank page at least).
   */
  lemma ExportAlwaysSavesWithLibraries(hrefs: seq<string>, pathname: string, capture: string -> Capture)
    ensures var outcome := ExportResult(true, hrefs, pathname, capture);
      && outcome.Saved? && outcome.filename == REPORT_FILENAME
      && var total := TotalSlices(Captures(capture, PageList(hrefs, pathname)));
      |outcome.pages| == if total == 0 then 1 else total
  {
    CurrentPageListedOnce(hrefs, pathname);
    FreshRunPageCount(Captures(capture, PageList(hrefs, pathname)));
  }

  /** The jsPDF document: its pages, each the images drawn on it, the last one current. */
  class PdfDocument {
    var pages: seq<seq<ImageDraw>>

    constructor()
      ensures pages == [[]]
    {
      pages := [[]];
    }

    /** `pdf.addPage()`: a new blank page becomes current. */
    method AddPage()
      modifies this
      ensures pages == old(pages) + [[]]
    {
      pages := pages + [[]];
    }

    /** `pdf.addImage(...)`: drawn on the current page. */
    method AddImage(d: ImageDraw)
      requires |pages| >= 1
      modifies this
      ensures pages == old(pages)[..|old(pages)| - 1] + [old(pages)[|old(pages)| - 1] + [d]]
    {
      pages := pages[..|pages| - 1] + [pages[|pages| - 1] + [d]];
    }
  }

  /** The `{ value: true }` object every call of `renderPageIntoPDF` shares. */
  class FirstPageFlag {
    var value: bool

    constructor(v: bool)
      ensures value == v
    {
      value := v;
    }
  }

  /** `renderPageIntoPDF` from the rasterised capture on: the `heightLeft`/`position` loop. */
  method RenderPageIntoPdf(pdf: PdfDocument, isFirstPage: FirstPageFlag, capture: Capture)
    requires |pdf.pages| >= 1
    modifies pdf, isFirstPage
    ensures DocState(pdf.pages, isFirstPage.value) == Render(DocState(old(pdf.pages), old(isFirstPage.value)), capture)
  {
    if capture.CaptureFailed? {
      return;
    }
    var imgWidth := PAGE_WIDTH;
    var imgHeight := ImageHeight(capture.width, capture.height);
    var heightLeft := imgHeight;
    var position := 0.0;
    if !isFirstPage.value {
      pdf.AddPage();
    }
    ghost var start := pdf.pages;
    isFirstPage.value := false;
    pdf.AddImage(ImageDraw(0.0, position, imgWidth, imgHeight));
    heightLeft := heightLeft - PAGE_HEIGHT;
    ghost var k: nat := 1;
    HeightLeftIsPositive(imgHeight, 1);
    while heightLeft > 0.0
      invariant 1 <= k <= SliceCount(imgHeight)
      invariant heightLeft == imgHeight - k as real * PAGE_HEIGHT
      invariant position == -((k - 1) as real) * PAGE_HEIGHT
      invariant pdf.pages == Composed(start, imgHeight, k)
      invariant heightLeft > 0.0 <==> k < SliceCount(imgHeight)
      invariant !isFirstPage.value
      decreases SliceCount(imgHeight) - k
    {
      ghost var before := pdf.pages;
      position := position - PAGE_HEIGHT;
      pdf.AddPage();
      pdf.AddImage(ImageDraw(0.0, position, imgWidth, imgHeight));
      assert (before + [[]])[..|before|] == before;
      assert ImageDraw(0.0, position, imgWidth, imgHeight) == Slice(imgHeight, k);
      assert pdf.pages == before + [[] + [Slice(imgHeight, k)]];
      assert [] + [Slice(imgHeight, k)] == [Slice(imgHeight, k)];
      heightLeft := heightLeft - PAGE_HEIGHT;
      k := k + 1;
      HeightLeftIsPositive(imgHeight, k);
    }
  }

  /** `exportToPDF`: the library check, the page list, one render per page into a fresh document, then the save. */
  method ExportToPdf(librariesLoaded: bool, hrefs: seq<string>, pathname: string, capture: string -> Capture)
    returns (outcome: ExportOutcome)
    ensures outcome == ExportResult(librariesLoaded, hrefs, pathname, capture)
  {
    if !librariesLoaded {
      return Alerted(MISSING_LIBRARIES);
    }
    var pageList := GetPageList(hrefs, pathname);
    if |pageList| == 0 {
      return Alerted(NO_PAGES);
    }
    var pdf := new PdfDocument();
    var isFirstPage := new FirstPageFlag(true);
    ghost var captures := Captures(capture, pageList);
    for i := 0 to |pageList|
      invariant |pdf.pages| >= 1
      invariant DocState(pdf.pages, isFirstPage.value) == Run(Fresh(), captures[..i])
    {
      RunStep(Fresh(), captures, i);
      RenderPageIntoPdf(pdf, isFirstPage, capture(pageList[i]));
    }
    assert captures[..|pageList|] == captures;
    outcome := Saved(REPORT_FILENAME, pdf.pages);
  }
}
