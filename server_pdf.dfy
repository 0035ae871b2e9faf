/**
 * The server's PDF assembly (`buildPdfFromScreenshots`): one A4 page per
 * screenshot, the image scaled down (never up) to fit inside a half-inch
 * margin, aspect ratio kept, centred on the page. Arithmetic is over `real`.
 */
module ServerPdf {

  /** A4 in PDF points, and the margin kept free on each side. */
  const A4_WIDTH: real := 595.28
  const A4_HEIGHT: real := 841.89
  const MARGIN: real := 36.0
  const MAX_WIDTH: real := A4_WIDTH - MARGIN * 2.0
  const MAX_HEIGHT: real := A4_HEIGHT - MARGIN * 2.0

  /** A PNG's dimensions are whole pixels, at least one. */
  type Pixels = n: int | n >= 1 witness 1

  /** A captured PNG, as `image.scale(1)` reports its size. */
  datatype Screenshot = Screenshot(width: Pixels, height: Pixels)

  /** Where and how large the image is drawn (`page.drawImage` options). */
  datatype Placement = Placement(x: real, y: real, width: real, height: real)

  datatype PdfPage = PdfPage(width: real, height: real, image: Placement)

  function Min(a: real, b: real): (m: real)
    ensures m <= a && m <= b && (m == a || m == b)
  {
    if a <= b then a else b
  }

  /** `x <= bound / d` and `x * d <= bound` say the same for a positive `d`. */
  lemma ScaleBound(x: real, d: real, bound: real)
    requires d > 0.0
    ensures x <= bound / d <==> x * d <= bound
    ensures x == bound / d <==> x * d == bound
  {
    assert (bound / d) * d == bound;
    if x <= bound / d {
      assert x * d <= (bound / d) * d;
    }
    if x * d <= bound {
      assert x == (x * d) / d;
    }
  }

  /** `Math.min(maxWidth / width, maxHeight / height, 1)`. */
  function FitScale(shot: Screenshot): (s: real)
    ensures 0.0 < s <= 1.0
    ensures s * (shot.width as real) <= MAX_WIDTH && s * (shot.height as real) <= MAX_HEIGHT
  {
    var w := shot.width as real;
    var h := shot.height as real;
    var s := Min(Min(MAX_WIDTH / w, MAX_HEIGHT / h), 1.0);
    ScaleBound(s, w, MAX_WIDTH);
    ScaleBound(s, h, MAX_HEIGHT);
    s
  }

  /** No larger scale of at most 1 would fit: the image is shrunk only as far as it must be. */
  lemma FitScaleIsLargest(shot: Screenshot, t: real)
    requires 0.0 < t <= 1.0
    requires t * (shot.width as real) <= MAX_WIDTH && t * (shot.height as real) <= MAX_HEIGHT
    ensures t <= FitScale(shot)
  {
    ScaleBound(t, shot.width as real, MAX_WIDTH);
    ScaleBound(t, shot.height as real, MAX_HEIGHT);
  }

  /** A screenshot that already fits is drawn at its natural size. */
  lemma FittingScreenshotIsNotScaled(shot: Screenshot)
    requires (shot.width as real) <= MAX_WIDTH && (shot.height as real) <= MAX_HEIGHT
    ensures FitScale(shot) == 1.0
  {
    FitScaleIsLargest(shot, 1.0);
  }

  /** Scaling a positive length by a factor in (0, 1] gives a positive length no longer than it. */
  lemma ScaledDown(d: real, s: real)
    requires d > 0.0 && 0.0 < s <= 1.0
    ensures 0.0 < d * s <= d
  {
    assert d * s <= d * 1.0;
  }

  /** Scaling both sides by the same factor keeps their ratio. */
  lemma SameRatio(w: real, h: real, s: real)
    ensures (w * s) * h == (h * s) * w
  {
    calc {
      (w * s) * h;
      w * (s * h);
      w * (h * s);
      (h * s) * w;
    }
  }

  /** The scaled image, centred on an A4 page. */
  function PlaceOnA4(shot: Screenshot): (p: Placement)
    ensures p.width * (shot.height as real) == p.height * (shot.width as real)
    ensures 0.0 < p.width <= shot.width as real && 0.0 < p.height <= shot.height as real
    ensures p.width <= MAX_WIDTH && p.height <= MAX_HEIGHT
    ensures MARGIN <= p.x && p.x + p.width + p.x == A4_WIDTH
    ensures MARGIN <= p.y && p.y + p.height + p.y == A4_HEIGHT
  {
    var scale := FitScale(shot);
    var scaledWidth := (shot.width as real) * scale;
    var scaledHeight := (shot.height as real) * scale;
    ScaledDown(shot.width as real, scale);
    ScaledDown(shot.height as real, scale);
    SameRatio(shot.width as real, shot.height as real, scale);
    Placement((A4_WIDTH - scaledWidth) / 2.0, (A4_HEIGHT - scaledHeight) / 2.0, scaledWidth, scaledHeight)
  }

  /** `buildPdfFromScreenshots`: one `addPage` and one `drawImage` per screenshot, in order. */
  method BuildPdfFromScreenshots(screenshots: seq<Screenshot>) returns (pages: seq<PdfPage>)
    ensures |pages| == |screenshots|
    ensures forall k :: 0 <= k < |pages| ==> pages[k] == PdfPage(A4_WIDTH, A4_HEIGHT, PlaceOnA4(screenshots[k]))
  {
    pages := [];
    for i := 0 to |screenshots|
      invariant |pages| == i
      invariant forall k :: 0 <= k < i ==> pages[k] == PdfPage(A4_WIDTH, A4_HEIGHT, PlaceOnA4(screenshots[k]))
    {
      var screenshot := screenshots[i];
      var scale := FitScale(screenshot);
      var scaledWidth := (screenshot.width as real) * scale;
      var scaledHeight := (screenshot.height as real) * scale;
      var x := (A4_WIDTH - scaledWidth) / 2.0;
      var y := (A4_HEIGHT - scaledHeight) / 2.0;
      var page := PdfPage(A4_WIDTH, A4_HEIGHT, Placement(x, y, scaledWidth, scaledHeight));
      assert page.image == PlaceOnA4(screenshot);
      pages := pages + [page];
    }
  }
}
