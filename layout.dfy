/**
  The page layout calculator of the converter: given an image's pixel size,
  the page size in points, the margin and a fit mode, it computes the
  rectangle at which the image is drawn (origin top-left, y downwards).

  Numbers are modelled as exact reals, so every geometric fact below holds
  exactly rather than up to floating-point error.
*/
module Layout {

  /** The margin the converter leaves on each side of every page, in points. */
  const PageMargin: real := 20.0

  /** How an image is fitted into the box inside the margins. */
  datatype FitMode = Contain | Cover

  /** The fit selector's value: "contain" selects Contain, any other value Cover. */
  function FitModeOf(imageFit: string): FitMode
  {
    if imageFit == "contain" then Contain else Cover
  }

  /** A placed image: top-left corner (x, y) and rendered size. */
  datatype Rect = Rect(x: real, y: real, width: real, height: real)

  /** The inputs on which the calculator is defined: a non-empty image and a page larger than both margins. */
  predicate ValidGeometry(imgWidth: real, imgHeight: real, pageWidth: real, pageHeight: real, margin: real)
  {
    imgWidth > 0.0 && imgHeight > 0.0 && pageWidth > 2.0 * margin && pageHeight > 2.0 * margin
  }

  /**
    Contain mode: scale the image to the box's width (byWidth) or to its
    height, then centre it in the box.
  */
  function ContainRect(imgWidth: real, imgHeight: real, availableWidth: real, availableHeight: real,
                       margin: real, byWidth: bool): Rect
    requires imgWidth > 0.0 && imgHeight > 0.0
  {
    var ratio := imgWidth / imgHeight;
    var w := if byWidth then availableWidth else availableHeight * ratio;
    var h := if byWidth then availableWidth / ratio else availableHeight;
    Rect(margin + (availableWidth - w) / 2.0, margin + (availableHeight - h) / 2.0, w, h)
  }

  /**
    Cover mode: scale the image to the box's width (byWidth, letting the
    height overflow) or to its height (letting the width overflow), with the
    overflow split evenly on both sides.
  */
  function CoverRect(imgWidth: real, imgHeight: real, availableWidth: real, availableHeight: real,
                     margin: real, byWidth: bool): Rect
    requires imgWidth > 0.0 && imgHeight > 0.0
  {
    var ratio := imgWidth / imgHeight;
    if byWidth then
      var h := availableWidth / ratio;
      Rect(margin, margin - (h - availableHeight) / 2.0, availableWidth, h)
    else
      var w := availableHeight * ratio;
      Rect(margin - (w - availableWidth) / 2.0, margin, w, availableHeight)
  }

  /** The rectangle at which one image is drawn on a page. */
  function Placement(imgWidth: real, imgHeight: real, pageWidth: real, pageHeight: real,
                     margin: real, mode: FitMode): Rect
    requires ValidGeometry(imgWidth, imgHeight, pageWidth, pageHeight, margin)
  {
    var availableWidth := pageWidth - 2.0 * margin;
    var availableHeight := pageHeight - 2.0 * margin;
    match mode
    case Contain =>
      ContainRect(imgWidth, imgHeight, availableWidth, availableHeight, margin,
                  imgWidth / availableWidth > imgHeight / availableHeight)
    case Cover =>
      CoverRect(imgWidth, imgHeight, availableWidth, availableHeight, margin,
                imgWidth / availableWidth < imgHeight / availableHeight)
  }

  /** Reference geometry: the image scaled by factor s and centred in the box. */
  function ScaledCentred(imgWidth: real, imgHeight: real, availableWidth: real, availableHeight: real,
                         margin: real, s: real): Rect
  {
    Rect(margin + (availableWidth - s * imgWidth) / 2.0, margin + (availableHeight - s * imgHeight) / 2.0,
         s * imgWidth, s * imgHeight)
  }

  function Min(a: real, b: real): real { if a <= b then a else b }

  function Max(a: real, b: real): real { if a <= b then b else a }

  // ---------------------------------------------------------------------------
  // What the calculator promises.

  /** Contain mode draws the image at the largest scale that fits both sides of the box, centred. */
  lemma ContainIsMinScale(imgWidth: real, imgHeight: real, pageWidth: real, pageHeight: real, margin: real)
    requires ValidGeometry(imgWidth, imgHeight, pageWidth, pageHeight, margin)
    ensures var aw, ah := pageWidth - 2.0 * margin, pageHeight - 2.0 * margin;
            Placement(imgWidth, imgHeight, pageWidth, pageHeight, margin, Contain)
              == ScaledCentred(imgWidth, imgHeight, aw, ah, margin, Min(aw / imgWidth, ah / imgHeight))
  {
  }

  /** Cover mode draws the image at the smallest scale that covers both sides of the box, centred. */
  lemma CoverIsMaxScale(imgWidth: real, imgHeight: real, pageWidth: real, pageHeight: real, margin: real)
    requires ValidGeometry(imgWidth, imgHeight, pageWidth, pageHeight, margin)
    ensures var aw, ah := pageWidth - 2.0 * margin, pageHeight - 2.0 * margin;
            Placement(imgWidth, imgHeight, pageWidth, pageHeight, margin, Cover)
              == ScaledCentred(imgWidth, imgHeight, aw, ah, margin, Max(aw / imgWidth, ah / imgHeight))
  {
  }

  /** The placed image keeps the image's aspect ratio, in both modes. */
  lemma PlacementKeepsAspectRatio(imgWidth: real, imgHeight: real, pageWidth: real, pageHeight: real,
                                  margin: real, mode: FitMode)
    requires ValidGeometry(imgWidth, imgHeight, pageWidth, pageHeight, margin)
    ensures var r := Placement(imgWidth, imgHeight, pageWidth, pageHeight, margin, mode);
            r.width > 0.0 && r.height > 0.0 && r.width / r.height == imgWidth / imgHeight
  {
  }

  /**
    Contain mode never draws outside the box inside the margins, and the
    image touches the box on at least one axis.
  */
  lemma ContainFitsBox(imgWidth: real, imgHeight: real, pageWidth: real, pageHeight: real, margin: real)
    requires ValidGeometry(imgWidth, imgHeight, pageWidth, pageHeight, margin)
    ensures var aw, ah := pageWidth - 2.0 * margin, pageHeight - 2.0 * margin;
            var r := Placement(imgWidth, imgHeight, pageWidth, pageHeight, margin, Contain);
            && r.width <= aw && r.height <= ah
            && (r.width == aw || r.height == ah)
            && margin <= r.x && r.x + r.width <= pageWidth - margin
            && margin <= r.y && r.y + r.height <= pageHeight - margin
  {
  }

  /**
    Cover mode always covers the box inside the margins, and matches the box
    exactly on at least one axis.
  */
  lemma CoverFillsBox(imgWidth: real, imgHeight: real, pageWidth: real, pageHeight: real, margin: real)
    requires ValidGeometry(imgWidth, imgHeight, pageWidth, pageHeight, margin)
    ensures var aw, ah := pageWidth - 2.0 * margin, pageHeight - 2.0 * margin;
            var r := Placement(imgWidth, imgHeight, pageWidth, pageHeight, margin, Cover);
            && r.width >= aw && r.height >= ah
            && (r.width == aw || r.height == ah)
  {
  }

  /** In both modes the centre of the placed image is the centre of the box inside the margins. */
  lemma PlacementIsCentred(imgWidth: real, imgHeight: real, pageWidth: real, pageHeight: real,
                           margin: real, mode: FitMode)
    requires ValidGeometry(imgWidth, imgHeight, pageWidth, pageHeight, margin)
    ensures var r := Placement(imgWidth, imgHeight, pageWidth, pageHeight, margin, mode);
            && r.x + r.width / 2.0 == margin + (pageWidth - 2.0 * margin) / 2.0
            && r.y + r.height / 2.0 == margin + (pageHeight - 2.0 * margin) / 2.0
  {
  }

  /**
    In cover mode one edge of the image lies on the margin and the image
    overflows the box evenly on the other axis (so x or y may be negative).
  */
  lemma CoverEdgeOnMargin(imgWidth: real, imgHeight: real, pageWidth: real, pageHeight: real, margin: real)
    requires ValidGeometry(imgWidth, imgHeight, pageWidth, pageHeight, margin)
    ensures var r := Placement(imgWidth, imgHeight, pageWidth, pageHeight, margin, Cover);
            || (r.x == margin && r.y <= margin && r.y + r.height / 2.0 == margin + (pageHeight - 2.0 * margin) / 2.0)
            || (r.y == margin && r.x <= margin && r.x + r.width / 2.0 == margin + (pageWidth - 2.0 * margin) / 2.0)
  {
    CoverFillsBox(imgWidth, imgHeight, pageWidth, pageHeight, margin);
    PlacementIsCentred(imgWidth, imgHeight, pageWidth, pageHeight, margin, Cover);
  }

  /** No larger scale than the one contain mode picks keeps the image inside the box. */
  lemma ContainIsLargestFit(imgWidth: real, imgHeight: real, pageWidth: real, pageHeight: real,
                            margin: real, s: real)
    requires ValidGeometry(imgWidth, imgHeight, pageWidth, pageHeight, margin)
    requires s * imgWidth <= pageWidth - 2.0 * margin && s * imgHeight <= pageHeight - 2.0 * margin
    ensures var r := Placement(imgWidth, imgHeight, pageWidth, pageHeight, margin, Contain);
            s * imgWidth <= r.width && s * imgHeight <= r.height
  {
  }

  /** No smaller scale than the one cover mode picks still covers the box. */
  lemma CoverIsSmallestFill(imgWidth: real, imgHeight: real, pageWidth: real, pageHeight: real,
                            margin: real, s: real)
    requires ValidGeometry(imgWidth, imgHeight, pageWidth, pageHeight, margin)
    requires s * imgWidth >= pageWidth - 2.0 * margin && s * imgHeight >= pageHeight - 2.0 * margin
    ensures var r := Placement(imgWidth, imgHeight, pageWidth, pageHeight, margin, Cover);
            s * imgWidth >= r.width && s * imgHeight >= r.height
  {
  }

  /**
    When the image has exactly the box's proportions, all four branches of
    the calculator give the box itself, so the strict comparisons that choose
    a branch do not matter and contain and cover coincide.
  */
  lemma TieBreakImmaterial(imgWidth: real, imgHeight: real, pageWidth: real, pageHeight: real, margin: real)
    requires ValidGeometry(imgWidth, imgHeight, pageWidth, pageHeight, margin)
    requires imgWidth / (pageWidth - 2.0 * margin) == imgHeight / (pageHeight - 2.0 * margin)
    ensures var aw, ah := pageWidth - 2.0 * margin, pageHeight - 2.0 * margin;
            var box := Rect(margin, margin, aw, ah);
            && ContainRect(imgWidth, imgHeight, aw, ah, margin, true) == box
            && ContainRect(imgWidth, imgHeight, aw, ah, margin, false) == box
            && CoverRect(imgWidth, imgHeight, aw, ah, margin, true) == box
            && CoverRect(imgWidth, imgHeight, aw, ah, margin, false) == box
            && Placement(imgWidth, imgHeight, pageWidth, pageHeight, margin, Contain)
               == Placement(imgWidth, imgHeight, pageWidth, pageHeight, margin, Cover)
  {
  }

  /** An 800 x 600 image on a 595 x 842 page (A4 portrait rounded to whole points), contain mode. */
  lemma ExampleContainA4()
    ensures Placement(800.0, 600.0, 595.0, 842.0, PageMargin, Contain) == Rect(20.0, 212.875, 555.0, 416.25)
  {
  }

  /** The same image in cover mode overflows the page horizontally. */
  lemma ExampleCoverA4()
    ensures Placement(800.0, 600.0, 595.0, 842.0, PageMargin, Cover) == Rect(-1423.0 / 6.0, 20.0, 3208.0 / 3.0, 802.0)
  {
  }

  /** A square 500 x 500 image on the same rounded A4 page, contain mode, becomes a 555 point square. */
  lemma ExampleSquareA4()
    ensures Placement(500.0, 500.0, 595.0, 842.0, PageMargin, Contain) == Rect(20.0, 143.5, 555.0, 555.0)
  {
  }
}
