/**
 * The client-side PDF export of the slide viewer (frontend/src/utils/pdfExport.ts).
 *
 * `ExportToPdf` drives the mounted slide deck through its slides with synthetic
 * key presses, captures each one, and places every non-empty capture on a
 * 1920x1080 landscape PDF page with a cover-fit placement, reporting progress
 * through a callback.  The browser, html2canvas and jsPDF are not modelled:
 * each capture is the answer of an oracle, and every call the export makes into
 * its surroundings (progress callback, key event, jsPDF call) is recorded, in
 * order, as an `Effect`.
 */
module PdfExport {
  import opened Wrappers

  // ---------------------------------------------------------------------------
  // Slide navigation (navigateSlide)
  // ---------------------------------------------------------------------------

  datatype Direction = Next | Prev | First

  /** The `keydown` event dispatched on `document`. */
  datatype KeyboardEvent = KeyboardEvent(key: string, code: string, keyCode: int)

  function KeyName(direction: Direction): string
  {
    match direction
    case Next => "ArrowRight"
    case Prev => "ArrowLeft"
    case First => "Home"
  }

  /** The legacy key code is derived from the key name, not from the direction. */
  function LegacyKeyCode(key: string): int
  {
    if key == "ArrowRight" then 39 else if key == "ArrowLeft" then 37 else 36
  }

  /** The event `navigateSlide(direction)` dispatches. */
  function NavigationEvent(direction: Direction): (e: KeyboardEvent)
    ensures e.key == e.code
    ensures direction == Next ==> e.key == "ArrowRight" && e.keyCode == 39
    ensures direction == Prev ==> e.key == "ArrowLeft" && e.keyCode == 37
    ensures direction == First ==> e.key == "Home" && e.keyCode == 36
  {
    var key := KeyName(direction);
    KeyboardEvent(key, key, LegacyKeyCode(key))
  }

  /** How a slide surface listening for key codes reads the event back. */
  function DirectionOfKeyCode(keyCode: int): Option<Direction>
  {
    if keyCode == 39 then Some(Next)
    else if keyCode == 37 then Some(Prev)
    else if keyCode == 36 then Some(First)
    else None
  }

  /** The three directions are told apart by key code alone. */
  lemma NavigationEventDecodes(direction: Direction)
    ensures DirectionOfKeyCode(NavigationEvent(direction).keyCode) == Some(direction)
  {
    match direction
    case Next =>
    case Prev =>
    case First =>
  }

  // ---------------------------------------------------------------------------
  // Cover-fit placement
  // ---------------------------------------------------------------------------

  /** The page size read back from the jsPDF document (1920x1080 px, landscape). */
  const PageWidth: real := 1920.0
  const PageHeight: real := 1080.0

  /** Where `addImage` draws: top-left corner and size, in page pixels. */
  datatype Placement = Placement(x: real, y: real, width: real, height: real)

  /**
   * Scales a canvas of `canvasWidth` x `canvasHeight` to cover a page of
   * `pageWidth` x `pageHeight`, centred, cropping whatever sticks out.
   */
  function CoverFit(canvasWidth: real, canvasHeight: real, pageWidth: real, pageHeight: real): Placement
    requires canvasWidth > 0.0 && canvasHeight > 0.0 && pageWidth > 0.0 && pageHeight > 0.0
  {
    var canvasRatio := canvasWidth / canvasHeight;
    var pageRatio := pageWidth / pageHeight;
    if canvasRatio > pageRatio then
      var drawWidth := pageHeight * canvasRatio;
      Placement((pageWidth - drawWidth) / 2.0, 0.0, drawWidth, pageHeight)
    else
      var drawHeight := pageWidth / canvasRatio;
      Placement(0.0, (pageHeight - drawHeight) / 2.0, pageWidth, drawHeight)
  }

  /** The cover-fit rectangle contains the page, is centred on it and keeps the canvas shape. */
  lemma CoverFitCoversPage(canvasWidth: real, canvasHeight: real, pageWidth: real, pageHeight: real)
    requires canvasWidth > 0.0 && canvasHeight > 0.0 && pageWidth > 0.0 && pageHeight > 0.0
    ensures var p := CoverFit(canvasWidth, canvasHeight, pageWidth, pageHeight);
      // the drawn rectangle contains the whole page
      && p.x <= 0.0 && p.y <= 0.0
      && p.x + p.width >= pageWidth && p.y + p.height >= pageHeight
      // it is centred on the page centre
      && p.x + p.width / 2.0 == pageWidth / 2.0
      && p.y + p.height / 2.0 == pageHeight / 2.0
      // it keeps the canvas aspect ratio
      && p.width * canvasHeight == p.height * canvasWidth
      // and it is no larger than that: one side matches the page exactly
      && (p.width == pageWidth || p.height == pageHeight)
  {
    RatioOrder(canvasWidth, canvasHeight, pageWidth, pageHeight);
  }

  /**
   * A relatively wider canvas is fitted to the page height and cropped left and
   * right; any other is fitted to the page width and cropped top and bottom;
   * equal ratios give exactly the page.
   */
  lemma CoverFitBranches(canvasWidth: real, canvasHeight: real, pageWidth: real, pageHeight: real)
    requires canvasWidth > 0.0 && canvasHeight > 0.0 && pageWidth > 0.0 && pageHeight > 0.0
    ensures var p := CoverFit(canvasWidth, canvasHeight, pageWidth, pageHeight);
      && (canvasWidth * pageHeight > pageWidth * canvasHeight ==>
            p.height == pageHeight && p.y == 0.0 && p.width > pageWidth && p.x < 0.0
            && p.x == (pageWidth - p.width) / 2.0)
      && (canvasWidth * pageHeight <= pageWidth * canvasHeight ==>
            p.width == pageWidth && p.x == 0.0 && p.height >= pageHeight && p.y <= 0.0
            && p.y == (pageHeight - p.height) / 2.0)
      && (canvasWidth * pageHeight == pageWidth * canvasHeight ==>
            p == Placement(0.0, 0.0, pageWidth, pageHeight))
  {
    RatioOrder(canvasWidth, canvasHeight, pageWidth, pageHeight);
  }

  /** Comparing two ratios is comparing the cross products. */
  lemma RatioOrder(a: real, b: real, c: real, d: real)
    requires a > 0.0 && b > 0.0 && c > 0.0 && d > 0.0
    ensures a / b > c / d <==> a * d > c * b
    ensures a / b == c / d <==> a * d == c * b
    ensures d * (a / b) == a * d / b
    ensures c / (a / b) == c * b / a
  {
    assert a / b - c / d == (a * d - c * b) / (b * d);
  }

  // ---------------------------------------------------------------------------
  // Progress
  // ---------------------------------------------------------------------------

  /** JavaScript's `Math.round`: the nearest integer, halves rounded up. */
  function MathRound(x: real): int
  {
    (x + 0.5).Floor
  }

  /** Progress reported after slide `i` of `n`, as written: `10 + Math.round((i + 1) / n * 80)`. */
  function RoundedProgress(i: nat, n: nat): int
    requires i < n
  {
    10 + MathRound((i + 1) as real / n as real * 80.0)
  }

  /** The same value in integer arithmetic, the form the rest of the model reasons with. */
  function SlideProgress(i: nat, n: nat): int
    requires i < n
  {
    10 + ((i + 1) * 160 + n) / (2 * n)
  }

  /** The floor of an exact quotient is integer division. */
  lemma FloorOfQuotient(a: nat, d: nat)
    requires d > 0
    ensures (a as real / d as real).Floor == a / d
  {
    var q, r := a / d, a % d;
    assert a == q * d + r;
    assert (a as real) == (q as real) * (d as real) + (r as real);
    assert (a as real) / (d as real) == (q as real) + (r as real) / (d as real);
    assert 0.0 <= (r as real) / (d as real) < 1.0;
  }

  /** Rounding `(i + 1) / n * 80` is adding half the divisor and dividing in integers. */
  lemma SlideProgressClosedForm(i: nat, n: nat)
    requires i < n
    ensures RoundedProgress(i, n) == SlideProgress(i, n)
  {
    var a, m := (i + 1) as real, n as real;
    assert ((i + 1) * 160 + n) as real == 160.0 * a + m;
    assert (2 * n) as real == 2.0 * m;
    assert (160.0 * a + m) / (2.0 * m) == (160.0 * a) / (2.0 * m) + m / (2.0 * m);
    assert m / (2.0 * m) == 0.5;
    assert (160.0 * a) / (2.0 * m) == 80.0 * a / m;
    assert a / m * 80.0 == 80.0 * a / m;
    FloorOfQuotient((i + 1) * 160 + n, 2 * n);
  }

  /** Every per-slide value lies in [10, 90], and the last slide reports exactly 90. */
  lemma SlideProgressRange(i: nat, n: nat)
    requires i < n
    ensures 10 <= SlideProgress(i, n) <= 90
    ensures i == n - 1 ==> SlideProgress(i, n) == 90
  {
    SlideProgressClosedForm(i, n);
    QuotientBounds((i + 1) as real, n as real);
  }

  /** A later slide never reports less progress. */
  lemma SlideProgressMonotone(i: nat, j: nat, n: nat)
    requires i <= j < n
    ensures SlideProgress(i, n) <= SlideProgress(j, n)
  {
    SlideProgressClosedForm(i, n);
    SlideProgressClosedForm(j, n);
    QuotientMonotone((i + 1) as real, (j + 1) as real, n as real);
  }

  lemma QuotientBounds(a: real, m: real)
    requires 0.0 < a <= m
    ensures 0.0 < a / m <= 1.0
    ensures a == m ==> a / m == 1.0
  {
    assert a / m * m == a;
  }

  lemma QuotientMonotone(a: real, b: real, m: real)
    requires 0.0 <= a <= b && m > 0.0
    ensures a / m <= b / m
  {
    assert b / m - a / m == (b - a) / m;
  }

  // ---------------------------------------------------------------------------
  // File name
  // ---------------------------------------------------------------------------

  /** The characters the regular expression `[^a-zA-Z0-9-_]` leaves alone. */
  predicate IsFilenameChar(c: char)
  {
    ('a' <= c <= 'z') || ('A' <= c <= 'Z') || ('0' <= c <= '9') || c == '-' || c == '_'
  }

  /** A character outside the Basic Multilingual Plane, which JavaScript stores as two UTF-16 code units. */
  predicate IsSupplementary(c: char)
  {
    c as int > 0xFFFF
  }

  /** The length JavaScript reports for `s`: the number of its UTF-16 code units. */
  function Utf16Length(s: string): nat
  {
    if s == [] then 0 else (if IsSupplementary(s[0]) then 2 else 1) + Utf16Length(s[1..])
  }

  /**
   * `title.replace(/[^a-zA-Z0-9-_]/g, '_')`.  Without the `u` flag the pattern
   * matches code units, so a character outside the Basic Multilingual Plane
   * becomes two underscores.
   */
  function SanitizeTitle(title: string): (r: string)
    ensures |r| == Utf16Length(title)
    ensures forall k :: 0 <= k < |r| ==> IsFilenameChar(r[k])
  {
    if title == [] then [] else Replacement(title[0]) + SanitizeTitle(title[1..])
  }

  /** What the replacement makes of one character. */
  function Replacement(c: char): (r: string)
    ensures |r| == if IsSupplementary(c) then 2 else 1
    ensures forall k :: 0 <= k < |r| ==> IsFilenameChar(r[k])
  {
    if IsFilenameChar(c) then [c] else if IsSupplementary(c) then "__" else "_"
  }

  /** Sanitizing works piece by piece: the sanitized halves make up the sanitized whole. */
  lemma {:induction false} SanitizeTitleConcat(a: string, b: string)
    ensures SanitizeTitle(a + b) == SanitizeTitle(a) + SanitizeTitle(b)
  {
    if a != [] {
      assert (a + b)[0] == a[0] && (a + b)[1..] == a[1..] + b;
      SanitizeTitleConcat(a[1..], b);
      calc {
        SanitizeTitle(a + b);
        Replacement(a[0]) + SanitizeTitle(a[1..] + b);
        Replacement(a[0]) + (SanitizeTitle(a[1..]) + SanitizeTitle(b));
        (Replacement(a[0]) + SanitizeTitle(a[1..])) + SanitizeTitle(b);
        SanitizeTitle(a) + SanitizeTitle(b);
      }
    } else {
      assert a + b == b;
    }
  }

  /**
   * What one character becomes: a safe character is kept, any other becomes
   * one underscore per UTF-16 code unit.
   */
  lemma SanitizeTitleOne(c: char)
    ensures IsFilenameChar(c) ==> SanitizeTitle([c]) == [c]
    ensures !IsFilenameChar(c) && !IsSupplementary(c) ==> SanitizeTitle([c]) == "_"
    ensures !IsFilenameChar(c) && IsSupplementary(c) ==> SanitizeTitle([c]) == "__"
  {
    assert [c][1..] == [];
  }

  /** A title is kept as it is exactly when it is made only of safe characters. */
  lemma {:induction false} SanitizeTitleKeepsSafe(title: string)
    ensures SanitizeTitle(title) == title <==> forall k :: 0 <= k < |title| ==> IsFilenameChar(title[k])
  {
    if title != [] {
      SanitizeTitleKeepsSafe(title[1..]);
      if forall k :: 0 <= k < |title| ==> IsFilenameChar(title[k]) {
        assert forall k :: 0 <= k < |title[1..]| ==> IsFilenameChar(title[1..][k]) by {
          forall k | 0 <= k < |title[1..]|
            ensures IsFilenameChar(title[1..][k])
          {
            assert title[1..][k] == title[k + 1];
          }
        }
      }
    }
  }

  /** Sanitizing twice changes nothing more. */
  lemma SanitizeTitleIdempotent(title: string)
    ensures SanitizeTitle(SanitizeTitle(title)) == SanitizeTitle(title)
  {
    SanitizeTitleKeepsSafe(SanitizeTitle(title));
  }

  /** A chart emoji (U+1F4CA), a space and `Q3` give three underscores and `Q3`. */
  lemma SanitizeTitleEmoji()
    ensures PdfFilename("\U{1F4CA} Q3") == "___Q3.pdf"
  {
    SanitizeTitleOne('\U{1F4CA}');
    SanitizeTitleOne(' ');
    SanitizeTitleOne('Q');
    SanitizeTitleOne('3');
    SanitizeTitleConcat(['\U{1F4CA}'], " Q3");
    SanitizeTitleConcat([' '], "Q3");
    SanitizeTitleConcat(['Q'], "3");
    assert "\U{1F4CA} Q3" == ['\U{1F4CA}'] + " Q3";
    assert " Q3" == [' '] + "Q3";
    assert "Q3" == ['Q'] + "3";
  }

  /** The name handed to `pdf.save`: the sanitized title followed by `.pdf`. */
  function PdfFilename(title: string): (name: string)
    ensures |name| == Utf16Length(title) + 4 && name[Utf16Length(title)..] == ".pdf"
    ensures name[..Utf16Length(title)] == SanitizeTitle(title)
  {
    SanitizeTitle(title) + ".pdf"
  }

  // ---------------------------------------------------------------------------
  // The export run
  // ---------------------------------------------------------------------------

  /** What one call of `captureViewport` gives: a canvas of some size, or an exception. */
  datatype Capture = Canvas(width: nat, height: nat) | CaptureThrows

  /** A canvas of zero width or zero height, which the export skips. */
  predicate IsEmpty(c: Capture)
  {
    c.Canvas? && (c.width == 0 || c.height == 0)
  }

  /** A canvas that is drawn onto the document. */
  predicate IsDrawable(c: Capture)
  {
    c.Canvas? && c.width > 0 && c.height > 0
  }

  /** One observable call made by the export, in the order it is made. */
  datatype Effect =
    | Progress(percent: int)                     // onProgress(percent)
    | Navigate(direction: Direction)             // navigateSlide(direction)
    | OpenDocument                               // new jsPDF(...): one blank page
    | AddPage                                    // pdf.addPage(...)
    | AddImage(slide: nat, placement: Placement) // pdf.addImage(capture of `slide`, ...)
    | Save(filename: string)                     // pdf.save(filename)

  datatype ExportError = NoSlides | CaptureFailed(slide: nat)

  datatype ExportOutcome = Done | Failed(error: ExportError)

  datatype ExportRun = ExportRun(effects: seq<Effect>, outcome: ExportOutcome)

  /**
   * The calls made by loop iteration `i` of `n` whose capture gave `c`.  A
   * capture that throws ends the run inside the iteration, before any call.
   */
  function SlideEffects(i: nat, n: nat, c: Capture): seq<Effect>
    requires i < n
  {
    match c
    case CaptureThrows => []
    case Canvas(width, height) =>
      if width == 0 || height == 0 then [Navigate(Next)]
      else DrawEffects(i, n, CoverFit(width as real, height as real, PageWidth, PageHeight), SlideProgress(i, n))
  }

  /**
   * The calls that place slide `i` of `n`: a new page unless it is slide 0, the
   * image at `placement`, the progress report, and a step to the next slide
   * unless it is the last.
   */
  function DrawEffects(i: nat, n: nat, placement: Placement, percent: int): seq<Effect>
  {
    (if i > 0 then [AddPage] else [])
    + [AddImage(i, placement)]
    + [Progress(percent)]
    + (if i < n - 1 then [Navigate(Next)] else [])
  }

  /** The calls made by iterations `0` to `k - 1`. */
  function SlidesUpTo(k: nat, n: nat, capture: nat -> Capture): seq<Effect>
    requires k <= n
  {
    if k == 0 then [] else SlidesUpTo(k - 1, n, capture) + SlideEffects(k - 1, n, capture(k - 1))
  }

  /** One more iteration extends the calls made so far by that iteration's calls. */
  lemma SlidesUpToStep(i: nat, n: nat, capture: nat -> Capture, made: seq<Effect>, step: seq<Effect>)
    requires i < n && made == Opening + SlidesUpTo(i, n, capture)
    requires step == SlideEffects(i, n, capture(i))
    ensures made + step == Opening + SlidesUpTo(i + 1, n, capture)
  {
  }

  /** The first slide index from `i` on, below `n`, whose capture throws. */
  function FirstThrowFrom(i: nat, n: nat, capture: nat -> Capture): (r: Option<nat>)
    requires i <= n
    ensures r.Some? ==> i <= r.value < n
    decreases n - i
  {
    if i == n then None
    else if capture(i).CaptureThrows? then Some(i)
    else FirstThrowFrom(i + 1, n, capture)
  }

  /** `FirstThrowFrom` finds exactly the first throwing capture, or reports that none throws. */
  lemma {:induction false} FirstThrowFromIsFirst(i: nat, n: nat, capture: nat -> Capture)
    requires i <= n
    ensures var r := FirstThrowFrom(i, n, capture);
      && (r.None? <==> forall j :: i <= j < n ==> !capture(j).CaptureThrows?)
      && (r.Some? ==>
            && i <= r.value < n
            && capture(r.value).CaptureThrows?
            && forall j :: i <= j < r.value ==> !capture(j).CaptureThrows?)
    decreases n - i
  {
    if i < n && !capture(i).CaptureThrows? {
      FirstThrowFromIsFirst(i + 1, n, capture);
    }
  }

  /** A throwing capture with none before it is the one `FirstThrowFrom` finds. */
  lemma {:induction false} FirstThrowFromAt(i: nat, k: nat, n: nat, capture: nat -> Capture)
    requires i <= k < n && capture(k).CaptureThrows?
    requires forall j :: i <= j < k ==> !capture(j).CaptureThrows?
    ensures FirstThrowFrom(i, n, capture) == Some(k)
    decreases k - i
  {
    if i < k {
      FirstThrowFromAt(i + 1, k, n, capture);
    }
  }

  /** With no throwing capture, `FirstThrowFrom` finds none. */
  lemma {:induction false} FirstThrowFromNone(i: nat, n: nat, capture: nat -> Capture)
    requires i <= n
    requires forall j :: i <= j < n ==> !capture(j).CaptureThrows?
    ensures FirstThrowFrom(i, n, capture) == None
    decreases n - i
  {
    if i < n {
      FirstThrowFromNone(i + 1, n, capture);
    }
  }

  /** The calls made before the loop starts. */
  const Opening: seq<Effect> := [Progress(5), OpenDocument, Navigate(First), Progress(10)]

  /** The calls made after the loop completes. */
  function Closing(title: string): seq<Effect>
  {
    [Progress(95), Save(PdfFilename(title)), Navigate(First), Progress(100)]
  }

  /** The whole run of `exportToPdf(_, {title, totalSlides, onProgress})`. */
  function Export(title: string, totalSlides: int, capture: nat -> Capture): ExportRun
  {
    if totalSlides <= 0 then ExportRun([], Failed(NoSlides))
    else
      match FirstThrowFrom(0, totalSlides, capture)
      case Some(k) => ExportRun(Opening + SlidesUpTo(k, totalSlides, capture), Failed(CaptureFailed(k)))
      case None => ExportRun(Opening + SlidesUpTo(totalSlides, totalSlides, capture) + Closing(title), Done)
  }

  /**
   * One drawn slide: a new page for every slide but the first, the cover-fit
   * image, the progress report, and a step to the next slide unless this is the
   * last one.
   */
  method PlaceSlide(i: nat, n: nat, width: nat, height: nat, pdfWidth: real, pdfHeight: real)
    returns (calls: seq<Effect>)
    requires i < n && width > 0 && height > 0
    requires pdfWidth == PageWidth && pdfHeight == PageHeight
    ensures calls == SlideEffects(i, n, Canvas(width, height))
  {
    calls := [];
    if i > 0 {
      calls := calls + [AddPage];
    }
    var placement := CoverFit(width as real, height as real, pdfWidth, pdfHeight);
    calls := calls + [AddImage(i, placement)];
    calls := calls + [Progress(10 + MathRound((i + 1) as real / n as real * 80.0))];
    SlideProgressClosedForm(i, n);
    if i < n - 1 {
      calls := calls + [Navigate(Next)];
    }
  }

  /**
   * exportToPdf: validate, report 5, open the document, go to the first slide,
   * report 10, then capture and place every slide in turn, then report 95,
   * save, go back to the first slide and report 100.
   */
  method ExportToPdf(title: string, totalSlides: int, capture: nat -> Capture)
    returns (effects: seq<Effect>, outcome: ExportOutcome)
    ensures ExportRun(effects, outcome) == Export(title, totalSlides, capture)
    ensures totalSlides <= 0 ==> effects == [] && outcome == Failed(NoSlides)
  {
    if totalSlides <= 0 {
      return [], Failed(NoSlides);
    }
    var n: nat := totalSlides;
    effects := [Progress(5)];
    effects := effects + [OpenDocument];
    var pdfWidth, pdfHeight := PageWidth, PageHeight;
    effects := effects + [Navigate(First)];
    effects := effects + [Progress(10)];

    var i: nat := 0;
    while i < n
      invariant i <= n
      invariant effects == Opening + SlidesUpTo(i, n, capture)
      invariant forall j :: 0 <= j < i ==> !capture(j).CaptureThrows?
    {
      var canvas := capture(i);
      if canvas.CaptureThrows? {
        FirstThrowFromAt(0, i, n, capture);
        return effects, Failed(CaptureFailed(i));
      }
      if canvas.width == 0 || canvas.height == 0 {
        SlidesUpToStep(i, n, capture, effects, [Navigate(Next)]);
        effects := effects + [Navigate(Next)];
        i := i + 1;
        continue;
      }
      var placed := PlaceSlide(i, n, canvas.width, canvas.height, pdfWidth, pdfHeight);
      SlidesUpToStep(i, n, capture, effects, placed);
      effects := effects + placed;
      i := i + 1;
    }

    effects := effects + [Progress(95)];
    var filename := PdfFilename(title);
    effects := effects + [Save(filename)];
    effects := effects + [Navigate(First)];
    effects := effects + [Progress(100)];
    outcome := Done;
    FirstThrowFromNone(0, n, capture);
  }

  // ---------------------------------------------------------------------------
  // What a run shows: progress reports, navigation, saving
  // ---------------------------------------------------------------------------

  /** Who sees an effect: the progress callback, the slide deck, the document, or the user's disk. */
  datatype Channel = ProgressChannel | NavigationChannel | DocumentChannel | SaveChannel

  function ChannelOf(e: Effect): Channel
  {
    match e
    case Progress(_) => ProgressChannel
    case Navigate(_) => NavigationChannel
    case Save(_) => SaveChannel
    case _ => DocumentChannel
  }

  /** The effects of `effects` seen on `channel`, in order. */
  function On(channel: Channel, effects: seq<Effect>): seq<Effect>
  {
    if effects == [] then []
    else
      var last := effects[|effects| - 1];
      On(channel, effects[..|effects| - 1]) + (if ChannelOf(last) == channel then [last] else [])
  }

  lemma {:induction false} OnConcat(channel: Channel, a: seq<Effect>, b: seq<Effect>)
    ensures On(channel, a + b) == On(channel, a) + On(channel, b)
    decreases |b|
  {
    if b == [] {
      assert a + b == a;
    } else {
      assert (a + b)[..|a + b| - 1] == a + b[..|b| - 1];
      OnConcat(channel, a, b[..|b| - 1]);
    }
  }

  lemma OnSingle(channel: Channel, e: Effect)
    ensures On(channel, [e]) == if ChannelOf(e) == channel then [e] else []
  {
    assert [e][..0] == [];
  }

  /** `count` presses of the right-arrow key. */
  function NextPresses(count: nat): seq<Effect>
  {
    if count == 0 then [] else NextPresses(count - 1) + [Navigate(Next)]
  }

  lemma {:induction false} NextPressesAreNext(count: nat)
    ensures |NextPresses(count)| == count
    ensures forall t :: 0 <= t < count ==> NextPresses(count)[t] == Navigate(Next)
  {
    if count > 0 {
      NextPressesAreNext(count - 1);
    }
  }

  /** The slides below `k` whose capture is drawn onto the document. */
  function Drawn(k: nat, capture: nat -> Capture): (d: seq<nat>)
    ensures forall t :: 0 <= t < |d| ==> d[t] < k
  {
    if k == 0 then []
    else Drawn(k - 1, capture) + (if IsDrawable(capture(k - 1)) then [k - 1] else [])
  }

  /** `Drawn` lists exactly the drawable slides below `k`, each once, in increasing order. */
  lemma {:induction false} DrawnExactly(k: nat, capture: nat -> Capture)
    ensures var d := Drawn(k, capture);
      && (forall t :: 0 <= t < |d| ==> IsDrawable(capture(d[t])))
      && (forall s, t :: 0 <= s < t < |d| ==> d[s] < d[t])
      && (forall j :: 0 <= j < k ==> (IsDrawable(capture(j)) <==> j in d))
  {
    if k > 0 {
      DrawnExactly(k - 1, capture);
    }
  }

  /** The progress reports for the drawn slides `d` of `n`. */
  function ProgressFor(d: seq<nat>, n: nat): seq<Effect>
    requires forall t :: 0 <= t < |d| ==> d[t] < n
  {
    if d == [] then [] else ProgressFor(d[..|d| - 1], n) + [Progress(SlideProgress(d[|d| - 1], n))]
  }

  lemma {:induction false} ProgressForValues(d: seq<nat>, n: nat)
    requires forall t :: 0 <= t < |d| ==> d[t] < n
    ensures |ProgressFor(d, n)| == |d|
    ensures forall t :: 0 <= t < |d| ==> ProgressFor(d, n)[t] == Progress(SlideProgress(d[t], n))
  {
    if d != [] {
      ProgressForValues(d[..|d| - 1], n);
    }
  }

  /** Placing one slide, looked at one call at a time. */
  lemma DrawEffectsSplit(i: nat, n: nat, placement: Placement, percent: int, channel: Channel)
    ensures On(channel, DrawEffects(i, n, placement, percent)) ==
      (if i > 0 then On(channel, [AddPage]) else [])
      + On(channel, [AddImage(i, placement)])
      + On(channel, [Progress(percent)])
      + (if i < n - 1 then On(channel, [Navigate(Next)]) else [])
  {
    var newPage: seq<Effect> := if i > 0 then [AddPage] else [];
    var next: seq<Effect> := if i < n - 1 then [Navigate(Next)] else [];
    OnConcat(channel, newPage + [AddImage(i, placement)] + [Progress(percent)], next);
    OnConcat(channel, newPage + [AddImage(i, placement)], [Progress(percent)]);
    OnConcat(channel, newPage, [AddImage(i, placement)]);
  }

  /** What placing one slide shows on each channel. */
  lemma DrawEffectsOn(i: nat, n: nat, placement: Placement, percent: int)
    ensures On(ProgressChannel, DrawEffects(i, n, placement, percent)) == [Progress(percent)]
    ensures On(NavigationChannel, DrawEffects(i, n, placement, percent)) ==
      if i < n - 1 then [Navigate(Next)] else []
    ensures On(SaveChannel, DrawEffects(i, n, placement, percent)) == []
  {
    DrawEffectsOnChannel(i, n, placement, percent, ProgressChannel);
    DrawEffectsOnChannel(i, n, placement, percent, NavigationChannel);
    DrawEffectsOnChannel(i, n, placement, percent, SaveChannel);
  }

  lemma DrawEffectsOnChannel(i: nat, n: nat, placement: Placement, percent: int, channel: Channel)
    requires channel != DocumentChannel
    ensures On(channel, DrawEffects(i, n, placement, percent)) ==
      if channel == ProgressChannel then [Progress(percent)]
      else if channel == NavigationChannel && i < n - 1 then [Navigate(Next)]
      else []
  {
    DrawEffectsSplit(i, n, placement, percent, channel);
    OnSingle(channel, AddPage);
    OnSingle(channel, AddImage(i, placement));
    OnSingle(channel, Progress(percent));
    OnSingle(channel, Navigate(Next));
  }

  lemma OnSingles(e: Effect)
    ensures On(ProgressChannel, [e]) == if e.Progress? then [e] else []
    ensures On(NavigationChannel, [e]) == if e.Navigate? then [e] else []
    ensures On(SaveChannel, [e]) == if e.Save? then [e] else []
  {
    OnSingle(ProgressChannel, e);
    OnSingle(NavigationChannel, e);
    OnSingle(SaveChannel, e);
  }

  /** One iteration reports progress exactly when it draws its slide. */
  lemma SlideEffectsProgress(i: nat, n: nat, c: Capture)
    requires i < n
    ensures On(ProgressChannel, SlideEffects(i, n, c)) ==
      if IsDrawable(c) then [Progress(SlideProgress(i, n))] else []
  {
    if IsDrawable(c) {
      DrawEffectsOn(i, n, CoverFit(c.width as real, c.height as real, PageWidth, PageHeight), SlideProgress(i, n));
    } else if c.Canvas? {
      OnSingle(ProgressChannel, Navigate(Next));
    }
  }

  /** One iteration navigates `next` once, unless its capture throws or it draws the last slide. */
  lemma SlideEffectsNavigation(i: nat, n: nat, c: Capture)
    requires i < n
    ensures On(NavigationChannel, SlideEffects(i, n, c)) ==
      if c.CaptureThrows? || (IsDrawable(c) && i == n - 1) then [] else [Navigate(Next)]
  {
    if IsDrawable(c) {
      DrawEffectsOn(i, n, CoverFit(c.width as real, c.height as real, PageWidth, PageHeight), SlideProgress(i, n));
    } else if c.Canvas? {
      OnSingle(NavigationChannel, Navigate(Next));
    }
  }

  /** No iteration saves. */
  lemma SlideEffectsNoSave(i: nat, n: nat, c: Capture)
    requires i < n
    ensures On(SaveChannel, SlideEffects(i, n, c)) == []
  {
    if IsDrawable(c) {
      DrawEffectsOn(i, n, CoverFit(c.width as real, c.height as real, PageWidth, PageHeight), SlideProgress(i, n));
    } else if c.Canvas? {
      OnSingle(SaveChannel, Navigate(Next));
    }
  }

  /** Looking at the first `k` iterations one iteration at a time. */
  lemma SlidesOnStep(i: nat, n: nat, capture: nat -> Capture, channel: Channel)
    requires i < n
    ensures On(channel, SlidesUpTo(i + 1, n, capture)) ==
      On(channel, SlidesUpTo(i, n, capture)) + On(channel, SlideEffects(i, n, capture(i)))
  {
    OnConcat(channel, SlidesUpTo(i, n, capture), SlideEffects(i, n, capture(i)));
  }

  /** One more iteration reports the progress of its slide when it draws it, and nothing otherwise. */
  lemma SlidesProgressOnStep(i: nat, n: nat, capture: nat -> Capture)
    requires i < n
    ensures On(ProgressChannel, SlidesUpTo(i + 1, n, capture)) ==
      On(ProgressChannel, SlidesUpTo(i, n, capture)) +
      (if IsDrawable(capture(i)) then [Progress(SlideProgress(i, n))] else [])
  {
    SlidesOnStep(i, n, capture, ProgressChannel);
    SlideEffectsProgress(i, n, capture(i));
  }

  /** The first `k` iterations report what the first `k - 1` did, plus the last slide's progress when it is drawn. */
  lemma SlidesProgressStep(k: nat, n: nat, capture: nat -> Capture)
    requires 0 < k <= n && IsDrawable(capture(k - 1))
    ensures On(ProgressChannel, SlidesUpTo(k, n, capture)) ==
      On(ProgressChannel, SlidesUpTo(k - 1, n, capture)) + [Progress(SlideProgress(k - 1, n))]
  {
    SlidesProgressOnStep(k - 1, n, capture);
  }

  lemma ProgressAfterDrawnSlide(k: nat, n: nat, capture: nat -> Capture)
    requires 0 < k <= n && IsDrawable(capture(k - 1))
    requires On(ProgressChannel, SlidesUpTo(k - 1, n, capture)) == ProgressFor(Drawn(k - 1, capture), n)
    ensures On(ProgressChannel, SlidesUpTo(k, n, capture)) == ProgressFor(Drawn(k, capture), n)
  {
    SlidesProgressStep(k, n, capture);
    DrawnStep(k, n, capture);
  }

  lemma ProgressAfterSkippedSlide(k: nat, n: nat, capture: nat -> Capture)
    requires 0 < k <= n && !IsDrawable(capture(k - 1))
    requires On(ProgressChannel, SlidesUpTo(k - 1, n, capture)) == ProgressFor(Drawn(k - 1, capture), n)
    ensures On(ProgressChannel, SlidesUpTo(k, n, capture)) == ProgressFor(Drawn(k, capture), n)
  {
    SlidesProgressOnStep(k - 1, n, capture);
    assert Drawn(k, capture) == Drawn(k - 1, capture);
    assert ProgressFor(Drawn(k - 1, capture), n) + [] == ProgressFor(Drawn(k - 1, capture), n);
  }

  lemma DrawnStep(k: nat, n: nat, capture: nat -> Capture)
    requires 0 < k <= n && IsDrawable(capture(k - 1))
    ensures ProgressFor(Drawn(k, capture), n) ==
      ProgressFor(Drawn(k - 1, capture), n) + [Progress(SlideProgress(k - 1, n))]
  {
    var d := Drawn(k - 1, capture);
    assert Drawn(k, capture) == d + [k - 1];
    assert (d + [k - 1])[..|d|] == d;
  }

  /** The loop reports, for every drawn slide in turn, that slide's progress value. */
  lemma {:induction false} SlidesProgress(k: nat, n: nat, capture: nat -> Capture)
    requires k <= n
    ensures On(ProgressChannel, SlidesUpTo(k, n, capture)) == ProgressFor(Drawn(k, capture), n)
  {
    if k == 0 {
      NoSlidesYet(n, capture);
    } else {
      SlidesProgress(k - 1, n, capture);
      if IsDrawable(capture(k - 1)) {
        ProgressAfterDrawnSlide(k, n, capture);
      } else {
        ProgressAfterSkippedSlide(k, n, capture);
      }
    }
  }

  /** Before the loop has run, nothing is seen and nothing is drawn. */
  lemma NoSlidesYet(n: nat, capture: nat -> Capture)
    ensures On(ProgressChannel, SlidesUpTo(0, n, capture)) == []
    ensures On(NavigationChannel, SlidesUpTo(0, n, capture)) == []
    ensures On(SaveChannel, SlidesUpTo(0, n, capture)) == []
    ensures Drawn(0, capture) == []
  {
    assert SlidesUpTo(0, n, capture) == [];
  }

  /** The loop navigates `next` once per slide, except after a drawn last slide. */
  lemma {:induction false} SlidesNavigation(k: nat, n: nat, capture: nat -> Capture)
    requires k <= n
    requires forall j :: 0 <= j < k ==> !capture(j).CaptureThrows?
    ensures On(NavigationChannel, SlidesUpTo(k, n, capture)) ==
      NextPresses(if k == n && k > 0 && IsDrawable(capture(k - 1)) then k - 1 else k)
  {
    if k == 0 {
      NoSlidesYet(n, capture);
    } else {
      SlidesNavigation(k - 1, n, capture);
      if k == n && IsDrawable(capture(k - 1)) {
        NavigationAfterLastSlide(n, capture);
      } else {
        NavigationToNextSlide(k, n, capture);
      }
    }
  }

  /** One more iteration navigates `next` once, unless its capture throws or it draws the last slide. */
  lemma SlidesNavigationOnStep(i: nat, n: nat, capture: nat -> Capture)
    requires i < n
    ensures On(NavigationChannel, SlidesUpTo(i + 1, n, capture)) ==
      On(NavigationChannel, SlidesUpTo(i, n, capture)) +
      (if capture(i).CaptureThrows? || (IsDrawable(capture(i)) && i + 1 == n) then [] else [Navigate(Next)])
  {
    SlidesOnStep(i, n, capture, NavigationChannel);
    SlideEffectsNavigation(i, n, capture(i));
  }

  /** Drawing the last slide does not navigate. */
  lemma NavigationAfterLastSlide(n: nat, capture: nat -> Capture)
    requires 0 < n && IsDrawable(capture(n - 1))
    requires On(NavigationChannel, SlidesUpTo(n - 1, n, capture)) == NextPresses(n - 1)
    ensures On(NavigationChannel, SlidesUpTo(n, n, capture)) == NextPresses(n - 1)
  {
    NavigationStepLast(n, capture);
  }

  /** The iteration that draws the last slide presses nothing. */
  lemma NavigationStepLast(n: nat, capture: nat -> Capture)
    requires 0 < n && IsDrawable(capture(n - 1))
    ensures On(NavigationChannel, SlidesUpTo(n, n, capture)) == On(NavigationChannel, SlidesUpTo(n - 1, n, capture))
  {
    SlidesNavigationOnStep(n - 1, n, capture);
    assert On(NavigationChannel, SlidesUpTo(n - 1, n, capture)) + [] == On(NavigationChannel, SlidesUpTo(n - 1, n, capture));
  }

  /** Any other slide whose capture does not throw is followed by one `next`. */
  lemma NavigationToNextSlide(k: nat, n: nat, capture: nat -> Capture)
    requires 0 < k <= n && !capture(k - 1).CaptureThrows?
    requires !(k == n && IsDrawable(capture(k - 1)))
    requires On(NavigationChannel, SlidesUpTo(k - 1, n, capture)) == NextPresses(k - 1)
    ensures On(NavigationChannel, SlidesUpTo(k, n, capture)) == NextPresses(k)
  {
    NavigationStepNext(k, n, capture);
    NextPressesSnoc(k - 1);
  }

  /** One `next` is pressed after slide `k - 1` when its capture neither throws nor is the last drawn. */
  lemma NavigationStepNext(k: nat, n: nat, capture: nat -> Capture)
    requires 0 < k <= n && !capture(k - 1).CaptureThrows? && !(k == n && IsDrawable(capture(k - 1)))
    ensures On(NavigationChannel, SlidesUpTo(k, n, capture)) ==
      On(NavigationChannel, SlidesUpTo(k - 1, n, capture)) + [Navigate(Next)]
  {
    SlidesNavigationOnStep(k - 1, n, capture);
  }

  /** Adding one to a count of presses adds one press. */
  lemma NextPressesSnoc(count: nat)
    ensures NextPresses(count + 1) == NextPresses(count) + [Navigate(Next)]
  {
  }

  /** The loop never saves. */
  lemma {:induction false} SlidesNeverSave(k: nat, n: nat, capture: nat -> Capture)
    requires k <= n
    ensures On(SaveChannel, SlidesUpTo(k, n, capture)) == []
  {
    if k == 0 {
      NoSlidesYet(n, capture);
    } else {
      SlidesNeverSave(k - 1, n, capture);
      SlidesSaveOnStep(k, n, capture);
    }
  }

  /** Iteration `k - 1` saves nothing. */
  lemma SlidesSaveOnStep(k: nat, n: nat, capture: nat -> Capture)
    requires 0 < k <= n
    ensures On(SaveChannel, SlidesUpTo(k, n, capture)) == On(SaveChannel, SlidesUpTo(k - 1, n, capture))
  {
    var i := k - 1;
    SlidesOnStep(i, n, capture, SaveChannel);
    SlideEffectsNoSave(i, n, capture(i));
    assert On(SaveChannel, SlidesUpTo(i, n, capture)) + [] == On(SaveChannel, SlidesUpTo(i, n, capture));
  }

  /** Looking at four calls one call at a time. */
  lemma OnFour(channel: Channel, a: Effect, b: Effect, c: Effect, d: Effect)
    ensures On(channel, [a, b, c, d]) ==
      On(channel, [a]) + On(channel, [b]) + On(channel, [c]) + On(channel, [d])
  {
    assert [a, b, c, d] == [a] + [b] + [c] + [d];
    OnConcat(channel, [a] + [b] + [c], [d]);
    OnConcat(channel, [a] + [b], [c]);
    OnConcat(channel, [a], [b]);
  }

  /** What the calls before the loop show on each channel. */
  lemma OpeningOn()
    ensures On(ProgressChannel, Opening) == [Progress(5), Progress(10)]
    ensures On(NavigationChannel, Opening) == [Navigate(First)]
    ensures On(SaveChannel, Opening) == []
  {
    OpeningOnChannel(ProgressChannel);
    OpeningOnChannel(NavigationChannel);
    OpeningOnChannel(SaveChannel);
  }

  lemma OpeningOnChannel(channel: Channel)
    requires channel != DocumentChannel
    ensures On(channel, Opening) ==
      if channel == ProgressChannel then [Progress(5), Progress(10)]
      else if channel == NavigationChannel then [Navigate(First)]
      else []
  {
    OnFour(channel, Progress(5), OpenDocument, Navigate(First), Progress(10));
    OnSingle(channel, Progress(5));
    OnSingle(channel, OpenDocument);
    OnSingle(channel, Navigate(First));
    OnSingle(channel, Progress(10));
  }

  /** What the calls after the loop show on each channel. */
  lemma ClosingOn(title: string)
    ensures On(ProgressChannel, Closing(title)) == [Progress(95), Progress(100)]
    ensures On(NavigationChannel, Closing(title)) == [Navigate(First)]
    ensures On(SaveChannel, Closing(title)) == [Save(PdfFilename(title))]
  {
    ClosingOnChannel(title, ProgressChannel);
    ClosingOnChannel(title, NavigationChannel);
    ClosingOnChannel(title, SaveChannel);
  }

  lemma ClosingOnChannel(title: string, channel: Channel)
    requires channel != DocumentChannel
    ensures On(channel, Closing(title)) ==
      if channel == ProgressChannel then [Progress(95), Progress(100)]
      else if channel == NavigationChannel then [Navigate(First)]
      else [Save(PdfFilename(title))]
  {
    var save := Save(PdfFilename(title));
    OnFour(channel, Progress(95), save, Navigate(First), Progress(100));
    OnSingle(channel, Progress(95));
    OnSingle(channel, save);
    OnSingle(channel, Navigate(First));
    OnSingle(channel, Progress(100));
  }

  /** The run completes exactly when there are slides and no capture throws; otherwise it stops at the first throw. */
  lemma ExportOutcomeCases(title: string, totalSlides: int, capture: nat -> Capture)
    ensures var run := Export(title, totalSlides, capture);
      && (run.outcome == Done <==>
            totalSlides > 0 && forall j :: 0 <= j < totalSlides ==> !capture(j).CaptureThrows?)
      && (run.outcome == Failed(NoSlides) <==> totalSlides <= 0)
      && (run.outcome.Failed? && run.outcome.error.CaptureFailed? ==>
            var k := run.outcome.error.slide;
            && k < totalSlides
            && capture(k).CaptureThrows?
            && forall j :: 0 <= j < k ==> !capture(j).CaptureThrows?)
  {
    if totalSlides > 0 {
      FirstThrowFromIsFirst(0, totalSlides, capture);
    }
  }

  /**
   * The progress callback hears 5 and 10, then one value per drawn slide, then
   * 95 and 100 when the run completes; a failed run stops after the last drawn
   * slide's value.
   */
  lemma ExportProgress(title: string, totalSlides: int, capture: nat -> Capture)
    ensures var run := Export(title, totalSlides, capture);
      var reports := On(ProgressChannel, run.effects);
      && (totalSlides <= 0 ==> reports == [])
      && (run.outcome == Done ==>
            reports == [Progress(5), Progress(10)] + ProgressFor(Drawn(totalSlides, capture), totalSlides)
                       + [Progress(95), Progress(100)])
      && (run.outcome.Failed? && run.outcome.error.CaptureFailed? ==>
            reports == [Progress(5), Progress(10)] + ProgressFor(Drawn(run.outcome.error.slide, capture), totalSlides))
  {
    if totalSlides > 0 {
      var n: nat := totalSlides;
      OpeningOn();
      ClosingOn(title);
      match FirstThrowFrom(0, n, capture)
      case Some(k) =>
        SlidesProgress(k, n, capture);
        OnConcat(ProgressChannel, Opening, SlidesUpTo(k, n, capture));
      case None =>
        SlidesProgress(n, n, capture);
        OnConcat(ProgressChannel, Opening, SlidesUpTo(n, n, capture));
        OnConcat(ProgressChannel, Opening + SlidesUpTo(n, n, capture), Closing(title));
    }
  }

  /** Progress reports that never go back and stay within 5 to 100. */
  predicate Climbs(reports: seq<Effect>)
  {
    && (forall t :: 0 <= t < |reports| ==> reports[t].Progress? && 5 <= reports[t].percent <= 100)
    && (forall s, t :: 0 <= s < t < |reports| ==> reports[s].percent <= reports[t].percent)
  }

  /** The progress bar only ever moves forward, and a completed run ends at 100. */
  lemma ExportProgressClimbs(title: string, totalSlides: int, capture: nat -> Capture)
    ensures var run := Export(title, totalSlides, capture);
      var reports := On(ProgressChannel, run.effects);
      && Climbs(reports)
      && (run.outcome == Done ==> |reports| >= 4 && reports[|reports| - 1] == Progress(100))
  {
    ExportProgress(title, totalSlides, capture);
    ExportOutcomeCases(title, totalSlides, capture);
    var run := Export(title, totalSlides, capture);
    var head: seq<Effect> := [Progress(5), Progress(10)];
    if run.outcome == Done {
      var n: nat := totalSlides;
      DrawnProgressClimbs(n, n, capture);
      ClimbsConcat(head, ProgressFor(Drawn(n, capture), n), [Progress(95), Progress(100)]);
    } else if run.outcome.error.CaptureFailed? {
      var n: nat := totalSlides;
      var k := run.outcome.error.slide;
      DrawnProgressClimbs(k, n, capture);
      ClimbsConcat(head, ProgressFor(Drawn(k, capture), n), []);
      assert head + ProgressFor(Drawn(k, capture), n) + [] == head + ProgressFor(Drawn(k, capture), n);
    }
  }

  /** The reports for the drawn slides stay within 10 to 90 and never go back. */
  lemma DrawnProgressClimbs(k: nat, n: nat, capture: nat -> Capture)
    requires k <= n
    ensures var middle := ProgressFor(Drawn(k, capture), n);
      && (forall t :: 0 <= t < |middle| ==> middle[t].Progress? && 10 <= middle[t].percent <= 90)
      && (forall s, t :: 0 <= s < t < |middle| ==> middle[s].percent <= middle[t].percent)
  {
    var d := Drawn(k, capture);
    DrawnExactly(k, capture);
    ProgressForValues(d, n);
    forall t | 0 <= t < |d|
      ensures 10 <= SlideProgress(d[t], n) <= 90
    {
      SlideProgressRange(d[t], n);
    }
    forall s, t | 0 <= s < t < |d|
      ensures SlideProgress(d[s], n) <= SlideProgress(d[t], n)
    {
      SlideProgressMonotone(d[s], d[t], n);
    }
  }

  lemma ClimbsConcat(head: seq<Effect>, middle: seq<Effect>, tail: seq<Effect>)
    requires head == [Progress(5), Progress(10)]
    requires tail == [] || tail == [Progress(95), Progress(100)]
    requires forall t :: 0 <= t < |middle| ==> middle[t].Progress? && 10 <= middle[t].percent <= 90
    requires forall s, t :: 0 <= s < t < |middle| ==> middle[s].percent <= middle[t].percent
    ensures Climbs(head + middle + tail)
  {
    var r := head + middle + tail;
    forall s, t | 0 <= s < t < |r|
      ensures r[s].percent <= r[t].percent
    {
      if s >= 2 && t < 2 + |middle| {
        assert r[s] == middle[s - 2] && r[t] == middle[t - 2];
      }
    }
  }

  /**
   * The deck is sent to the first slide, then `next` once per slide (a drawn
   * last slide sends none, an empty last slide still does), and back to the
   * first slide when the run completes.  A failed capture leaves the deck on
   * the failing slide.
   */
  lemma ExportNavigation(title: string, totalSlides: int, capture: nat -> Capture)
    ensures var run := Export(title, totalSlides, capture);
      var moves := On(NavigationChannel, run.effects);
      && (totalSlides <= 0 ==> moves == [])
      && (run.outcome == Done ==>
            moves == [Navigate(First)]
                     + NextPresses(if IsDrawable(capture(totalSlides - 1)) then totalSlides - 1 else totalSlides)
                     + [Navigate(First)])
      && (run.outcome.Failed? && run.outcome.error.CaptureFailed? ==>
            moves == [Navigate(First)] + NextPresses(run.outcome.error.slide))
  {
    if totalSlides > 0 {
      var n: nat := totalSlides;
      OpeningOn();
      ClosingOn(title);
      FirstThrowFromIsFirst(0, n, capture);
      match FirstThrowFrom(0, n, capture)
      case Some(k) =>
        SlidesNavigation(k, n, capture);
        OnConcat(NavigationChannel, Opening, SlidesUpTo(k, n, capture));
      case None =>
        SlidesNavigation(n, n, capture);
        OnConcat(NavigationChannel, Opening, SlidesUpTo(n, n, capture));
        OnConcat(NavigationChannel, Opening + SlidesUpTo(n, n, capture), Closing(title));
    }
  }

  /** A completed run saves once, under the sanitized title; a failed run never saves. */
  lemma ExportSaves(title: string, totalSlides: int, capture: nat -> Capture)
    ensures var run := Export(title, totalSlides, capture);
      On(SaveChannel, run.effects) == if run.outcome == Done then [Save(PdfFilename(title))] else []
  {
    if totalSlides > 0 {
      var n: nat := totalSlides;
      OpeningOn();
      ClosingOn(title);
      match FirstThrowFrom(0, n, capture)
      case Some(k) =>
        SlidesNeverSave(k, n, capture);
        OnConcat(SaveChannel, Opening, SlidesUpTo(k, n, capture));
      case None =>
        SlidesNeverSave(n, n, capture);
        OnConcat(SaveChannel, Opening, SlidesUpTo(n, n, capture));
        OnConcat(SaveChannel, Opening + SlidesUpTo(n, n, capture), Closing(title));
    }
  }

  // ---------------------------------------------------------------------------
  // The document
  // ---------------------------------------------------------------------------

  /**
   * The slides whose images are on each page of the jsPDF document after one
   * call: `new jsPDF` starts with one blank page, `addPage` appends a blank
   * page, `addImage` draws on the last page.
   */
  function ApplyToDocument(pages: seq<seq<nat>>, e: Effect): seq<seq<nat>>
  {
    match e
    case OpenDocument => [[]]
    case AddPage => pages + [[]]
    case AddImage(slide, _) =>
      if pages == [] then pages else pages[..|pages| - 1] + [pages[|pages| - 1] + [slide]]
    case _ => pages
  }

  /** The document after the calls `effects`, starting from `pages`. */
  function Replay(pages: seq<seq<nat>>, effects: seq<Effect>): seq<seq<nat>>
  {
    if effects == [] then pages
    else ApplyToDocument(Replay(pages, effects[..|effects| - 1]), effects[|effects| - 1])
  }

  lemma {:induction false} ReplayConcat(pages: seq<seq<nat>>, a: seq<Effect>, b: seq<Effect>)
    ensures Replay(pages, a + b) == Replay(Replay(pages, a), b)
    decreases |b|
  {
    if b == [] {
      assert a + b == a;
    } else {
      assert (a + b)[..|a + b| - 1] == a + b[..|b| - 1];
      ReplayConcat(pages, a, b[..|b| - 1]);
    }
  }

  lemma ReplaySingle(pages: seq<seq<nat>>, e: Effect)
    ensures Replay(pages, [e]) == ApplyToDocument(pages, e)
  {
    assert [e][..0] == [];
  }

  /** One page per slide of `d`, holding that slide's image alone. */
  function Singletons(d: seq<nat>): seq<seq<nat>>
  {
    if d == [] then [] else Singletons(d[..|d| - 1]) + [[d[|d| - 1]]]
  }

  lemma {:induction false} SingletonsPages(d: seq<nat>)
    ensures |Singletons(d)| == |d|
    ensures forall t :: 0 <= t < |d| ==> Singletons(d)[t] == [d[t]]
  {
    if d != [] {
      SingletonsPages(d[..|d| - 1]);
    }
  }

  /** Calls that leave the document alone: progress reports, navigation and saving. */
  predicate LeavesDocument(effects: seq<Effect>)
  {
    forall t :: 0 <= t < |effects| ==> ChannelOf(effects[t]) != DocumentChannel
  }

  lemma {:induction false} ReplayLeavesDocument(pages: seq<seq<nat>>, effects: seq<Effect>)
    requires LeavesDocument(effects)
    ensures Replay(pages, effects) == pages
    decreases |effects|
  {
    if effects != [] {
      ReplayLeavesDocument(pages, effects[..|effects| - 1]);
    }
  }

  lemma AddPageThenImage(pages: seq<seq<nat>>, image: Effect)
    requires image.AddImage?
    ensures Replay(pages, [AddPage, image]) == pages + [[image.slide]]
  {
    assert [AddPage, image] == [AddPage] + [image];
    ReplayConcat(pages, [AddPage], [image]);
    ReplaySingle(pages, AddPage);
    ReplaySingle(pages + [[]], image);
    var blank: seq<nat> := [];
    assert (pages + [blank])[..|pages|] == pages;
    assert (pages + [blank])[|pages|] + [image.slide] == [image.slide];
  }

  /** Placing slide `i` opens a page for it, except slide 0, which goes on the page jsPDF starts with. */
  lemma DrawEffectsDocument(pages: seq<seq<nat>>, i: nat, n: nat, placement: Placement, percent: int)
    ensures Replay(pages, DrawEffects(i, n, placement, percent)) ==
      if i > 0 then pages + [[i]] else ApplyToDocument(pages, AddImage(i, placement))
  {
    var image := AddImage(i, placement);
    var drawing: seq<Effect> := if i > 0 then [AddPage, image] else [image];
    var rest: seq<Effect> := [Progress(percent)] + (if i < n - 1 then [Navigate(Next)] else []);
    assert DrawEffects(i, n, placement, percent) == drawing + rest;
    ReplayConcat(pages, drawing, rest);
    ReplayLeavesDocument(Replay(pages, drawing), rest);
    if i > 0 {
      AddPageThenImage(pages, image);
    } else {
      ReplaySingle(pages, image);
    }
  }

  /** A skipped slide leaves the document alone. */
  lemma SlideEffectsDocument(pages: seq<seq<nat>>, i: nat, n: nat, c: Capture)
    requires i < n
    ensures !IsDrawable(c) ==> Replay(pages, SlideEffects(i, n, c)) == pages
    ensures IsDrawable(c) ==>
      Replay(pages, SlideEffects(i, n, c)) ==
        if i > 0 then pages + [[i]]
        else ApplyToDocument(pages, AddImage(i, CoverFit(c.width as real, c.height as real, PageWidth, PageHeight)))
  {
    if IsDrawable(c) {
      DrawEffectsDocument(pages, i, n, CoverFit(c.width as real, c.height as real, PageWidth, PageHeight), SlideProgress(i, n));
    } else if c.Canvas? {
      ReplaySingle(pages, Navigate(Next));
    }
  }

  /** The blank page `new jsPDF` starts with stays blank when slide 0 is not drawn. */
  function LeadingBlank(k: nat, capture: nat -> Capture): seq<seq<nat>>
  {
    if k > 0 && IsDrawable(capture(0)) then [] else [[]]
  }

  lemma OpeningDocument()
    ensures Replay([], Opening) == [[]]
  {
    assert Opening == [Progress(5), OpenDocument] + [Navigate(First), Progress(10)];
    ReplayConcat([], [Progress(5), OpenDocument], [Navigate(First), Progress(10)]);
    ReplayConcat([], [Progress(5)], [OpenDocument]);
    ReplaySingle([], Progress(5));
    ReplaySingle([], OpenDocument);
    ReplayLeavesDocument([[]], [Navigate(First), Progress(10)]);
  }

  lemma SinglesSnoc(d: seq<nat>, x: nat)
    ensures Singletons(d + [x]) == Singletons(d) + [[x]]
  {
    assert (d + [x])[..|d|] == d;
  }

  /** Replaying one more iteration on top of the document so far. */
  lemma SlidesReplayStep(k: nat, n: nat, capture: nat -> Capture)
    requires 0 < k <= n
    ensures Replay([[]], SlidesUpTo(k, n, capture)) ==
      Replay(Replay([[]], SlidesUpTo(k - 1, n, capture)), SlideEffects(k - 1, n, capture(k - 1)))
  {
    ReplayConcat([[]], SlidesUpTo(k - 1, n, capture), SlideEffects(k - 1, n, capture(k - 1)));
  }

  lemma SlidesDocumentStep(k: nat, n: nat, capture: nat -> Capture)
    requires 0 < k <= n
    requires Replay([[]], SlidesUpTo(k - 1, n, capture)) ==
      LeadingBlank(k - 1, capture) + Singletons(Drawn(k - 1, capture))
    ensures Replay([[]], SlidesUpTo(k, n, capture)) ==
      LeadingBlank(k, capture) + Singletons(Drawn(k, capture))
  {
    SlidesReplayStep(k, n, capture);
    if !IsDrawable(capture(k - 1)) {
      SkippedSlideDocument(k, n, capture);
    } else if k > 1 {
      LaterSlideDocument(k, n, capture);
    } else {
      FirstSlideDocument(n, capture);
    }
  }

  lemma SkippedSlideDocument(k: nat, n: nat, capture: nat -> Capture)
    requires 0 < k <= n && !IsDrawable(capture(k - 1))
    ensures Replay(LeadingBlank(k - 1, capture) + Singletons(Drawn(k - 1, capture)), SlideEffects(k - 1, n, capture(k - 1))) ==
      LeadingBlank(k, capture) + Singletons(Drawn(k, capture))
  {
    SlideEffectsDocument(LeadingBlank(k - 1, capture) + Singletons(Drawn(k - 1, capture)), k - 1, n, capture(k - 1));
    assert Drawn(k, capture) == Drawn(k - 1, capture);
  }

  lemma LaterSlideDocument(k: nat, n: nat, capture: nat -> Capture)
    requires 1 < k <= n && IsDrawable(capture(k - 1))
    ensures Replay(LeadingBlank(k - 1, capture) + Singletons(Drawn(k - 1, capture)), SlideEffects(k - 1, n, capture(k - 1))) ==
      LeadingBlank(k, capture) + Singletons(Drawn(k, capture))
  {
    var pages := LeadingBlank(k - 1, capture) + Singletons(Drawn(k - 1, capture));
    SlideEffectsDocument(pages, k - 1, n, capture(k - 1));
    LaterSlidePages(k, capture);
  }

  /** The pages after one more drawn slide past the first. */
  lemma LaterSlidePages(k: nat, capture: nat -> Capture)
    requires 1 < k && IsDrawable(capture(k - 1))
    ensures LeadingBlank(k, capture) + Singletons(Drawn(k, capture)) ==
      LeadingBlank(k - 1, capture) + Singletons(Drawn(k - 1, capture)) + [[k - 1]]
  {
    var d := Drawn(k - 1, capture);
    var blank := LeadingBlank(k - 1, capture);
    assert LeadingBlank(k, capture) == blank;
    assert Drawn(k, capture) == d + [k - 1];
    SinglesSnoc(d, k - 1);
    assert blank + (Singletons(d) + [[k - 1]]) == blank + Singletons(d) + [[k - 1]];
  }

  lemma FirstSlideDocument(n: nat, capture: nat -> Capture)
    requires 0 < n && IsDrawable(capture(0))
    ensures Replay(LeadingBlank(0, capture) + Singletons(Drawn(0, capture)), SlideEffects(0, n, capture(0))) ==
      LeadingBlank(1, capture) + Singletons(Drawn(1, capture))
  {
    var blank: seq<seq<nat>> := [[]];
    assert LeadingBlank(0, capture) + Singletons(Drawn(0, capture)) == blank;
    SlideEffectsDocument(blank, 0, n, capture(0));
    assert Drawn(1, capture) == [0];
  }

  /**
   * After `k` iterations the document jsPDF started with holds one page per
   * drawn slide, after a blank page if slide 0 was not drawn.
   */
  lemma {:induction false} SlidesDocument(k: nat, n: nat, capture: nat -> Capture)
    requires k <= n
    ensures Replay([[]], SlidesUpTo(k, n, capture)) == LeadingBlank(k, capture) + Singletons(Drawn(k, capture))
  {
    if k == 0 {
      SlidesDocumentBase(n, capture);
    } else {
      SlidesDocument(k - 1, n, capture);
      SlidesDocumentStep(k, n, capture);
    }
  }

  lemma SlidesDocumentBase(n: nat, capture: nat -> Capture)
    ensures Replay([[]], SlidesUpTo(0, n, capture)) == LeadingBlank(0, capture) + Singletons(Drawn(0, capture))
  {
    assert SlidesUpTo(0, n, capture) == [];
    assert Drawn(0, capture) == [];
    var blank: seq<seq<nat>> := [[]];
    assert blank + [] == blank;
  }

  /** The closing calls leave the document alone. */
  lemma ClosingLeavesDocument(title: string)
    ensures LeavesDocument(Closing(title))
  {
  }

  /**
   * The saved document has one page per drawn slide, each holding that slide's
   * image alone, preceded by a blank page when slide 0 was not drawn.
   */
  lemma ExportDocument(title: string, totalSlides: int, capture: nat -> Capture)
    requires Export(title, totalSlides, capture).outcome == Done
    ensures Replay([], Export(title, totalSlides, capture).effects) ==
      (if IsDrawable(capture(0)) then [] else [[]]) + Singletons(Drawn(totalSlides, capture))
  {
    var n: nat := totalSlides;
    var slides := SlidesUpTo(n, n, capture);
    SlidesDocument(n, n, capture);
    OpeningDocument();
    ReplayConcat([], Opening, slides);
    ReplayConcat([], Opening + slides, Closing(title));
    ClosingLeavesDocument(title);
    ReplayLeavesDocument(Replay([], Opening + slides), Closing(title));
  }
}
