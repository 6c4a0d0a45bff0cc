/** `src/tools/ImageCompressor.jsx`: the compressor's state and the logic of its handlers.
    `browser-image-compression` itself is left to the caller; only the options it is given
    and the size of what it returns are modelled. */
module ImageCompressor {
  import opened Wrappers
  import opened JsMath
  import opened FileNames
  import opened ByteFormat

  /** The two properties of the uploaded `File` the component reads. */
  datatype Upload = Upload(name: string, size: nat)

  /** The comparison slider's bounding rectangle, as far as the handlers read it. */
  datatype Rect = Rect(left: real, width: real)

  /** The component state: the upload, the compressed result's size, the settings, and the
      comparison slider (whose position is NaN, here `None`, after a drag over a rectangle
      of zero width). */
  datatype State = State(original: Option<Upload>, compressed: Option<nat>, quality: real,
                         useWebP: bool, sliderPosition: Option<real>, dragging: bool)

  const Initial := State(None, None, 0.8, true, Some(50.0), false)

  /** The first render has nothing to compress, compare or download, and its settings are
      exactly those the first drop asks for: quality 0.8 to WebP. */
  lemma InitialState(file: Upload)
    ensures SettingsRequest(Initial).None? && DownloadName(Initial).None?
    ensures GetSavings(Initial) == Savings(PlainZero, 0, false)
    ensures Initial.sliderPosition == Some(50.0) && !Initial.dragging
    ensures OnDrop(Initial, Some(file)).1 == SettingsRequest(OnDrop(Initial, Some(file)).0)
  {
  }

  // ---------------------------------------------------------------------------------
  // Compression requests
  // ---------------------------------------------------------------------------------

  /** The options object handed to `imageCompression`. */
  datatype CompressionOptions = CompressionOptions(maxSizeMB: real, maxWidthOrHeight: nat,
                                                   useWebWorker: bool, initialQuality: real,
                                                   fileType: Option<string>)

  /** `compressImage(file, q, asWebP)`'s options: a 2 MB target, at most 1920 pixels a side,
      the chosen quality, and WebP output exactly when asked for. */
  function CompressionRequest(q: real, asWebP: bool): (o: CompressionOptions)
    ensures o.fileType == Some("image/webp") <==> asWebP
    ensures o.fileType.None? <==> !asWebP
    ensures o.initialQuality == q && o.maxWidthOrHeight == 1920 && o.maxSizeMB == 2.0
    ensures o.useWebWorker
  {
    CompressionOptions(2.0, 1920, true, q, if asWebP then Some("image/webp") else None)
  }

  /** `onDrop`: with a file, it becomes the original, the old result is dropped and a first
      compression at quality 0.8 to WebP is requested, whatever the current settings; with
      no file nothing happens. */
  function OnDrop(s: State, file: Option<Upload>): (r: (State, Option<CompressionOptions>))
    ensures file.None? ==> r == (s, None)
    ensures file.Some? ==> r.0.original == file && r.0.compressed.None?
    ensures file.Some? ==> r.1 == Some(CompressionRequest(0.8, true))
    ensures r.0.quality == s.quality && r.0.useWebP == s.useWebP
    ensures r.0.(original := s.original, compressed := s.compressed) == s
  {
    if file.None? then (s, None)
    else (s.(original := file, compressed := None), Some(CompressionRequest(0.8, true)))
  }

  /** The debounced effect after a settings change: a compression with the current
      settings, if there is an original. */
  function SettingsRequest(s: State): (o: Option<CompressionOptions>)
    ensures o.None? <==> s.original.None?
    ensures o.Some? ==> o.value == CompressionRequest(s.quality, s.useWebP)
  {
    if s.original.None? then None else Some(CompressionRequest(s.quality, s.useWebP))
  }

  /** The library's answer: a blob of some size replaces the result; a failure is only
      logged, so the state is unchanged. */
  function CompressionDone(s: State, outcome: Result<nat>): (t: State)
    ensures outcome.Ok? ==> t == s.(compressed := Some(outcome.value))
    ensures outcome.Err? ==> t == s
  {
    match outcome
    case Ok(size) => s.(compressed := Some(size))
    case Err(_) => s
  }

  /** `handleReset`: no original and no result; settings and slider stay. */
  function HandleReset(s: State): (t: State)
    ensures t.original.None? && t.compressed.None?
    ensures SettingsRequest(t).None?
    ensures t.(original := s.original, compressed := s.compressed) == s
  {
    s.(original := None, compressed := None)
  }

  // ---------------------------------------------------------------------------------
  // Savings
  // ---------------------------------------------------------------------------------

  const SizeUnits: seq<string> := ["B", "KB", "MB", "GB"]

  /** The compressor's `formatBytes(bytes)`, with its default of 2 decimals. */
  function FormatSize(bytes: int): Size {
    FormatBytes(bytes, 2, SizeUnits)
  }

  /** The saved size as displayed: the plain number 0 when there is nothing to compare, or
      `formatBytes` of the saved bytes (NaN text when the result grew). */
  datatype SavedSize = PlainZero | Formatted(size: Size)

  datatype Savings = Savings(size: SavedSize, percent: int, isLarger: bool)

  /** `((saved / originalSize) * 100).toFixed(0)` compared with 0: the rounded percentage
      when it is positive, and 0 otherwise (also when the original is empty, where the
      division gives NaN or -Infinity). */
  function SavedPercent(originalSize: nat, compressedSize: nat): (p: int)
    ensures p >= 0
    ensures originalSize == 0 || compressedSize >= originalSize ==> p == 0
    ensures 0 < originalSize && compressedSize < originalSize ==>
              var percent := (originalSize - compressedSize) as real * 100.0 / originalSize as real;
              p as real - 0.5 <= percent < p as real + 0.5
  {
    var saved := originalSize - compressedSize;
    if originalSize == 0 then 0
    else
      var n := FixedUnits(saved as real / originalSize as real * 100.0, 0);
      if saved <= 0 then
        NonPositiveRoundsDown(saved, originalSize, n);
        0
      else
        ShareTimesHundred(saved, originalSize);
        if n > 0 then n
        else 0
  }

  /** The share taken as a fraction then scaled is the scaled share: `s / o * 100 == s * 100 / o`. */
  lemma ShareTimesHundred(saved: int, originalSize: nat)
    requires originalSize > 0
    ensures saved as real / originalSize as real * 100.0 * Pow(10, 0) as real
            == saved as real * 100.0 / originalSize as real
  {
    var q := saved as real / originalSize as real;
    assert q * originalSize as real == saved as real;
    assert (q * 100.0) * originalSize as real == saved as real * 100.0;
  }

  lemma NonPositiveRoundsDown(saved: int, originalSize: nat, n: int)
    requires originalSize > 0 && saved <= 0
    requires n as real - 0.5 <= saved as real / originalSize as real * 100.0
                                  * Pow(10, 0) as real <= n as real + 0.5
    ensures n <= 0
  {
    var q := saved as real / originalSize as real;
    assert q <= 0.0;
  }

  /** `getSavings`. */
  function GetSavings(s: State): (r: Savings)
    ensures s.original.None? || s.compressed.None? ==> r == Savings(PlainZero, 0, false)
    ensures s.original.Some? && s.compressed.Some? ==>
              var saved := s.original.value.size - s.compressed.value;
              r.size == Formatted(FormatSize(saved))
              && r.percent == SavedPercent(s.original.value.size, s.compressed.value)
              && (r.isLarger <==> s.compressed.value > s.original.value.size)
  {
    if s.original.None? || s.compressed.None? then Savings(PlainZero, 0, false)
    else
      var saved := s.original.value.size - s.compressed.value;
      Savings(Formatted(FormatSize(saved)),
              SavedPercent(s.original.value.size, s.compressed.value), saved < 0)
  }

  /** The displayed savings are consistent: the percentage is between 0 and 100, it is
      positive only when the result is smaller, a larger result shows NaN as its saved size,
      and an unchanged size shows `0 B`. */
  lemma SavingsConsistent(s: State)
    requires s.original.Some? && s.compressed.Some?
    ensures 0 <= GetSavings(s).percent <= 100
    ensures GetSavings(s).percent > 0 ==> s.compressed.value < s.original.value.size
    ensures GetSavings(s).isLarger <==> GetSavings(s).size == Formatted(NotANumber)
    ensures s.compressed.value == s.original.value.size ==>
              GetSavings(s).size == Formatted(Size(0.0, "B"))
  {
    var o, c := s.original.value.size, s.compressed.value;
    if o > 0 && c < o {
      PercentAtMost100(o, c, FixedUnits((o - c) as real / o as real * 100.0, 0));
    }
  }

  lemma PercentAtMost100(originalSize: nat, compressedSize: nat, n: int)
    requires 0 <= compressedSize < originalSize
    requires n as real - 0.5 <= (originalSize - compressedSize) as real / originalSize as real
                                  * 100.0 * Pow(10, 0) as real <= n as real + 0.5
    ensures n <= 100
  {
    var q := (originalSize - compressedSize) as real / originalSize as real;
    assert q * originalSize as real == (originalSize - compressedSize) as real;
    assert q <= 1.0;
  }

  // ---------------------------------------------------------------------------------
  // Comparison slider
  // ---------------------------------------------------------------------------------

  /** The pointer's offset clamped to the rectangle, as a percentage of its width; NaN
      (`None`) when the width is 0. */
  function SliderPercent(clientX: real, rect: Rect): (p: Option<real>)
    requires rect.width >= 0.0
    ensures p.None? <==> rect.width == 0.0
    ensures p.Some? ==> 0.0 <= p.value <= 100.0
  {
    var x := Max(0.0, Min(clientX - rect.left, rect.width));
    if rect.width == 0.0 then None
    else
      ClampedShare(x, rect.width);
      Some(x / rect.width * 100.0)
  }

  function Min(a: real, b: real): real {
    if a <= b then a else b
  }

  function Max(a: real, b: real): real {
    if a >= b then a else b
  }

  lemma ClampedShare(x: real, width: real)
    requires 0.0 <= x <= width && width > 0.0
    ensures 0.0 <= x / width * 100.0 <= 100.0
  {
    assert x / width <= 1.0;
  }

  /** Inside the rectangle the slider follows the pointer exactly; left of it the slider
      sits at 0 and right of it at 100. */
  lemma SliderFollowsPointer(clientX: real, rect: Rect)
    requires rect.width > 0.0
    ensures clientX <= rect.left ==> SliderPercent(clientX, rect) == Some(0.0)
    ensures clientX >= rect.left + rect.width ==> SliderPercent(clientX, rect) == Some(100.0)
    ensures rect.left <= clientX <= rect.left + rect.width ==>
              rect.left + SliderPercent(clientX, rect).value / 100.0 * rect.width == clientX
  {
    var x := clientX - rect.left;
    assert rect.width / rect.width == 1.0;
    if rect.left <= clientX <= rect.left + rect.width {
      assert x / rect.width * 100.0 / 100.0 * rect.width == x;
    }
  }

  /** `handleMouseMove`: only while dragging over a mounted slider does the position move. */
  function HandleMouseMove(s: State, sliderMounted: bool, clientX: real, rect: Rect)
    : (t: State)
    requires rect.width >= 0.0
    ensures !s.dragging || !sliderMounted ==> t == s
    ensures s.dragging && sliderMounted ==>
              t == s.(sliderPosition := SliderPercent(clientX, rect))
  {
    if !s.dragging || !sliderMounted then s
    else s.(sliderPosition := SliderPercent(clientX, rect))
  }

  /** `handleTouchMove`: the same with the first touch point. */
  function HandleTouchMove(s: State, sliderMounted: bool, touches: seq<real>, rect: Rect)
    : (t: State)
    requires rect.width >= 0.0
    requires s.dragging && sliderMounted ==> |touches| > 0
    ensures t == if !s.dragging || !sliderMounted then s
                 else HandleMouseMove(s, sliderMounted, touches[0], rect)
  {
    if !s.dragging || !sliderMounted then s
    else s.(sliderPosition := SliderPercent(touches[0], rect))
  }

  /** Every move handler keeps a position that was in [0, 100] in [0, 100]. */
  lemma SliderStaysInRange(s: State, sliderMounted: bool, clientX: real, rect: Rect)
    requires rect.width > 0.0
    requires s.sliderPosition.Some? && 0.0 <= s.sliderPosition.value <= 100.0
    ensures var t := HandleMouseMove(s, sliderMounted, clientX, rect);
            t.sliderPosition.Some? && 0.0 <= t.sliderPosition.value <= 100.0
  {
  }

  // ---------------------------------------------------------------------------------
  // Download name
  // ---------------------------------------------------------------------------------

  /** `handleDownload`: nothing without a result; otherwise the original's name up to its
      last dot, then `_min.` and `webp` (with WebP on) or the original's last dot-segment. */
  function DownloadName(s: State): (name: Option<string>)
    requires s.compressed.Some? ==> s.original.Some?
    ensures name.None? <==> s.compressed.None?
  {
    if s.compressed.None? then None
    else
      var fileName := s.original.value.name;
      var ext := if s.useWebP then "webp" else Extension(fileName);
      Some(StripExtension(fileName) + "_min." + ext)
  }

  /** For `base.ext` the download is `base_min.ext`, or `base_min.webp` with WebP on. A name
      without a dot keeps nothing before the suffix and, with WebP off, reuses the whole
      name as its extension: `README` gives `_min.README`. */
  lemma DownloadNameParts(s: State, base: string, ext: string)
    requires s.compressed.Some? && s.original.Some? && '.' !in ext
    ensures var t := s.(original := Some(s.original.value.(name := base + "." + ext)));
            DownloadName(t) == Some(base + "_min." + (if s.useWebP then "webp" else ext))
    ensures '.' !in base ==>
              var t := s.(original := Some(s.original.value.(name := base)));
              DownloadName(t) == Some("_min." + (if s.useWebP then "webp" else base))
  {
    SplitAtLastDot(base, ext);
    if '.' !in base {
      assert StripExtension(base) == "" && Extension(base) == base;
      var e := if s.useWebP then "webp" else base;
      assert "" + "_min." + e == "_min." + e;
    }
  }
}
