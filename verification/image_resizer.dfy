/** `src/tools/ImageResizer.jsx`: the resizer's state and the logic of its handlers; the
    pica resize and encode are left to the caller, and only the request they get is modelled. */
module ImageResizer {
  import opened Wrappers
  import opened JsMath
  import opened Numerals
  import opened FileNames
  import opened ByteFormat

  /** The output formats offered, with the names used in MIME types and file names. */
  datatype Format = Jpeg | Png | Webp {
    function Name(): string {
      match this
      case Jpeg => "jpeg"
      case Png => "png"
      case Webp => "webp"
    }
  }

  /** The component state the handlers read and write: the uploaded file's name, the
      requested size, the locked ratio, the output settings and whether a result exists. */
  datatype State = State(fileName: Option<string>, width: int, height: int,
                         aspectRatio: real, lockRatio: bool, format: Format, quality: int,
                         hasResult: bool)

  /** The state on first render. */
  const Initial := State(None, 0, 0, 1.0, true, Jpeg, 90, false)

  /** The first render is valid, asks pica for nothing and offers no download; the lock is
      on and a lossy encoder would get quality 0.9. */
  lemma InitialState()
    ensures Valid(Initial)
    ensures ResizeJob(Initial).None? && DownloadName(Initial).None?
    ensures Initial.lockRatio && EncoderQuality(Initial.format, Initial.quality) == Some(0.9)
  {
  }

  /** The ratio every handler divides by stays positive. */
  predicate Valid(s: State) {
    s.aspectRatio > 0.0
  }

  /** `img.onload` after a drop: the size fields take the image's natural size and the
      ratio becomes naturalWidth / naturalHeight. */
  function OnImageLoad(s: State, name: string, naturalWidth: Positive, naturalHeight: Positive)
    : (t: State)
    ensures Valid(t)
    ensures t.fileName == Some(name)
    ensures t.width == naturalWidth && t.height == naturalHeight
    ensures t.aspectRatio * naturalHeight as real == naturalWidth as real
    ensures t.(fileName := s.fileName, width := s.width, height := s.height,
               aspectRatio := s.aspectRatio) == s
  {
    s.(fileName := Some(name), width := naturalWidth, height := naturalHeight,
       aspectRatio := naturalWidth as real / naturalHeight as real)
  }

  /** The locked height for a width: round(width / ratio). */
  function HeightFor(width: int, ratio: real): int
    requires ratio > 0.0
  {
    Round(width as real / ratio)
  }

  /** The locked width for a height: round(height x ratio). */
  function WidthFor(height: int, ratio: real): int {
    Round(height as real * ratio)
  }

  /** `handleWidthChange`: the typed text goes through `parseInt(...) || 0`. */
  function HandleWidthChange(s: State, text: string): (t: State)
    requires Valid(s)
    ensures Valid(t) && t.width == ParseIntOrZero(text)
    ensures s.lockRatio && t.width > 0 ==> t.height == Round(t.width as real / s.aspectRatio)
    ensures !s.lockRatio || t.width <= 0 ==> t.height == s.height
    ensures t.(width := s.width, height := s.height) == s
  {
    var val := ParseIntOrZero(text);
    SetWidth(s, val)
  }

  /** The width is stored; with the lock on and a positive width the height follows as
      round(width / ratio). Nothing else changes. */
  function SetWidth(s: State, val: int): (t: State)
    requires Valid(s)
    ensures Valid(t) && t.width == val
    ensures s.lockRatio && val > 0 ==> t.height == HeightFor(val, s.aspectRatio)
    ensures !s.lockRatio || val <= 0 ==> t.height == s.height
    ensures t.(width := s.width, height := s.height) == s
  {
    if s.lockRatio && val > 0 then
      s.(width := val, height := HeightFor(val, s.aspectRatio))
    else
      s.(width := val)
  }

  /** `handleHeightChange`, the mirror image of `handleWidthChange`. */
  function HandleHeightChange(s: State, text: string): (t: State)
    requires Valid(s)
    ensures Valid(t) && t.height == ParseIntOrZero(text)
    ensures var val := ParseIntOrZero(text);
            s.lockRatio && val > 0 ==> t.width == WidthFor(val, s.aspectRatio)
    ensures !s.lockRatio || t.height <= 0 ==> t.width == s.width
    ensures t.(width := s.width, height := s.height) == s
  {
    var val := ParseIntOrZero(text);
    SetHeight(s, val)
  }

  /** The height is stored; with the lock on and a positive height the width follows as
      round(height x ratio). Nothing else changes. */
  function SetHeight(s: State, val: int): (t: State)
    requires Valid(s)
    ensures Valid(t) && t.height == val
    ensures s.lockRatio && val > 0 ==> t.width == WidthFor(val, s.aspectRatio)
    ensures !s.lockRatio || val <= 0 ==> t.width == s.width
    ensures t.(width := s.width, height := s.height) == s
  {
    if s.lockRatio && val > 0 then
      s.(height := val, width := WidthFor(val, s.aspectRatio))
    else
      s.(height := val)
  }

  /** Text that does not start with a number (after blanks and a sign, or after a `0x`
      prefix) is stored as 0, and 0 moves neither side's partner. */
  lemma NonNumericInput(s: State, text: string)
    requires Valid(s)
    requires NoMagnitude(Unsigned(text))
    ensures HandleWidthChange(s, text) == s.(width := 0)
    ensures HandleHeightChange(s, text) == s.(height := 0)
  {
    NonNumericIsZero(text);
  }

  /** The lock round-trips the natural size: after loading an image, typing its natural
      width gives back its natural height, and typing its natural height gives back its
      natural width. */
  lemma NaturalSizeRoundTrip(s: State, name: string, naturalWidth: Positive,
                             naturalHeight: Positive)
    requires s.lockRatio
    ensures var loaded := OnImageLoad(s, name, naturalWidth, naturalHeight);
            HandleWidthChange(loaded, DecimalString(naturalWidth)).height == naturalHeight
    ensures var loaded := OnImageLoad(s, name, naturalWidth, naturalHeight);
            HandleHeightChange(loaded, DecimalString(naturalHeight)).width == naturalWidth
  {
    var loaded := OnImageLoad(s, name, naturalWidth, naturalHeight);
    TypedNumber(naturalWidth);
    TypedNumber(naturalHeight);
    NaturalSizeLocked(loaded, naturalWidth, naturalHeight);
  }

  /** Typing a natural number's decimal numeral stores that number. */
  lemma TypedNumber(n: nat)
    ensures ParseIntOrZero(DecimalString(n)) == n
  {
    ParseDecimalString(n, []);
    assert DecimalString(n) + [] == DecimalString(n);
  }

  lemma NaturalSizeLocked(s: State, naturalWidth: Positive, naturalHeight: Positive)
    requires s.lockRatio && s.aspectRatio == naturalWidth as real / naturalHeight as real
    ensures SetWidth(s, naturalWidth).height == naturalHeight
    ensures SetHeight(s, naturalHeight).width == naturalWidth
  {
    RatioRoundTrip(naturalWidth as real, naturalHeight as real, s.aspectRatio);
    RoundOfInteger(naturalHeight);
    RoundOfInteger(naturalWidth);
  }

  lemma RatioRoundTrip(w: real, h: real, r: real)
    requires w > 0.0 && h > 0.0 && r == w / h
    ensures w / r == h && h * r == w
  {
    assert r * h == w;
  }

  /** What the debounced effect hands to pica: the canvas size, the unsharp settings, and
      the `toBlob` MIME type and quality. */
  datatype Job = Job(width: int, height: int, unsharpAmount: real, unsharpRadius: real,
                     unsharpThreshold: real, mimeType: string, quality: Option<real>)

  /** `format === 'png' ? undefined : quality / 100`. */
  function EncoderQuality(format: Format, quality: int): (q: Option<real>)
    ensures format == Png <==> q.None?
    ensures q.Some? ==> q.value * 100.0 == quality as real
  {
    if format == Png then None else Some(quality as real / 100.0)
  }

  /** The slider runs from 10 to 100, so a lossy encoder gets a quality in [0.1, 1]. */
  lemma EncoderQualityRange(format: Format, quality: int)
    requires 10 <= quality <= 100 && format != Png
    ensures 0.1 <= EncoderQuality(format, quality).value <= 1.0
  {
  }

  /** The resize effect: nothing runs without a file or with a zero width or height;
      otherwise pica gets the requested size and the chosen format. */
  function ResizeJob(s: State): (job: Option<Job>)
    ensures job.None? <==> s.fileName.None? || s.width == 0 || s.height == 0
    ensures job.Some? ==> job.value.width == s.width && job.value.height == s.height
    ensures job.Some? ==> job.value.mimeType == "image/" + s.format.Name()
    ensures job.Some? ==> job.value.quality == EncoderQuality(s.format, s.quality)
  {
    if s.fileName.None? || s.width == 0 || s.height == 0 then None
    else Some(Job(s.width, s.height, 80.0, 0.6, 2.0, "image/" + s.format.Name(),
                  EncoderQuality(s.format, s.quality)))
  }

  /** `handleDownload`: nothing without a result; otherwise the name up to its last dot,
      then `_vividforge.` and the format. */
  function DownloadName(s: State): (name: Option<string>)
    requires s.hasResult ==> s.fileName.Some?
    ensures name.Some? <==> s.hasResult
    ensures name.Some? ==>
              name.value == StripExtension(s.fileName.value) + "_vividforge." + s.format.Name()
  {
    if !s.hasResult then None
    else Some(StripExtension(s.fileName.value) + "_vividforge." + s.format.Name())
  }

  /** For `photo.v2.png` the download is `photo.v2_vividforge.<format>`; a name without a dot
      loses it entirely (`README` gives `_vividforge.<format>`). */
  lemma DownloadNameParts(s: State, base: string, ext: string)
    requires s.hasResult && '.' !in ext
    ensures var t := s.(fileName := Some(base + "." + ext));
            DownloadName(t) == Some(base + "_vividforge." + s.format.Name())
    ensures '.' !in base ==>
              DownloadName(s.(fileName := Some(base))) == Some("_vividforge." + s.format.Name())
  {
    SplitAtLastDot(base, ext);
    if '.' !in base {
      assert StripExtension(base) == "";
      assert "" + "_vividforge." + s.format.Name() == "_vividforge." + s.format.Name();
    }
  }

  /** `handleReset`: the file, the result and both sides are cleared; the ratio, the lock
      and the output settings stay. */
  function HandleReset(s: State): (t: State)
    ensures t.fileName.None? && !t.hasResult
    ensures ResizeJob(t).None? && DownloadName(t).None?
    ensures t.aspectRatio == s.aspectRatio && t.lockRatio == s.lockRatio
    ensures t.format == s.format && t.quality == s.quality
    ensures t.width == 0 && t.height == 0
    ensures t.(fileName := s.fileName, hasResult := s.hasResult, width := s.width,
               height := s.height) == s
  {
    s.(fileName := None, hasResult := false, width := 0, height := 0)
  }

  const SizeUnits: seq<string> := ["Bytes", "KB", "MB", "GB"]

  /** The resizer's `formatBytes(bytes)`, with its default of 2 decimals. */
  function EstimatedSize(bytes: int): Size {
    FormatBytes(bytes, 2, SizeUnits)
  }

  /** 0 bytes read `0 Bytes`; from 1 byte up to 1 TiB the unit is the `i`-th of Bytes, KB,
      MB, GB where 1024^i <= bytes < 1024^(i+1), and the amount is between 1 and 1024. */
  lemma EstimatedSizeUnit(bytes: nat, i: nat)
    requires i < 4 && Pow(Kilo, i) <= bytes < Pow(Kilo, i + 1)
    ensures EstimatedSize(0) == Size(0.0, "Bytes")
    ensures EstimatedSize(bytes).Size? && EstimatedSize(bytes).unit == SizeUnits[i]
    ensures 1.0 <= EstimatedSize(bytes).amount <= 1024.0
  {
    FormatBytesUnit(bytes, 2, SizeUnits, i);
  }
}
