/** `src/workers/imageWorker.js`: the message handler of the image web worker. Decoding the
    posted file (`createImageBitmap`) and drawing and encoding the result (`OffscreenCanvas`,
    `convertToBlob`) are parameters that either succeed or fail with a message. */
module ImageWorker {
  import opened Wrappers
  import opened JsMath

  /** A decoded image; the browser refuses to decode an image with a zero side. */
  datatype Bitmap = Bitmap(width: Positive, height: Positive)

  /** `e.data.options`: numbers that may be missing, a flag and the output format. */
  datatype Options = Options(width: Option<real>, height: Option<real>, maintainAspect: bool,
                             format: string, scale: Option<real>)

  /** `e.data`: the request type, the posted file (opaque here) and the options, which the
      sender may leave out (`undefined`). */
  datatype Request<File> = Request(kind: string, file: File, options: Option<Options>)

  /** The canvas size handed to `OffscreenCanvas`; a side may be missing, as when neither
      the option nor the aspect rule supplies it. */
  datatype Target = Target(width: Option<real>, height: Option<real>)

  /** The `convertToBlob` options: a MIME type and, for lossy formats, a quality. */
  datatype Encoding = Encoding(mimeType: string, quality: Option<real>)

  /** What the worker posts back: `{success: true, blob}` or `{success: false, error}`. */
  datatype Reply<Blob> = Success(blob: Blob) | Failure(error: string)

  /** The RESIZE target. Without `maintainAspect` the requested sides are used as given.
      With it, a truthy width wins and the height follows from the bitmap's ratio; otherwise
      a truthy height sets the width. The derived side is not rounded. */
  function ResizeTarget(options: Options, bitmap: Bitmap): (t: Target)
    ensures !options.maintainAspect ==> t == Target(options.width, options.height)
    ensures options.maintainAspect && Truthy(options.width) ==>
              t.width == options.width && t.height.Some?
              && t.height.value * bitmap.width as real == options.width.value * bitmap.height as real
    ensures options.maintainAspect && !Truthy(options.width) && Truthy(options.height) ==>
              t.height == options.height && t.width.Some?
              && t.width.value * bitmap.height as real == options.height.value * bitmap.width as real
    ensures options.maintainAspect && !Truthy(options.width) && !Truthy(options.height) ==>
              t == Target(options.width, options.height)
  {
    var ratio := bitmap.width as real / bitmap.height as real;
    if !options.maintainAspect then
      Target(options.width, options.height)
    else if Truthy(options.width) then
      DivideByRatio(options.width.value, bitmap.width as real, bitmap.height as real, ratio);
      Target(options.width, Some(options.width.value / ratio))
    else if Truthy(options.height) then
      Target(Some(options.height.value * ratio), options.height)
    else
      Target(options.width, options.height)
  }

  lemma DivideByRatio(w: real, bw: real, bh: real, ratio: real)
    requires bw > 0.0 && bh > 0.0 && ratio == bw / bh
    ensures (w / ratio) * bw == w * bh
  {
    assert ratio * bh == bw;
    assert (w / ratio) * ratio == w;
    calc {
      (w / ratio) * bw;
      (w / ratio) * (ratio * bh);
      ((w / ratio) * ratio) * bh;
    }
  }

  /** With the aspect kept, the target has the bitmap's ratio whichever side was given. */
  lemma ResizeKeepsRatio(options: Options, bitmap: Bitmap)
    requires options.maintainAspect && (Truthy(options.width) || Truthy(options.height))
    ensures var t := ResizeTarget(options, bitmap);
            && t.width.Some? && t.height.Some?
            && t.width.value * bitmap.height as real == t.height.value * bitmap.width as real
  {
  }

  /** The derived side can be fractional: a 3 x 2 bitmap resized to width 2 gets height 4/3. */
  lemma ResizeMayBeFractional()
    ensures ResizeTarget(Options(Some(2.0), None, true, "png", None), Bitmap(3, 2))
              == Target(Some(2.0), Some(4.0 / 3.0))
  {
    assert 2.0 / (3.0 / 2.0) == 4.0 / 3.0;
  }

  /** The UPSCALE target: both bitmap sides times `options.scale || 2`. */
  function UpscaleTarget(options: Options, bitmap: Bitmap): (t: Target)
    ensures t.width.Some? && t.height.Some?
    ensures t.width.value * bitmap.height as real == t.height.value * bitmap.width as real
    ensures Truthy(options.scale) ==>
              t == Target(Some(bitmap.width as real * options.scale.value),
                          Some(bitmap.height as real * options.scale.value))
    ensures !Truthy(options.scale) ==>
              t == Target(Some(2.0 * bitmap.width as real), Some(2.0 * bitmap.height as real))
  {
    var w, h := bitmap.width as real, bitmap.height as real;
    if Truthy(options.scale) then ScaledTarget(w, h, options.scale.value)
    else ScaledTarget(w, h, 2.0)
  }

  /** Both sides times `k`; the cross products stay equal, so the ratio is kept. */
  function ScaledTarget(w: real, h: real, k: real): (t: Target)
    ensures t.width == Some(w * k) && t.height == Some(h * k)
    ensures t.width.value * h == t.height.value * w
  {
    assert (w * k) * h == (w * h) * k;
    assert (h * k) * w == (w * h) * k;
    Target(Some(w * k), Some(h * k))
  }

  /** `self.onmessage`. A message without data posts nothing: its destructuring sits
      outside `try`, so the error escapes the handler. RESIZE and UPSCALE each post exactly
      one reply: a success carrying the encoded blob, or a failure carrying the message of
      the first step that threw. Decoding comes first; then reading missing options throws
      a TypeError whose engine-specific message is `typeError(kind)`: RESIZE destructures
      them and UPSCALE reads `options.scale`, so the two messages may differ. Any other
      request type posts nothing. */
  function HandleMessage<File, Blob>(data: Option<Request<File>>,
                                     decode: File -> Result<Bitmap>,
                                     encode: (Target, Encoding) -> Result<Blob>,
                                     typeError: string -> string)
    : (reply: Option<Reply<Blob>>)
    ensures reply.Some? <==>
              data.Some? && (data.value.kind == "RESIZE" || data.value.kind == "UPSCALE")
    ensures reply.Some? && decode(data.value.file).Err? ==>
              reply == Some(Failure(decode(data.value.file).message))
    ensures reply.Some? && decode(data.value.file).Ok? && data.value.options.None? ==>
              reply == Some(Failure(typeError(data.value.kind)))
    ensures data.Some? && data.value.kind == "RESIZE" && decode(data.value.file).Ok?
            && data.value.options.Some? ==>
              var options := data.value.options.value;
              var t := ResizeTarget(options, decode(data.value.file).value);
              var e := Encoding("image/" + options.format, Some(0.9));
              reply == Some(if encode(t, e).Ok? then Success(encode(t, e).value)
                            else Failure(encode(t, e).message))
    ensures data.Some? && data.value.kind == "UPSCALE" && decode(data.value.file).Ok?
            && data.value.options.Some? ==>
              var t := UpscaleTarget(data.value.options.value, decode(data.value.file).value);
              var e := Encoding("image/png", None);
              reply == Some(if encode(t, e).Ok? then Success(encode(t, e).value)
                            else Failure(encode(t, e).message))
  {
    match data
    case None => None
    case Some(request) =>
      if request.kind != "RESIZE" && request.kind != "UPSCALE" then
        None
      else
        match decode(request.file)
        case Err(message) => Some(Failure(message))
        case Ok(bitmap) =>
          match request.options
          case None => Some(Failure(typeError(request.kind)))
          case Some(options) =>
            var resize := request.kind == "RESIZE";
            var target := if resize then ResizeTarget(options, bitmap)
                          else UpscaleTarget(options, bitmap);
            var encoding := if resize then Encoding("image/" + options.format, Some(0.9))
                            else Encoding("image/png", None);
            match encode(target, encoding)
            case Err(message) => Some(Failure(message))
            case Ok(blob) => Some(Success(blob))
  }
}
