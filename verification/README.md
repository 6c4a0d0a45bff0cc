# VividForge image tools, modelled in Dafny

VividForge is a browser toolbox of four image tools: a background remover, a resizer, a
compressor and an upscaler. It also has a web worker that resizes and upscales bitmaps, and
two small utilities: a device check and an upload validator. The heavy pixel work is done by
third-party libraries. What the repository itself computes is modelled here:

- **Edge erosion and backdrop compositing** (`BackgroundRemover`, `Compositing`). Each
  erosion level draws the subject canvas onto itself four times with the Porter Duff
  `destination-in` operator. The result is then drawn with `source-over` onto a transparent
  canvas or a solid fill.
  - Pixels are straight-alpha with exact `real` channels in [0, 1].
  - Each operator is checked against the premultiplied equations of section 9.1 of W3C
    Compositing and Blending Level 1.
  - The drawn source is transparent black outside its bitmap, as in the canvas drawing
    model of section 4.12.5 of the HTML Standard.
  - The main results:
    - one level multiplies each alpha by the alphas of its 3 x 3 neighbourhood;
    - after k levels a pixel is visible exactly when its whole (2k+1) x (2k+1) square was;
    - on hard cutouts erosion is binary square erosion;
    - the border is eaten;
    - colour is never changed;
    - alpha never grows.
- **Dimension arithmetic**:
  - the resizer's aspect lock (`ImageResizer`);
  - the worker's RESIZE/UPSCALE targets and reply (`ImageWorker`);
  - the pixel-budget clamp (`DeviceCheck`).
- **String and number helpers**:
  - `parseInt(...) || 0` (`Numerals`);
  - `Math.round`, `Math.floor` and `toFixed` (`JsMath`);
  - the `split('.')` file-name idioms (`FileNames`);
  - the shared `formatBytes` (`ByteFormat`);
  - the compressor's savings, slider and download name (`ImageCompressor`).
- **The upload validator** (`ImageLimits`).
- **The upscaler's progress ticker** and its `onDrop`/`handleUpscale` transitions
  (`ImageUpscaler`).

Browser objects are replaced by plain values. The libraries and browser calls whose result
matters become function parameters: `Math.sqrt`, `createImageBitmap`, `convertToBlob`, and
the UpscalerJS outcome. `Wrappers` holds `Option` and `Result`.

On erosion the model follows the code rather than the usual informal description
("cut one pixel from every side"):
- alpha is multiplied, not replaced by a minimum;
- the four draws each read the buffer left by the previous one, so diagonals count and one
  level acts as a 3 x 3 square;
- pixels outside the canvas count as transparent, so after k levels nothing within k pixels
  of an edge survives.

## Model

| member | source | states |
|---|---|---|
| BackgroundRemover.UpdateCanvas | src/tools/BackgroundRemover.jsx:59-112 | Running the canvas steps in source order (fill, copy, `erodeLevel` rounds of four shifted destination-in draws, then source-over) yields exactly `Render` of the cutout; nothing without a processed image |
| BackgroundRemover.SubjectLayer | src/tools/BackgroundRemover.jsx:80-86 | The subject canvas has the cutout's size and holds only valid pixels |
| BackgroundRemover.Erode | src/tools/BackgroundRemover.jsx:90-102 | Any number of levels keeps the canvas size and validity |
| BackgroundRemover.ErodeOnce | src/tools/BackgroundRemover.jsx:98-101 | One level (four shifted self-draws) keeps the canvas size and validity |
| BackgroundRemover.Render | src/tools/BackgroundRemover.jsx:66-109 | The preview has the cutout's size and valid pixels |
| BackgroundRemover.SubjectLayerIsCutout | src/tools/BackgroundRemover.jsx:86-90 | With `erodeLevel <= 0` the erosion block is skipped; the subject layer equals the cutout premultiplied, and exactly wherever the cutout is visible |
| BackgroundRemover.SelfDrawDestinationIn | src/tools/BackgroundRemover.jsx:91-101 | A destination-in self-draw at offset (dx, dy) keeps each pixel's colour and multiplies its alpha by the alpha at (x-dx, y-dy), which is 0 off the canvas |
| BackgroundRemover.SelfDrawShrinks | src/tools/BackgroundRemover.jsx:96-97 | A self-draw keeps straight colour, never raises alpha, and keeps transparent pixels transparent |
| BackgroundRemover.ErodeOnceShrinks | src/tools/BackgroundRemover.jsx:94-102 | One level keeps straight colour, never raises alpha, and keeps transparent pixels transparent |
| BackgroundRemover.ErodeOnceNeighbourhood | src/tools/BackgroundRemover.jsx:98-101 | One level's alpha is the product of the 3 x 3 neighbourhood's alphas with weights 1 2 1 / 2 4 2 / 1 2 1, because each draw reads the previous draw's buffer |
| BackgroundRemover.SelfDrawPairAlpha | src/tools/BackgroundRemover.jsx:98-101 | Two opposite destination-in self-draws, the second reading the buffer the first left, leave a(x, y)^2 x a(x - dx, y - dy) x a(x + dx, y + dy) at every pixel, (dx, dy) being the second draw's offset |
| BackgroundRemover.RowsAlpha | src/tools/BackgroundRemover.jsx:98-99 | After the left and right draws each alpha is the weighted product of its row of three |
| BackgroundRemover.ColumnsAlpha | src/tools/BackgroundRemover.jsx:100-101 | The up and down draws multiply each alpha in the same way by the alphas above and below it |
| BackgroundRemover.ErodeOnceVisible | src/tools/BackgroundRemover.jsx:98-101 | After one level a pixel is visible iff all nine pixels of its 3 x 3 square were, off-canvas ones counting as invisible |
| BackgroundRemover.ErodeVisible | src/tools/BackgroundRemover.jsx:94-102 | After k levels a pixel is visible iff every pixel of its (2k+1) x (2k+1) square was |
| BackgroundRemover.ErodeClearsBorder | src/tools/BackgroundRemover.jsx:98-101 | After k levels every pixel within k pixels of an edge is fully transparent |
| BackgroundRemover.ErodeKeepsColour | src/tools/BackgroundRemover.jsx:91-102 | Erosion never changes a pixel's straight colour, at any level |
| BackgroundRemover.ErodeStep | src/tools/BackgroundRemover.jsx:94-102 | Level k+1 leaves no more alpha than level k, anywhere |
| BackgroundRemover.ErodeMonotone | src/tools/BackgroundRemover.jsx:94-102 | A higher level never leaves more alpha than a lower one |
| BackgroundRemover.ErodeKeepsMask | src/tools/BackgroundRemover.jsx:94-102 | A hard 0/1 cutout stays a 0/1 cutout at every level |
| BackgroundRemover.ErodeMask | src/tools/BackgroundRemover.jsx:98-101 | On a 0/1 cutout, k levels are binary erosion by the (2k+1) x (2k+1) square: alpha 1 iff the whole square was opaque, else 0 |
| BackgroundRemover.RenderTransparent | src/tools/BackgroundRemover.jsx:73-109 | With backdrop `transparent` every preview pixel equals the eroded subject pixel (premultiplied, as the canvas stores it) |
| BackgroundRemover.RenderOverColour | src/tools/BackgroundRemover.jsx:73-109 | Over a colour every preview pixel is opaque and is the subject blended into the colour by its alpha; alpha 1 gives the subject, alpha 0 the colour |
| BackgroundRemover.OverTransparent | src/tools/BackgroundRemover.jsx:109 | Drawing the subject onto the blank canvas keeps its premultiplied value: a visible pixel comes out unchanged and an invisible one as transparent black
| BackgroundRemover.ProgressPercent | src/tools/BackgroundRemover.jsx:33 | The percentage times the total is 100 times the current count, and it lies in [0, 100] while the count does |
| BackgroundRemover.ProgressPercentBounds | src/tools/BackgroundRemover.jsx:33-35 | The reported rounded percentage stays in [0, 100]; it is 0 at the start and 100 at the end |
| Compositing.OverChannel | src/tools/BackgroundRemover.jsx:109 | A source-over straight channel lies in [0, 1] and times the result alpha gives the premultiplied sum |
| Compositing.Composite | src/tools/BackgroundRemover.jsx:91-105 | Both operators map valid pixels to valid pixels |
| Compositing.CompositeMatchesPorterDuff | src/tools/BackgroundRemover.jsx:91-105 | Both straight-alpha operators agree with the premultiplied Porter Duff equations (source-over: Fa 1, Fb 1-as; destination-in: Fa 0, Fb as) |
| Compositing.DestinationInMatchesPorterDuff | src/tools/BackgroundRemover.jsx:91 | Destination-in keeps the backdrop's colour and multiplies alphas, as the premultiplied equation says |
| Compositing.SourceOverMatchesPorterDuff | src/tools/BackgroundRemover.jsx:109 | Straight source-over agrees with co = cs + cb(1-as), ao = as + ab(1-as) |
| Compositing.Blank | src/tools/BackgroundRemover.jsx:67-69 | A new canvas is transparent black everywhere |
| Compositing.DrawImage | src/tools/BackgroundRemover.jsx:98-101 | Each in-canvas pixel becomes the operator applied to the shifted source pixel (transparent black off the source) and the old pixel; the size is kept |
| Compositing.FillRect | src/tools/BackgroundRemover.jsx:74-75 | Filling the whole canvas with an opaque colour makes every pixel that colour |
| Compositing.OverOpaque | src/tools/BackgroundRemover.jsx:75 | An opaque source covers anything beneath it |
| Compositing.OverOntoOpaque | src/tools/BackgroundRemover.jsx:109 | Source-over onto an opaque colour is opaque, each channel the alpha-weighted blend of source and backdrop |
| ImageResizer.OnImageLoad | src/tools/ImageResizer.jsx:64-71 | Loading sets the file name, the size to the natural size and the ratio to naturalWidth / naturalHeight (positive); nothing else changes |
| ImageResizer.HandleWidthChange | src/tools/ImageResizer.jsx:83-89 | The width becomes `parseInt(text)`, or 0 for NaN; locked with a positive width, the height becomes round(width / ratio); otherwise the height and everything else stay |
| ImageResizer.HandleHeightChange | src/tools/ImageResizer.jsx:91-97 | The height becomes `parseInt(text)`, or 0 for NaN; locked with a positive height, the width becomes round(height x ratio); otherwise the width and everything else stay |
| ImageResizer.SetWidth | src/tools/ImageResizer.jsx:85-88 | The width is stored; locked with a positive width, the height becomes round(width / ratio); otherwise the height and everything else are untouched |
| ImageResizer.SetHeight | src/tools/ImageResizer.jsx:93-96 | The height is stored; locked with a positive height, the width becomes round(height x ratio); otherwise the width and everything else are untouched |
| ImageResizer.NonNumericInput | src/tools/ImageResizer.jsx:84-92 | Text not starting with a number (after blanks and sign, or a bare `0x`) is stored as 0 and moves neither partner side |
| ImageResizer.NaturalSizeRoundTrip | src/tools/ImageResizer.jsx:65-96 | After loading, typing the natural width gives back the natural height, and typing the natural height gives back the natural width |
| ImageResizer.EncoderQuality | src/tools/ImageResizer.jsx:129 | No quality for PNG; otherwise a quality q with 100q = the slider value |
| ImageResizer.EncoderQualityRange | src/tools/ImageResizer.jsx:129 | For the 10-100 slider a lossy quality lies in [0.1, 1] |
| ImageResizer.ResizeJob | src/tools/ImageResizer.jsx:101-131 | No resize iff there is no file or the width or height is 0; otherwise pica gets the requested size, `image/<format>` and the encoder quality |
| ImageResizer.DownloadName | src/tools/ImageResizer.jsx:146-152 | A name iff there is a result: the file name minus its last dot-segment, then `_vividforge.` and the format |
| ImageResizer.DownloadNameParts | src/tools/ImageResizer.jsx:151-152 | `base.ext` downloads as `base_vividforge.<format>`; a name without a dot gives an empty base |
| ImageResizer.HandleReset | src/tools/ImageResizer.jsx:160-166 | After reset there is no file and no result and both sides are 0, so no resize and no download; ratio, lock and output settings stay, and nothing else changes |
| ImageResizer.InitialState | src/tools/ImageResizer.jsx:36-53 | The first render has a positive ratio, no resize job and no download; the lock is on and a lossy encoder would get quality 0.9 |
| ImageResizer.EstimatedSizeUnit | src/tools/ImageResizer.jsx:24-31 | 0 is `0 Bytes`; for 1024^i <= bytes < 1024^(i+1) the unit is the i-th of Bytes, KB, MB, GB and the amount is in [1, 1024] |
| ByteFormat.UnitIndex | src/tools/ImageResizer.jsx:30 | The unit index brackets the size: 1024^i <= bytes < 1024^(i+1) |
| ByteFormat.UnitIndexUnique | src/tools/ImageResizer.jsx:30 | Only one exponent brackets a size |
| ByteFormat.FormatBytes | src/tools/ImageCompressor.jsx:24-31 | Zero of the first unit iff the input is 0; NaN text iff it is negative |
| ByteFormat.FormatBytesUnit | src/tools/ImageCompressor.jsx:27-31 | The unit is table entry i iff 1024^i <= bytes < 1024^(i+1); the amount is the size in that unit rounded to the decimals, between 1 and 1024 |
| ImageWorker.ResizeTarget | src/workers/imageWorker.js:9-16 | Without `maintainAspect` the requested sides are kept; with it a truthy width wins and the height keeps the bitmap's ratio; else a truthy height sets the width by the ratio; else the request stands |
| ImageWorker.ResizeKeepsRatio | src/workers/imageWorker.js:12-15 | With the aspect kept and a side given, the target has the bitmap's ratio |
| ImageWorker.ResizeMayBeFractional | src/workers/imageWorker.js:14 | The derived side is not rounded: a 3 x 2 bitmap at width 2 gets height 4/3 |
| ImageWorker.UpscaleTarget | src/workers/imageWorker.js:28-30 | Both sides times the given scale when it is truthy, else times 2; the ratio is kept |
| ImageWorker.HandleMessage | src/workers/imageWorker.js:1-46 | No data, no reply; RESIZE and UPSCALE post exactly one reply: the decode error, then, if the options are missing, the TypeError text for that kind, then success with the blob or the encoder's error; RESIZE encodes `image/<format>` at 0.9, UPSCALE PNG; other types post nothing |
| DeviceCheck.IsLowEndDevice | src/utils/deviceCheck.js:1-5 | Low-end iff a truthy core count or memory reading is below 4; with neither truthy it is not |
| DeviceCheck.LowEndFromReadings | src/utils/deviceCheck.js:1-5 | Low-end iff a core count or memory reading is present, non-zero and below 4; no readings means not low-end |
| DeviceCheck.MaxPixels | src/utils/deviceCheck.js:8 | The budget is 1920 x 1080 on a low-end device and 3840 x 2160 otherwise |
| DeviceCheck.GetSafeResolution | src/utils/deviceCheck.js:7-19 | Within budget the size is unchanged; over it both sides are scaled by the same sqrt(budget / pixels) in (0, 1) and floored; neither side grows and the pixel count fits the budget |
| DeviceCheck.Shrink | src/utils/deviceCheck.js:11-16 | Over budget the common scale lies strictly between 0 and 1; both floored sides stay within the originals and their product within the budget |
| DeviceCheck.SafeResolutionIdempotent | src/utils/deviceCheck.js:7-19 | Clamping a clamped resolution changes nothing |
| ImageLimits.ValidateFile | src/utils/imageLimits.js:4-9 | Checks presence, then type, then size, returning the first failure's message; no message iff present, supported and at most 10 MiB |
| ImageLimits.MessagesDistinct | src/utils/imageLimits.js:5-7 | The three messages differ |
| ImageLimits.SizeMessageNamesLimit | src/utils/imageLimits.js:1-7 | The size message reads `File too large. Limit is 10MB.` |
| ImageLimits.FormatCheckedBeforeSize | src/utils/imageLimits.js:2-7 | Supported means jpeg, png or webp; an unsupported file of any size gets the format message |
| ImageLimits.LimitIsInclusive | src/utils/imageLimits.js:1-7 | Exactly 10 MiB passes; one byte more gets the size message |
| ImageCompressor.CompressionRequest | src/tools/ImageCompressor.jsx:78-84 | `image/webp` is requested iff WebP is asked for; max side 1920, a 2 MB target and the chosen quality |
| ImageCompressor.InitialState | src/tools/ImageCompressor.jsx:36-49 | The first render has nothing to recompress, compare or download, the slider at 50; the first drop requests exactly the initial settings |
| ImageCompressor.OnDrop | src/tools/ImageCompressor.jsx:55-66 | A drop stores the file, drops the old result and requests quality 0.8 as WebP, leaving settings and slider as they were; no file, no change |
| ImageCompressor.SettingsRequest | src/tools/ImageCompressor.jsx:102-107 | A settings change recompresses with the current settings iff there is an original |
| ImageCompressor.CompressionDone | src/tools/ImageCompressor.jsx:86-95 | A result replaces the compressed size; a failure changes nothing |
| ImageCompressor.HandleReset | src/tools/ImageCompressor.jsx:182-187 | Reset clears the original and the result, so nothing recompresses; settings and slider stay |
| ImageCompressor.SavedPercent | src/tools/ImageCompressor.jsx:157-161 | The percent is never negative, and it is 0 when the original is empty or the result is not smaller; otherwise it is the saved share times 100 rounded to the nearest integer, a half going up |
| ImageCompressor.GetSavings | src/tools/ImageCompressor.jsx:155-164 | Without both files: size 0, percent 0; otherwise `formatBytes` of the saved bytes, the clamped percent, and `isLarger` iff the result is larger |
| ImageCompressor.SavingsConsistent | src/tools/ImageCompressor.jsx:157-163 | The percent is in [0, 100] and positive only when the result is smaller; a larger result shows NaN; equal sizes show `0 B` |
| ImageCompressor.SliderPercent | src/tools/ImageCompressor.jsx:118-120 | The position is in [0, 100]; it is NaN iff the slider has zero width |
| ImageCompressor.SliderFollowsPointer | src/tools/ImageCompressor.jsx:119-120 | Left of the slider gives 0, right of it 100; inside, the position maps back to the pointer's x exactly |
| ImageCompressor.HandleMouseMove | src/tools/ImageCompressor.jsx:116-122 | The position moves only while dragging a mounted slider |
| ImageCompressor.HandleTouchMove | src/tools/ImageCompressor.jsx:125-131 | A touch move is a mouse move at the first touch's x |
| ImageCompressor.SliderStaysInRange | src/tools/ImageCompressor.jsx:119-121 | A position in [0, 100] stays in [0, 100] across moves |
| ImageCompressor.DownloadName | src/tools/ImageCompressor.jsx:169-175 | A name iff there is a result |
| ImageCompressor.DownloadNameParts | src/tools/ImageCompressor.jsx:173-175 | `base.ext` downloads as `base_min.webp` with WebP on and `base_min.ext` otherwise; a dotless name reuses itself as extension (`README` gives `_min.README`) |
| FileNames.Split | src/tools/ImageCompressor.jsx:173-174 | `split` gives at least one piece, none containing the separator, and one piece iff the separator is absent |
| FileNames.JoinSplit | src/tools/ImageCompressor.jsx:174 | Joining the pieces of a split gives the string back |
| FileNames.SplitAround | src/tools/ImageCompressor.jsx:173-174 | Splitting at one occurrence of the separator splits the two sides independently |
| FileNames.JoinAllButLast | src/tools/ImageResizer.jsx:151 | Dropping the last piece and joining again removes the last separator and everything after it |
| FileNames.Extension | src/tools/ImageCompressor.jsx:173 | `split('.').pop()` has no dot, and is the whole name when there is none |
| FileNames.StripExtension | src/tools/ImageResizer.jsx:151 | `split('.').slice(0, -1).join('.')` is empty without a dot; otherwise it, a dot and the extension rebuild the name |
| FileNames.SplitAtLastDot | src/tools/ImageResizer.jsx:151 | For `base.ext` with a dotless `ext` the idioms give exactly `ext` and `base` |
| Numerals.TrimStartSuffix | src/tools/ImageResizer.jsx:84 | The leading skip of `parseInt` drops only white space and keeps the rest of the text unchanged |
| Numerals.MagnitudeOfNumeral | src/tools/ImageResizer.jsx:84 | The digits of a numeral followed by a non-digit read back as the numeral's value (a lone 0 must not be followed by x, which would start hexadecimal) |
| Numerals.ParseDecimalString | src/tools/ImageResizer.jsx:84 | `parseInt` of a natural's numeral, signed or not, followed by non-digits gives the number back |
| Numerals.NonNumericIsZero | src/tools/ImageResizer.jsx:84 | Text whose first significant character is not a digit, or a bare `0x`, parses to NaN, which the zero fallback turns into 0 |
| Numerals.ParseMagnitude | src/tools/ImageResizer.jsx:84 | After the sign there is no number iff the text is empty, starts with a non-digit, or is `0x` with no hex digit next; a decimal reading starts with a digit |
| Numerals.ParseInt | src/tools/ImageResizer.jsx:84 | `parseInt` is NaN iff nothing follows the blanks and sign to read; a negative result needs a leading minus and a leading minus gives no positive result |
| Numerals.ParseIntOrZero | src/tools/ImageResizer.jsx:84 | NaN becomes 0; any number read is kept |
| JsMath.NumberOr | src/utils/deviceCheck.js:2-3 | A number-or-default is v when v is present and non-zero, and d otherwise |
| JsMath.Round | src/tools/ImageResizer.jsx:87 | `Math.round` is within one half of its argument, halves going up |
| JsMath.FixedUnits | src/tools/ImageCompressor.jsx:158 | `toFixed` picks an integer within one half of x times 10^digits, a tie going away from 0, non-negative for non-negative x |
| JsMath.ToFixed | src/tools/ImageCompressor.jsx:158 | The number `toFixed` renders is within half a step (10^-digits) of x |
| JsMath.RoundBetween | src/tools/BackgroundRemover.jsx:34 | Rounding stays between integer bounds |
| ImageUpscaler.Tick | src/tools/ImageUpscaler.jsx:56 | A tick adds 10 below 90 and leaves the progress alone from 90 on; it never lowers it |
| ImageUpscaler.Ticks | src/tools/ImageUpscaler.jsx:55-57 | Ticks never lower the progress and leave 90 or more alone; from below 90 the first tick adds 10 and the bar stays below 100 |
| ImageUpscaler.TicksClosedForm | src/tools/ImageUpscaler.jsx:56 | From a multiple of 10 in [0, 90], n ticks give min(progress + 10n, 90) |
| ImageUpscaler.TicksFromTen | src/tools/ImageUpscaler.jsx:47-56 | Started at 10, any number of ticks gives a multiple of 10 in [10, 90], and more ticks never give less |
| ImageUpscaler.TicksAdd | src/tools/ImageUpscaler.jsx:55-57 | a ticks and then b ticks equal a + b ticks |
| ImageUpscaler.Periods | src/tools/ImageUpscaler.jsx:55-57 | n periods tick the progress n times per running interval and change nothing else |
| ImageUpscaler.Period | src/tools/ImageUpscaler.jsx:55-57 | A period only moves the progress, and with no interval running it changes nothing |
| ImageUpscaler.OnDrop | src/tools/ImageUpscaler.jsx:27-36 | A new upload sets the preview, clears the result and resets the progress to 0; no file, no change |
| ImageUpscaler.StartUpscale | src/tools/ImageUpscaler.jsx:45-57 | Without a preview nothing happens; otherwise busy, progress 10 and one more interval running |
| ImageUpscaler.FinishAsWritten | src/tools/ImageUpscaler.jsx:66-77 | Success clears its interval, shows 100 and stores the result; failure only clears the busy flag |
| ImageUpscaler.FailureLeavesTimerRunning | src/tools/ImageUpscaler.jsx:55-77 | As written, a failure leaves its interval running, and a retry then climbs 20 per period (10 to 30) |
| ImageUpscaler.Finish | src/tools/ImageUpscaler.jsx:66-77 | The corrected end: its interval is stopped on both paths; success shows 100 and the result |
| ImageUpscaler.HandleUpscale | src/tools/ImageUpscaler.jsx:44-78 | (corrected handler) No preview, no change; success shows 100 and the result; failure leaves min(10 + 10 x ticks, 90) and the old result; the running intervals are as before the click |
| ImageUpscaler.IdleAfterUpscale | src/tools/ImageUpscaler.jsx:55-77 | (corrected handler) From the initial state, once an upscale has finished no period moves the progress |
| ImageUpscaler.FirstUpscale | src/tools/ImageUpscaler.jsx:21-78 | (corrected handler) From the first render, a drop then an upscale ends idle with no interval running: success shows 100 and the result, failure min(10 + 10 x periods, 90) and no result; no later period moves the bar |

## Findings

| source | as written | input that shows it | evidently intended | confidence | as-written member | corrected member |
|---|---|---|---|---|---|---|
| src/tools/ImageUpscaler.jsx:55-77 | `clearInterval(timer)` runs only after a successful `await`. When UpscalerJS throws, the progress interval is never stopped | An upscale that fails, then a second click on Upscale: two intervals now tick, and the bar climbs by 20 per 500 ms | The interval is cleared on every path, like the busy flag in `finally` | medium; not executed | ImageUpscaler.FailureLeavesTimerRunning | ImageUpscaler.HandleUpscale |

The rest of the upscaler model uses the corrected `Finish`.

## Left out

- Third-party internals are not modelled: pica's Lanczos3 resize, unsharp mask and `toBlob`; `browser-image-compression`; `@imgly/background-removal`; and UpscalerJS. Only the options they receive and the success or failure of their result are modelled.
- Image decoding and encoding are not modelled (`Image`, `createImageBitmap`, `OffscreenCanvas` output, `toDataURL`, `convertToBlob`). Neither are object URLs or anchor-click downloads. The worker takes decode and encode as function parameters.
- React rendering, effects and state batching are out. So are the 500 ms and 600 ms debounce timers and the window event listeners. The handlers are modelled as functions from state to state.
- The upscaler's interval is modelled as a count of running intervals and a number of 500 ms periods; real timing and interleaving are not modelled.
- ImageUpscaler.HandleUpscale: a failure of the `Upscaler` constructor, which happens before the interval starts, is not told apart from a failure of `upscale`. Both are the one `Err` outcome.
- The canvas backing store's 8-bit premultiplied quantisation is not modelled. Channels are exact reals. Destination-in keeps the straight colour of a pixel whose alpha drops to 0; that is the same premultiplied value the canvas would store.
- CSS colour parsing of `bgColor` is not modelled: a non-transparent backdrop is an opaque `Rgb`.
- Floating point is not modelled: `Math.log` near powers of 1024, `Math.sqrt` rounding, and the text that `toFixed`/`parseFloat` and string concatenation print. Arithmetic is exact. `Math.sqrt` is a parameter required to be the exact root. `formatBytes` returns a number and a unit rather than text.
- NaN readings of `navigator.hardwareConcurrency`/`deviceMemory` are not modelled; a reading is missing, zero or a number.
- DeviceCheck.GetSafeResolution takes the low-end verdict as a parameter instead of reading the device; `IsLowEndDevice` gives that verdict from the readings.
- The negative-savings path of `formatBytes` (NaN text) and sizes of 1024^4 and more (unit `undefined`) are modelled as results, not excluded by preconditions.
- `parseInt` reads decimal and `0x` hexadecimal integer prefixes exactly. Values too large for a double are not modelled.
- `processImage` in the background remover (the library call, the loading flags and the alert) is not modelled beyond the progress percentage it reports.
- ImageWorker.HandleMessage: the text of the TypeError that reading missing options throws depends on the engine and on the request kind (RESIZE destructures the options, UPSCALE reads `options.scale`), so it is a parameter taking the kind.
- ImageResizer.OnImageLoad: an image whose natural width or height is 0 (an SVG without intrinsic size, which the `image/*` drop zone accepts) is not modelled. The source would then store an aspect ratio of `Infinity` or `NaN`, which exact reals cannot hold, so the natural sizes are positive here; the same holds for ImageResizer.NaturalSizeRoundTrip.
- The presentational files are not part of this model: `src/main.jsx`, `src/pages/Home.jsx`, `src/components/Navbar.jsx`, `src/components/ToolCard.jsx`, `src/components/Loader.jsx`.
