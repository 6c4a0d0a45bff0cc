/** The parts of the 2D canvas that the background remover relies on: straight-alpha pixels,
    the "source-over" and "destination-in" operators of W3C Compositing and Blending Level 1
    (section 5.1, simple alpha compositing; section 9.1, Porter Duff operators), and
    `drawImage`/`fillRect` under the HTML Standard's canvas drawing model (section 4.12.5),
    where the drawn image is first placed on an infinite transparent-black bitmap and that
    bitmap is composited over every pixel of the canvas. Channels are exact reals in [0, 1];
    the canvas's 8-bit premultiplied storage is not modelled. */
module Compositing {

  /** A pixel with straight (non-premultiplied) colour. */
  datatype Pixel = Pixel(r: real, g: real, b: real, a: real)

  /** An opaque colour, as a CSS colour string such as `#ff00aa` denotes. */
  datatype Rgb = Rgb(r: real, g: real, b: real)

  const TransparentBlack := Pixel(0.0, 0.0, 0.0, 0.0)

  predicate Unit(v: real) {
    0.0 <= v <= 1.0
  }

  predicate ValidPixel(p: Pixel) {
    Unit(p.r) && Unit(p.g) && Unit(p.b) && Unit(p.a)
  }

  predicate ValidRgb(c: Rgb) {
    Unit(c.r) && Unit(c.g) && Unit(c.b)
  }

  function Opaque(c: Rgb): Pixel {
    Pixel(c.r, c.g, c.b, 1.0)
  }

  /** A colour premultiplied by its alpha (section 5.1: cs = Cs x as). */
  datatype Premultiplied = Premultiplied(r: real, g: real, b: real, a: real)

  function Premultiply(p: Pixel): Premultiplied {
    Premultiplied(p.a * p.r, p.a * p.g, p.a * p.b, p.a)
  }

  /** The values of `globalCompositeOperation` the tools use. */
  datatype Operator = SourceOver | DestinationIn

  /** The Porter Duff equations of section 9.1 on premultiplied values:
      co = cs x Fa + cb x Fb and ao = as x Fa + ab x Fb, with (Fa, Fb) = (1, 1 - as) for
      source-over and (0, as) for destination-in, written out per operator. This is the
      reference the straight-alpha `Composite` below is checked against. */
  function PorterDuff(op: Operator, s: Premultiplied, b: Premultiplied): Premultiplied {
    match op
    case SourceOver =>
      Premultiplied(s.r + b.r * (1.0 - s.a), s.g + b.g * (1.0 - s.a), s.b + b.b * (1.0 - s.a),
                    s.a + b.a * (1.0 - s.a))
    case DestinationIn =>
      Premultiplied(b.r * s.a, b.g * s.a, b.b * s.a, b.a * s.a)
  }

  /** Straight colour channel of a source-over result: the premultiplied sum divided by
      the resulting alpha. */
  function OverChannel(sa: real, sc: real, ba: real, bc: real, ao: real): (c: real)
    requires Unit(sa) && Unit(sc) && Unit(ba) && Unit(bc)
    requires ao == sa + ba * (1.0 - sa) && ao > 0.0
    ensures Unit(c) && ao * c == sa * sc + ba * bc * (1.0 - sa)
  {
    var num := sa * sc + ba * bc * (1.0 - sa);
    OverNumeratorBelow(sa, sc, ba, bc);
    QuotientUnit(num, ao);
    num / ao
  }

  lemma OverNumeratorBelow(sa: real, sc: real, ba: real, bc: real)
    requires Unit(sa) && Unit(sc) && Unit(ba) && Unit(bc)
    ensures 0.0 <= sa * sc + ba * bc * (1.0 - sa) <= sa + ba * (1.0 - sa)
  {
    var w := ba * (1.0 - sa);
    ProductBelow(ba, 1.0 - sa);
    WeightedSumBelow(sa, sc, w, bc);
    assert ba * bc * (1.0 - sa) == w * bc;
  }

  lemma WeightedSumBelow(sa: real, sc: real, w: real, bc: real)
    requires Unit(sa) && Unit(sc) && Unit(bc) && 0.0 <= w
    ensures 0.0 <= sa * sc + w * bc <= sa + w
  {
    ProductBelow(sa, sc);
    ProductBelow(w, bc);
    var p := sa * sc;
    var q := w * bc;
    assert p <= sa && q <= w;
    assert 0.0 <= p && 0.0 <= q;
  }

  /** The source-over alpha `as + ab x (1 - as)` stays in [0, 1] and is 0 only when both
      alphas are. */
  lemma OverAlphaUnit(sa: real, ba: real)
    requires Unit(sa) && Unit(ba)
    ensures Unit(sa + ba * (1.0 - sa))
    ensures sa + ba * (1.0 - sa) == 0.0 ==> sa == 0.0 && ba == 0.0
  {
    ProductBelow(1.0 - sa, ba);
    assert (1.0 - sa) * ba <= 1.0 - sa;
    assert ba * (1.0 - sa) == (1.0 - sa) * ba;
  }

  lemma QuotientUnit(num: real, den: real)
    requires 0.0 <= num <= den && den > 0.0
    ensures Unit(num / den) && den * (num / den) == num
  {
  }

  /** `v * u` lies between 0 and `v` for `u` in [0, 1]. */
  lemma ProductBelow(v: real, u: real)
    requires 0.0 <= v && Unit(u)
    ensures 0.0 <= v * u <= v
  {
  }

  /** Source pixel `s` composited onto backdrop pixel `b` with operator `op`, as straight
      colour. */
  function Composite(op: Operator, s: Pixel, b: Pixel): (o: Pixel)
    requires ValidPixel(s) && ValidPixel(b)
    ensures ValidPixel(o)
  {
    match op
    case DestinationIn => DestinationInPixel(s, b)
    case SourceOver => SourceOverPixel(s, b)
  }

  /** The straight-alpha operators agree with the premultiplied Porter Duff equations. */
  lemma CompositeMatchesPorterDuff(op: Operator, s: Pixel, b: Pixel)
    requires ValidPixel(s) && ValidPixel(b)
    ensures Premultiply(Composite(op, s, b)) == PorterDuff(op, Premultiply(s), Premultiply(b))
  {
    match op
    case DestinationIn => DestinationInMatchesPorterDuff(s, b);
    case SourceOver => SourceOverMatchesPorterDuff(s, b);
  }

  /** Destination-in keeps the backdrop's straight colour and multiplies the alphas. */
  function DestinationInPixel(s: Pixel, b: Pixel): (o: Pixel)
    requires ValidPixel(s) && ValidPixel(b)
    ensures ValidPixel(o)
  {
    ProductBelow(s.a, b.a);
    Pixel(b.r, b.g, b.b, s.a * b.a)
  }

  lemma DestinationInMatchesPorterDuff(s: Pixel, b: Pixel)
    requires ValidPixel(s) && ValidPixel(b)
    ensures Premultiply(DestinationInPixel(s, b))
              == PorterDuff(DestinationIn, Premultiply(s), Premultiply(b))
  {
    assert DestinationInPixel(s, b) == Pixel(b.r, b.g, b.b, s.a * b.a);
    ScaledPremultiplied(s.a, Premultiply(s), b);
  }

  /** Scaling a backdrop's alpha by `sa` scales each of its premultiplied values by `sa`. */
  lemma ScaledPremultiplied(sa: real, s: Premultiplied, b: Pixel)
    requires s.a == sa
    ensures Premultiply(Pixel(b.r, b.g, b.b, sa * b.a)) == PorterDuff(DestinationIn, s, Premultiply(b))
  {
    Regroup(sa, b.a, b.r);
    Regroup(sa, b.a, b.g);
    Regroup(sa, b.a, b.b);
  }

  lemma Regroup(sa: real, ba: real, c: real)
    ensures (sa * ba) * c == (ba * c) * sa
  {
  }

  /** Source-over; a result with alpha 0 is transparent black. */
  function SourceOverPixel(s: Pixel, b: Pixel): (o: Pixel)
    requires ValidPixel(s) && ValidPixel(b)
    ensures ValidPixel(o)
  {
    var ao := s.a + b.a * (1.0 - s.a);
    OverAlphaUnit(s.a, b.a);
    if ao == 0.0 then
      TransparentBlack
    else
      Pixel(OverChannel(s.a, s.r, b.a, b.r, ao), OverChannel(s.a, s.g, b.a, b.g, ao),
            OverChannel(s.a, s.b, b.a, b.b, ao), ao)
  }

  lemma SourceOverMatchesPorterDuff(s: Pixel, b: Pixel)
    requires ValidPixel(s) && ValidPixel(b)
    ensures Premultiply(SourceOverPixel(s, b))
              == PorterDuff(SourceOver, Premultiply(s), Premultiply(b))
  {
    OverAlphaUnit(s.a, b.a);
    if s.a + b.a * (1.0 - s.a) == 0.0 {
      InvisibleOver(s, b);
    } else {
      VisibleOver(s, b);
    }
  }

  /** Both alphas 0: transparent black, and every premultiplied value is 0. */
  lemma InvisibleOver(s: Pixel, b: Pixel)
    requires ValidPixel(s) && ValidPixel(b) && s.a == 0.0 && b.a == 0.0
    ensures Premultiply(SourceOverPixel(s, b))
              == PorterDuff(SourceOver, Premultiply(s), Premultiply(b))
  {
    var zero := Premultiplied(0.0, 0.0, 0.0, 0.0);
    assert b.a * (1.0 - s.a) == 0.0;
    assert SourceOverPixel(s, b) == TransparentBlack;
    ZeroAlphaPremultiplied(s);
    ZeroAlphaPremultiplied(b);
    assert PorterDuff(SourceOver, zero, zero) == zero;
  }

  lemma VisibleOver(s: Pixel, b: Pixel)
    requires ValidPixel(s) && ValidPixel(b) && s.a + b.a * (1.0 - s.a) != 0.0
    ensures Premultiply(SourceOverPixel(s, b))
              == PorterDuff(SourceOver, Premultiply(s), Premultiply(b))
  {
    var o := SourceOverPixel(s, b);
    SourceOverChannels(s, b, o);
    OverAgrees(s, b, o.r, o.g, o.b, o.a);
  }

  /** A visible source-over result satisfies the channel equations of `OverChannel`. */
  lemma SourceOverChannels(s: Pixel, b: Pixel, o: Pixel)
    requires ValidPixel(s) && ValidPixel(b) && o == SourceOverPixel(s, b)
    requires s.a + b.a * (1.0 - s.a) != 0.0
    ensures o.a == s.a + b.a * (1.0 - s.a)
    ensures o.a * o.r == s.a * s.r + b.a * b.r * (1.0 - s.a)
    ensures o.a * o.g == s.a * s.g + b.a * b.g * (1.0 - s.a)
    ensures o.a * o.b == s.a * s.b + b.a * b.b * (1.0 - s.a)
  {
  }

  lemma OverAgrees(s: Pixel, b: Pixel, cr: real, cg: real, cb: real, ao: real)
    requires ao == s.a + b.a * (1.0 - s.a)
    requires ao * cr == s.a * s.r + b.a * b.r * (1.0 - s.a)
    requires ao * cg == s.a * s.g + b.a * b.g * (1.0 - s.a)
    requires ao * cb == s.a * s.b + b.a * b.b * (1.0 - s.a)
    ensures Premultiply(Pixel(cr, cg, cb, ao))
              == PorterDuff(SourceOver, Premultiply(s), Premultiply(b))
  {
  }

  lemma ZeroAlphaPremultiplied(p: Pixel)
    requires p.a == 0.0
    ensures Premultiply(p) == Premultiplied(0.0, 0.0, 0.0, 0.0)
  {
  }

  /** A canvas bitmap: `height` rows of `width` pixels. */
  datatype Image = Image(width: nat, height: nat, rows: seq<seq<Pixel>>) {

    predicate Shaped() {
      |rows| == height && forall y :: 0 <= y < height ==> |rows[y]| == width
    }

    predicate InBounds(x: int, y: int) {
      0 <= x < width && 0 <= y < height
    }

    /** The pixel at (x, y); transparent black outside the bitmap. */
    function At(x: int, y: int): Pixel
      requires Shaped()
    {
      if InBounds(x, y) then rows[y][x] else TransparentBlack
    }

    /** Rectangular, with every channel in [0, 1]. */
    ghost predicate Valid() {
      Shaped() && forall x: int, y: int :: ValidPixel(At(x, y))
    }
  }

  /** A freshly created canvas: every pixel transparent black. */
  function Blank(width: nat, height: nat): (img: Image)
    ensures img.Valid() && img.width == width && img.height == height
    ensures forall x: int, y: int :: img.At(x, y) == TransparentBlack
  {
    Image(width, height, seq(height, _ => seq(width, _ => TransparentBlack)))
  }

  /** `ctx.drawImage(src, dx, dy)` with `globalCompositeOperation = op`: the source pixel
      (x - dx, y - dy), or transparent black where there is none, is composited onto every
      destination pixel (x, y). */
  function DrawImage(dst: Image, src: Image, dx: int, dy: int, op: Operator): (r: Image)
    requires dst.Valid() && src.Valid()
    ensures r.Valid() && r.width == dst.width && r.height == dst.height
    ensures forall x: int, y: int {:trigger r.At(x, y)} :: r.InBounds(x, y) ==>
              r.At(x, y) == Composite(op, src.At(x - dx, y - dy), dst.At(x, y))
  {
    var r := Image(dst.width, dst.height,
      seq(dst.height, y => seq(dst.width, x => DrawnPixel(dst, src, dx, dy, op, x, y))));
    assert forall x: int, y: int {:trigger r.At(x, y)} :: r.InBounds(x, y) ==>
             r.At(x, y) == DrawnPixel(dst, src, dx, dy, op, x, y);
    r
  }

  /** The pixel a draw leaves at (x, y). */
  function DrawnPixel(dst: Image, src: Image, dx: int, dy: int, op: Operator, x: int, y: int)
    : (p: Pixel)
    requires dst.Valid() && src.Valid()
    ensures ValidPixel(p)
  {
    Composite(op, src.At(x - dx, y - dy), dst.At(x, y))
  }

  /** `ctx.fillRect(0, 0, width, height)` with an opaque `fillStyle` under source-over. */
  function FillRect(dst: Image, c: Rgb): (r: Image)
    requires dst.Valid() && ValidRgb(c)
    ensures r.Valid() && r.width == dst.width && r.height == dst.height
    ensures forall x: int, y: int :: r.InBounds(x, y) ==> r.At(x, y) == Opaque(c)
  {
    var r := Image(dst.width, dst.height,
      seq(dst.height, y requires 0 <= y < dst.height =>
        seq(dst.width, x requires 0 <= x < dst.width =>
          Composite(SourceOver, Opaque(c), dst.At(x, y)))));
    assert forall x: int, y: int {:trigger r.At(x, y)} :: r.InBounds(x, y) ==>
             r.At(x, y) == Composite(SourceOver, Opaque(c), dst.At(x, y));
    forall x: int, y: int | r.InBounds(x, y)
      ensures r.At(x, y) == Opaque(c)
    {
      OverOpaque(c, dst.At(x, y));
    }
    r
  }

  /** An opaque source covers whatever lies beneath it. */
  lemma OverOpaque(c: Rgb, d: Pixel)
    requires ValidRgb(c) && ValidPixel(d)
    ensures Composite(SourceOver, Opaque(c), d) == Opaque(c)
  {
    var ao := 1.0 + d.a * (1.0 - 1.0);
    assert ao == 1.0;
  }

  /** Linear interpolation between a backdrop channel and a source channel by alpha `a`. */
  function Mix(a: real, sc: real, bc: real): real {
    a * sc + (1.0 - a) * bc
  }

  /** Source-over onto an opaque backdrop is opaque, each channel the source blended into
      the backdrop by the source's alpha. */
  lemma OverOntoOpaque(s: Pixel, c: Rgb)
    requires ValidPixel(s) && ValidRgb(c)
    ensures Composite(SourceOver, s, Opaque(c))
              == Pixel(Mix(s.a, s.r, c.r), Mix(s.a, s.g, c.g), Mix(s.a, s.b, c.b), 1.0)
  {
    var b := Opaque(c);
    var ao := s.a + b.a * (1.0 - s.a);
    assert ao == 1.0;
    var cr := OverChannel(s.a, s.r, b.a, b.r, ao);
    var cg := OverChannel(s.a, s.g, b.a, b.g, ao);
    var cb := OverChannel(s.a, s.b, b.a, b.b, ao);
    assert Composite(SourceOver, s, b) == Pixel(cr, cg, cb, ao);
    OverOpaqueChannel(s.a, s.r, b.r, cr);
    OverOpaqueChannel(s.a, s.g, b.g, cg);
    OverOpaqueChannel(s.a, s.b, b.b, cb);
  }

  lemma OverOpaqueChannel(sa: real, sc: real, bc: real, c: real)
    requires 1.0 * c == sa * sc + 1.0 * bc * (1.0 - sa)
    ensures c == Mix(sa, sc, bc)
  {
  }
}
