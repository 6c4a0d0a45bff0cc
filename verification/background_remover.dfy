/** The background remover's `updateCanvas`: the segmentation cutout is copied onto a
    subject canvas, its alpha is eroded by repeated destination-in self-draws, and the
    result is drawn with source-over onto either a transparent canvas or a solid fill. */
module BackgroundRemover {
  import opened Wrappers
  import opened JsMath
  import opened Compositing

  /** The `bgColor` setting: the string `'transparent'` or an opaque CSS colour. */
  datatype Backdrop = Transparent | Solid(colour: Rgb)

  predicate ValidBackdrop(b: Backdrop) {
    b.Solid? ==> ValidRgb(b.colour)
  }

  function Alpha(img: Image, x: int, y: int): real
    requires img.Shaped()
  {
    img.At(x, y).a
  }

  /** The subject canvas after `subjectCtx.drawImage(img, 0, 0)` on a fresh canvas. */
  function SubjectLayer(cutout: Image): (r: Image)
    requires cutout.Valid()
    ensures r.Valid() && r.width == cutout.width && r.height == cutout.height
  {
    DrawImage(Blank(cutout.width, cutout.height), cutout, 0, 0, SourceOver)
  }

  /** Two destination-in draws of the canvas onto itself, at (dx1, dy1) and then at
      (dx2, dy2), the second reading what the first left. */
  function SelfDrawPair(img: Image, dx1: int, dy1: int, dx2: int, dy2: int): (r: Image)
    requires img.Valid()
    ensures r.Valid() && r.width == img.width && r.height == img.height
  {
    var first := DrawImage(img, img, dx1, dy1, DestinationIn);
    DrawImage(first, first, dx2, dy2, DestinationIn)
  }

  /** One pass of the erosion loop: draw the subject canvas onto itself with destination-in
      shifted left, right, up and down, each draw reading what the previous one left. */
  function ErodeOnce(img: Image): (r: Image)
    requires img.Valid()
    ensures r.Valid() && r.width == img.width && r.height == img.height
  {
    var rows := SelfDrawPair(img, -1, 0, 1, 0);
    SelfDrawPair(rows, 0, -1, 0, 1)
  }

  /** `level` passes of the erosion loop; none when `level <= 0`. */
  function Erode(img: Image, level: int): (r: Image)
    requires img.Valid()
    ensures r.Valid() && r.width == img.width && r.height == img.height
    decreases level
  {
    if level <= 0 then img else ErodeOnce(Erode(img, level - 1))
  }

  /** The final canvas: the backdrop layer (a transparent canvas, or one filled with the
      colour), with the eroded subject drawn over it with source-over. */
  function Render(cutout: Image, erodeLevel: int, backdrop: Backdrop): (r: Image)
    requires cutout.Valid() && ValidBackdrop(backdrop)
    ensures r.Valid() && r.width == cutout.width && r.height == cutout.height
  {
    var canvas := Blank(cutout.width, cutout.height);
    var base := if backdrop.Solid? then FillRect(canvas, backdrop.colour) else canvas;
    DrawImage(base, Erode(SubjectLayer(cutout), erodeLevel), 0, 0, SourceOver)
  }

  /** `updateCanvas`, step by step as the source runs it on mutable canvases: nothing happens
      without a processed cutout; otherwise the preview is the rendered canvas. */
  method UpdateCanvas(processed: Option<Image>, erodeLevel: int, backdrop: Backdrop)
    returns (preview: Option<Image>)
    requires processed.Some? ==> processed.value.Valid()
    requires ValidBackdrop(backdrop)
    ensures processed.None? ==> preview.None?
    ensures processed.Some? ==> preview == Some(Render(processed.value, erodeLevel, backdrop))
  {
    if processed.None? {
      return None;
    }
    var img := processed.value;
    var canvas := Blank(img.width, img.height);
    if backdrop.Solid? {
      canvas := FillRect(canvas, backdrop.colour);
    }
    var subject := Blank(img.width, img.height);
    subject := DrawImage(subject, img, 0, 0, SourceOver);
    if erodeLevel > 0 {
      var i := 0;
      while i < erodeLevel
        invariant 0 <= i <= erodeLevel
        invariant subject == Erode(SubjectLayer(img), i)
      {
        subject := DrawImage(subject, subject, -1, 0, DestinationIn);
        subject := DrawImage(subject, subject, 1, 0, DestinationIn);
        subject := DrawImage(subject, subject, 0, -1, DestinationIn);
        subject := DrawImage(subject, subject, 0, 1, DestinationIn);
        i := i + 1;
      }
    }
    canvas := DrawImage(canvas, subject, 0, 0, SourceOver);
    preview := Some(canvas);
  }

  // ---------------------------------------------------------------------------------
  // The subject layer and the zero level
  // ---------------------------------------------------------------------------------

  /** Copying the cutout onto the fresh subject canvas changes nothing the canvas can hold:
      the premultiplied value of every pixel is the cutout's, and visible pixels keep their
      straight colour. With erosion level 0 (or below) that layer is the subject drawn. */
  lemma SubjectLayerIsCutout(cutout: Image, erodeLevel: int, x: int, y: int)
    requires cutout.Valid() && erodeLevel <= 0
    ensures Erode(SubjectLayer(cutout), erodeLevel) == SubjectLayer(cutout)
    ensures Premultiply(SubjectLayer(cutout).At(x, y)) == Premultiply(cutout.At(x, y))
    ensures cutout.At(x, y).a > 0.0 ==> SubjectLayer(cutout).At(x, y) == cutout.At(x, y)
  {
    var s := SubjectLayer(cutout);
    if s.InBounds(x, y) {
      OverTransparent(cutout.At(x, y));
    }
  }

  /** Source-over onto transparent black leaves the premultiplied value unchanged. */
  lemma OverTransparent(p: Pixel)
    requires ValidPixel(p)
    ensures Premultiply(Composite(SourceOver, p, TransparentBlack)) == Premultiply(p)
    ensures p.a > 0.0 ==> Composite(SourceOver, p, TransparentBlack) == p
    ensures p.a == 0.0 ==> Composite(SourceOver, p, TransparentBlack) == TransparentBlack
  {
    OverClearBackdrop(p, TransparentBlack);
  }

  /** The same onto any fully transparent backdrop pixel. */
  lemma OverClearBackdrop(p: Pixel, t: Pixel)
    requires ValidPixel(p) && ValidPixel(t) && t.a == 0.0
    ensures Premultiply(Composite(SourceOver, p, t)) == Premultiply(p)
    ensures p.a > 0.0 ==> Composite(SourceOver, p, t) == p
    ensures p.a == 0.0 ==> Composite(SourceOver, p, t) == TransparentBlack
  {
    var ao := p.a + t.a * (1.0 - p.a);
    assert ao == p.a;
    if p.a > 0.0 {
      var cr := OverChannel(p.a, p.r, t.a, t.r, ao);
      var cg := OverChannel(p.a, p.g, t.a, t.g, ao);
      var cb := OverChannel(p.a, p.b, t.a, t.b, ao);
      assert Composite(SourceOver, p, t) == Pixel(cr, cg, cb, ao);
      OverOntoNothing(p.a, p.r, t.a, t.r, ao, cr);
      OverOntoNothing(p.a, p.g, t.a, t.g, ao, cg);
      OverOntoNothing(p.a, p.b, t.a, t.b, ao, cb);
    }
  }

  lemma OverOntoNothing(sa: real, sc: real, ba: real, bc: real, ao: real, c: real)
    requires ba == 0.0 && ao == sa + ba * (1.0 - sa) && ao > 0.0
    requires ao * c == sa * sc + ba * bc * (1.0 - sa)
    ensures c == sc
  {
    assert sa * c == sa * sc;
    assert sa * (c - sc) == 0.0;
  }

  // ---------------------------------------------------------------------------------
  // One destination-in self-draw
  // ---------------------------------------------------------------------------------

  /** A destination-in draw of the canvas onto itself at offset (dx, dy) keeps every pixel's
      straight colour and multiplies its alpha by the alpha of the pixel (x - dx, y - dy),
      which is 0 outside the canvas. */
  lemma SelfDrawDestinationIn(img: Image, dx: int, dy: int, x: int, y: int)
    requires img.Valid()
    ensures DrawImage(img, img, dx, dy, DestinationIn).At(x, y)
              == img.At(x, y).(a := Alpha(img, x - dx, y - dy) * Alpha(img, x, y))
  {
  }

  /** The alpha part of `SelfDrawDestinationIn`. */
  lemma SelfDrawAlpha(img: Image, dx: int, dy: int, x: int, y: int)
    requires img.Valid()
    ensures Alpha(DrawImage(img, img, dx, dy, DestinationIn), x, y)
              == Alpha(img, x - dx, y - dy) * Alpha(img, x, y)
  {
    SelfDrawDestinationIn(img, dx, dy, x, y);
  }

  /** Every self-draw keeps colour and can only lower alpha; transparent stays transparent. */
  lemma SelfDrawShrinks(img: Image, dx: int, dy: int, x: int, y: int)
    requires img.Valid()
    ensures var d := DrawImage(img, img, dx, dy, DestinationIn);
            && d.At(x, y).(a := 0.0) == img.At(x, y).(a := 0.0)
            && 0.0 <= Alpha(d, x, y) <= Alpha(img, x, y)
            && (Alpha(img, x, y) == 0.0 ==> Alpha(d, x, y) == 0.0)
  {
    var d := DrawImage(img, img, dx, dy, DestinationIn);
    SelfDrawDestinationIn(img, dx, dy, x, y);
    assert ValidPixel(img.At(x - dx, y - dy)) && ValidPixel(img.At(x, y));
    ScaledAlpha(Alpha(img, x - dx, y - dy), Alpha(img, x, y), Alpha(d, x, y));
  }

  lemma ScaledAlpha(s: real, a: real, m: real)
    requires Unit(s) && Unit(a) && m == s * a
    ensures 0.0 <= m <= a
    ensures a == 0.0 ==> m == 0.0
  {
    ProductBelow(a, s);
    ProductCommutes(s, a);
  }

  lemma ProductCommutes(s: real, a: real)
    ensures s * a == a * s
  {
  }

  // ---------------------------------------------------------------------------------
  // One erosion level
  // ---------------------------------------------------------------------------------

  /** One level keeps every pixel's straight colour, never raises its alpha, and leaves a
      transparent pixel transparent. */
  lemma ErodeOnceShrinks(img: Image, x: int, y: int)
    requires img.Valid()
    ensures ErodeOnce(img).At(x, y).(a := 0.0) == img.At(x, y).(a := 0.0)
    ensures 0.0 <= Alpha(ErodeOnce(img), x, y) <= Alpha(img, x, y)
    ensures Alpha(img, x, y) == 0.0 ==> Alpha(ErodeOnce(img), x, y) == 0.0
  {
    var left := DrawImage(img, img, -1, 0, DestinationIn);
    var right := DrawImage(left, left, 1, 0, DestinationIn);
    var up := DrawImage(right, right, 0, -1, DestinationIn);
    SelfDrawShrinks(img, -1, 0, x, y);
    SelfDrawShrinks(left, 1, 0, x, y);
    SelfDrawShrinks(right, 0, -1, x, y);
    SelfDrawShrinks(up, 0, 1, x, y);
  }

  /** The horizontal half of a level: after the left and right draws the alpha at (x, y) is
      a(x, y)^2 x a(x - 1, y) x a(x + 1, y). */
  function RowProduct(img: Image, x: int, y: int): real
    requires img.Shaped()
  {
    (Alpha(img, x, y) * Alpha(img, x - 1, y)) * (Alpha(img, x + 1, y) * Alpha(img, x, y))
  }

  /** The alpha one level leaves at (x, y): the product of the 3x3 neighbourhood's alphas
      with weights 1 2 1 / 2 4 2 / 1 2 1 (the horizontal then vertical passes). */
  function NeighbourhoodProduct(img: Image, x: int, y: int): real
    requires img.Shaped()
  {
    (RowProduct(img, x, y) * RowProduct(img, x, y - 1))
      * (RowProduct(img, x, y + 1) * RowProduct(img, x, y))
  }

  /** The alpha two opposite self-draws leave at (x, y), the second one at offset
      (dx, dy): a(x, y)^2 x a(x - dx, y - dy) x a(x + dx, y + dy). */
  function PairProduct(img: Image, x: int, y: int, dx: int, dy: int): real
    requires img.Shaped()
  {
    (Alpha(img, x, y) * Alpha(img, x - dx, y - dy)) * (Alpha(img, x + dx, y + dy) * Alpha(img, x, y))
  }

  /** Two self-draws chained: if `next` multiplies each alpha of `prev` by the one at
      offset (dx2, dy2) back, and `prev` does the same to `img` at the opposite offset
      (dx1, dy1), then `next` holds the pair product. Stated over any three images so
      that no draw is unfolded. */
  lemma ChainProducts(img: Image, prev: Image, next: Image, x: int, y: int,
                      dx1: int, dy1: int, dx2: int, dy2: int)
    requires img.Shaped() && prev.Shaped() && next.Shaped()
    requires dx1 == -dx2 && dy1 == -dy2
    requires Alpha(next, x, y) == Alpha(prev, x - dx2, y - dy2) * Alpha(prev, x, y)
    requires Alpha(prev, x, y) == Alpha(img, x - dx1, y - dy1) * Alpha(img, x, y)
    requires Alpha(prev, x - dx2, y - dy2)
               == Alpha(img, x - dx2 - dx1, y - dy2 - dy1) * Alpha(img, x - dx2, y - dy2)
    ensures Alpha(next, x, y) == PairProduct(img, x, y, dx2, dy2)
  {
    assert x - dx2 - dx1 == x && y - dy2 - dy1 == y;
    assert x - dx1 == x + dx2 && y - dy1 == y + dy2;
  }

  /** Two opposite self-draws in a row, (dx1, dy1) = -(dx2, dy2), leave the pair product
      at every pixel. */
  lemma SelfDrawPairAlpha(img: Image, dx1: int, dy1: int, dx2: int, dy2: int, x: int, y: int)
    requires img.Valid() && dx1 == -dx2 && dy1 == -dy2
    ensures Alpha(SelfDrawPair(img, dx1, dy1, dx2, dy2), x, y) == PairProduct(img, x, y, dx2, dy2)
  {
    var first := DrawImage(img, img, dx1, dy1, DestinationIn);
    var second := DrawImage(first, first, dx2, dy2, DestinationIn);
    SelfDrawAlpha(first, dx2, dy2, x, y);
    SelfDrawAlpha(img, dx1, dy1, x, y);
    SelfDrawAlpha(img, dx1, dy1, x - dx2, y - dy2);
    ChainProducts(img, first, second, x, y, dx1, dy1, dx2, dy2);
  }

  /** The vertical half of a level over any rows image whose alphas are the row products. */
  lemma StackRows(img: Image, rows: Image, out: Image, x: int, y: int)
    requires img.Shaped() && rows.Shaped() && out.Shaped()
    requires Alpha(out, x, y) == PairProduct(rows, x, y, 0, 1)
    requires Alpha(rows, x, y) == RowProduct(img, x, y)
    requires Alpha(rows, x, y - 1) == RowProduct(img, x, y - 1)
    requires Alpha(rows, x, y + 1) == RowProduct(img, x, y + 1)
    ensures Alpha(out, x, y) == NeighbourhoodProduct(img, x, y)
  {
  }

  /** The horizontal half of a level leaves the row product at every pixel. */
  lemma RowsAlpha(img: Image, x: int, y: int)
    requires img.Valid()
    ensures Alpha(SelfDrawPair(img, -1, 0, 1, 0), x, y) == RowProduct(img, x, y)
  {
    SelfDrawPairAlpha(img, -1, 0, 1, 0, x, y);
  }

  /** The vertical half of a level over any image `rows`. */
  lemma ColumnsAlpha(rows: Image, x: int, y: int)
    requires rows.Valid()
    ensures Alpha(SelfDrawPair(rows, 0, -1, 0, 1), x, y) == PairProduct(rows, x, y, 0, 1)
  {
    SelfDrawPairAlpha(rows, 0, -1, 0, 1, x, y);
  }

  /** One level in closed form: the four sequential draws multiply each alpha by its
      neighbours' alphas over the whole 3x3 square, diagonals included. */
  lemma ErodeOnceNeighbourhood(img: Image, x: int, y: int)
    requires img.Valid()
    ensures Alpha(ErodeOnce(img), x, y) == NeighbourhoodProduct(img, x, y)
  {
    var rows := SelfDrawPair(img, -1, 0, 1, 0);
    ColumnsAlpha(rows, x, y);
    RowsAlpha(img, x, y);
    RowsAlpha(img, x, y - 1);
    RowsAlpha(img, x, y + 1);
    StackRows(img, rows, ErodeOnce(img), x, y);
  }

  // ---------------------------------------------------------------------------------
  // Which pixels stay visible
  // ---------------------------------------------------------------------------------

  /** Every pixel of the (2k+1) x (2k+1) square centred on (x, y) is visible (alpha > 0);
      pixels outside the canvas never are. */
  ghost predicate SquareVisible(img: Image, x: int, y: int, k: nat)
    requires img.Shaped()
  {
    forall i, j :: x - k <= i <= x + k && y - k <= j <= y + k ==> Alpha(img, i, j) > 0.0
  }

  /** A product of four non-negative factors, named m, is positive exactly when every
      factor is. */
  lemma ProductPositive(a: real, b: real, c: real, d: real, m: real)
    requires 0.0 <= a && 0.0 <= b && 0.0 <= c && 0.0 <= d && m == (a * b) * (c * d)
    ensures 0.0 <= m
    ensures m > 0.0 <==> a > 0.0 && b > 0.0 && c > 0.0 && d > 0.0
  {
    var ab, cd := a * b, c * d;
    assert 0.0 <= ab && 0.0 <= cd;
    if a > 0.0 && b > 0.0 && c > 0.0 && d > 0.0 {
      assert ab > 0.0 && cd > 0.0;
      assert m == ab * cd;
    } else {
      assert ab == 0.0 || cd == 0.0;
    }
  }

  /** The pixel (x, y) and its left and right neighbours are all visible. */
  predicate RowOfThreeVisible(img: Image, x: int, y: int)
    requires img.Shaped()
  {
    Alpha(img, x - 1, y) > 0.0 && Alpha(img, x, y) > 0.0 && Alpha(img, x + 1, y) > 0.0
  }

  lemma RowVisible(img: Image, x: int, y: int)
    requires img.Valid()
    ensures 0.0 <= RowProduct(img, x, y)
    ensures RowProduct(img, x, y) > 0.0 <==> RowOfThreeVisible(img, x, y)
  {
    assert ValidPixel(img.At(x - 1, y)) && ValidPixel(img.At(x, y)) && ValidPixel(img.At(x + 1, y));
    var a, l, r := Alpha(img, x, y), Alpha(img, x - 1, y), Alpha(img, x + 1, y);
    assert RowProduct(img, x, y) == (a * l) * (r * a);
    ProductPositive(a, l, r, a, RowProduct(img, x, y));
  }

  /** The radius-1 square is visible exactly when its three rows are. */
  lemma SquareOfRows(img: Image, x: int, y: int)
    requires img.Shaped()
    ensures SquareVisible(img, x, y, 1) <==>
              RowOfThreeVisible(img, x, y - 1) && RowOfThreeVisible(img, x, y)
              && RowOfThreeVisible(img, x, y + 1)
  {
    if RowOfThreeVisible(img, x, y - 1) && RowOfThreeVisible(img, x, y)
       && RowOfThreeVisible(img, x, y + 1)
    {
      forall i, j | x - 1 <= i <= x + 1 && y - 1 <= j <= y + 1
        ensures Alpha(img, i, j) > 0.0
      {
        assert i == x - 1 || i == x || i == x + 1;
        assert j == y - 1 || j == y || j == y + 1;
      }
    }
  }

  /** The closed form of one level is positive exactly on the pixels whose 3x3
      neighbourhood is visible. */
  lemma NeighbourhoodVisible(img: Image, x: int, y: int)
    requires img.Valid()
    ensures NeighbourhoodProduct(img, x, y) > 0.0 <==> SquareVisible(img, x, y, 1)
  {
    RowVisible(img, x, y - 1);
    RowVisible(img, x, y);
    RowVisible(img, x, y + 1);
    ProductPositive(RowProduct(img, x, y), RowProduct(img, x, y - 1),
                    RowProduct(img, x, y + 1), RowProduct(img, x, y),
                    NeighbourhoodProduct(img, x, y));
    SquareOfRows(img, x, y);
  }

  /** After one level a pixel is visible exactly when its whole 3x3 neighbourhood was. */
  lemma ErodeOnceVisible(img: Image, x: int, y: int)
    requires img.Valid()
    ensures Alpha(ErodeOnce(img), x, y) > 0.0 <==> SquareVisible(img, x, y, 1)
  {
    ErodeOnceNeighbourhood(img, x, y);
    NeighbourhoodVisible(img, x, y);
  }

  /** A square of radius k + 1 is the union of the radius-k squares around the 3x3
      neighbourhood of its centre. */
  lemma SquareUnion(img: Image, x: int, y: int, k: nat)
    requires img.Shaped()
    ensures SquareVisible(img, x, y, k + 1) <==>
              (forall nx, ny :: x - 1 <= nx <= x + 1 && y - 1 <= ny <= y + 1 ==>
                 SquareVisible(img, nx, ny, k))
  {
    if forall nx, ny :: x - 1 <= nx <= x + 1 && y - 1 <= ny <= y + 1 ==>
                          SquareVisible(img, nx, ny, k)
    {
      forall i, j | x - (k + 1) <= i <= x + (k + 1) && y - (k + 1) <= j <= y + (k + 1)
        ensures Alpha(img, i, j) > 0.0
      {
        var nx := if i > x then x + 1 else if i < x then x - 1 else x;
        var ny := if j > y then y + 1 else if j < y then y - 1 else y;
        assert SquareVisible(img, nx, ny, k);
      }
    }
  }

  /** One induction step of `ErodeVisible`, stated over any image `prev` whose visible
      pixels are those with a visible radius-k square. */
  lemma VisibleStep(img: Image, prev: Image, next: Image, x: int, y: int, k: nat)
    requires img.Shaped() && prev.Shaped() && next.Shaped()
    requires forall nx, ny :: x - 1 <= nx <= x + 1 && y - 1 <= ny <= y + 1 ==>
               (Alpha(prev, nx, ny) > 0.0 <==> SquareVisible(img, nx, ny, k))
    requires Alpha(next, x, y) > 0.0 <==> SquareVisible(prev, x, y, 1)
    ensures Alpha(next, x, y) > 0.0 <==> SquareVisible(img, x, y, k + 1)
  {
    SquareUnion(img, x, y, k);
  }

  /** The erosion theorem: after k levels a pixel is visible exactly when every pixel of the
      (2k+1) x (2k+1) square around it was visible in the subject; in particular nothing
      within k pixels of the canvas edge survives. */
  lemma {:induction false} ErodeVisible(img: Image, k: nat, x: int, y: int)
    requires img.Valid()
    ensures Alpha(Erode(img, k), x, y) > 0.0 <==> SquareVisible(img, x, y, k)
    decreases k, 0
  {
    if k == 0 {
      assert Erode(img, k) == img;
    } else {
      NeighboursVisible(img, k - 1, x, y);
      LevelVisible(img, k - 1, x, y);
    }
  }

  /** The induction step of `ErodeVisible`: from the claim at level k for the 3x3
      neighbourhood of (x, y) to the claim at level k + 1 for (x, y). */
  lemma LevelVisible(img: Image, k: nat, x: int, y: int)
    requires img.Valid()
    requires forall nx, ny :: x - 1 <= nx <= x + 1 && y - 1 <= ny <= y + 1 ==>
               (Alpha(Erode(img, k), nx, ny) > 0.0 <==> SquareVisible(img, nx, ny, k))
    ensures Alpha(Erode(img, k + 1), x, y) > 0.0 <==> SquareVisible(img, x, y, k + 1)
  {
    ErodeLevelVisible(img, k, x, y);
    VisibleStep(img, Erode(img, k), Erode(img, k + 1), x, y, k);
  }

  /** `ErodeVisible` at level k for the 3x3 neighbourhood of (x, y). */
  lemma {:induction false} NeighboursVisible(img: Image, k: nat, x: int, y: int)
    requires img.Valid()
    ensures forall nx, ny :: x - 1 <= nx <= x + 1 && y - 1 <= ny <= y + 1 ==>
              (Alpha(Erode(img, k), nx, ny) > 0.0 <==> SquareVisible(img, nx, ny, k))
    decreases k, 1
  {
    forall nx, ny | x - 1 <= nx <= x + 1 && y - 1 <= ny <= y + 1
      ensures Alpha(Erode(img, k), nx, ny) > 0.0 <==> SquareVisible(img, nx, ny, k)
    {
      ErodeVisible(img, k, nx, ny);
    }
  }

  /** Level k + 1 in terms of level k: a pixel survives exactly when its 3x3 neighbourhood
      was visible at level k. */
  lemma ErodeLevelVisible(img: Image, k: nat, x: int, y: int)
    requires img.Valid()
    ensures Alpha(Erode(img, k + 1), x, y) > 0.0 <==> SquareVisible(Erode(img, k), x, y, 1)
  {
    ErodeOnceVisible(Erode(img, k), x, y);
  }

  /** Nothing within k pixels of the canvas edge survives k levels. */
  lemma ErodeClearsBorder(img: Image, k: nat, x: int, y: int)
    requires img.Valid()
    requires x < k || y < k || x >= img.width - k || y >= img.height - k
    ensures Alpha(Erode(img, k), x, y) == 0.0
  {
    ErodeVisible(img, k, x, y);
    var i := if x < k then x - k else if x >= img.width - k then x + k else x;
    var j := if x < k || x >= img.width - k then y else if y < k then y - k else y + k;
    assert !img.InBounds(i, j);
    assert Alpha(img, i, j) == 0.0;
    assert ValidPixel(Erode(img, k).At(x, y));
  }

  // ---------------------------------------------------------------------------------
  // Several levels
  // ---------------------------------------------------------------------------------

  /** Erosion keeps every pixel's straight colour at every level. */
  lemma {:induction false} ErodeKeepsColour(img: Image, k: int, x: int, y: int)
    requires img.Valid()
    ensures Erode(img, k).At(x, y).(a := 0.0) == img.At(x, y).(a := 0.0)
    decreases k
  {
    if k > 0 {
      ErodeKeepsColour(img, k - 1, x, y);
      ErodeStep(img, k - 1, x, y);
    }
  }

  /** One level more keeps the colour and never leaves more alpha. */
  lemma ErodeStep(img: Image, k: int, x: int, y: int)
    requires img.Valid()
    ensures Erode(img, k + 1).At(x, y).(a := 0.0) == Erode(img, k).At(x, y).(a := 0.0)
    ensures 0.0 <= Alpha(Erode(img, k + 1), x, y) <= Alpha(Erode(img, k), x, y)
  {
    if k < 0 {
      assert Erode(img, k + 1) == img && Erode(img, k) == img;
      assert ValidPixel(img.At(x, y));
    } else {
      ErodeOnceShrinks(Erode(img, k), x, y);
    }
  }

  /** A higher level never leaves more alpha than a lower one. */
  lemma {:induction false} ErodeMonotone(img: Image, j: int, k: int, x: int, y: int)
    requires img.Valid() && j <= k
    ensures 0.0 <= Alpha(Erode(img, k), x, y) <= Alpha(Erode(img, j), x, y)
    decreases k - j
  {
    if j == k {
      assert ValidPixel(Erode(img, k).At(x, y));
    } else {
      ErodeMonotone(img, j, k - 1, x, y);
      ErodeStep(img, k - 1, x, y);
    }
  }

  // ---------------------------------------------------------------------------------
  // Binary masks
  // ---------------------------------------------------------------------------------

  /** Every alpha is 0 or 1, as in a hard cutout. */
  ghost predicate IsMask(img: Image)
    requires img.Shaped()
  {
    forall x, y :: Alpha(img, x, y) == 0.0 || Alpha(img, x, y) == 1.0
  }

  predicate Bit(v: real) {
    v == 0.0 || v == 1.0
  }

  lemma BitProduct(a: real, b: real, c: real, d: real, m: real)
    requires Bit(a) && Bit(b) && Bit(c) && Bit(d) && m == (a * b) * (c * d)
    ensures Bit(m)
  {
  }

  lemma RowBit(img: Image, x: int, y: int)
    requires img.Valid() && IsMask(img)
    ensures Bit(RowProduct(img, x, y))
  {
    BitProduct(Alpha(img, x, y), Alpha(img, x - 1, y), Alpha(img, x + 1, y),
               Alpha(img, x, y), RowProduct(img, x, y));
  }

  lemma NeighbourhoodBit(img: Image, x: int, y: int)
    requires img.Valid() && IsMask(img)
    ensures Bit(NeighbourhoodProduct(img, x, y))
  {
    RowBit(img, x, y - 1);
    RowBit(img, x, y);
    RowBit(img, x, y + 1);
    BitProduct(RowProduct(img, x, y), RowProduct(img, x, y - 1),
               RowProduct(img, x, y + 1), RowProduct(img, x, y),
               NeighbourhoodProduct(img, x, y));
  }

  lemma ErodeOnceKeepsMask(img: Image)
    requires img.Valid() && IsMask(img)
    ensures IsMask(ErodeOnce(img))
  {
    forall x, y
      ensures Bit(Alpha(ErodeOnce(img), x, y))
    {
      ErodeOnceNeighbourhood(img, x, y);
      NeighbourhoodBit(img, x, y);
    }
  }

  lemma {:induction false} ErodeKeepsMask(img: Image, k: int)
    requires img.Valid() && IsMask(img)
    ensures IsMask(Erode(img, k))
    decreases k
  {
    if k > 0 {
      ErodeKeepsMask(img, k - 1);
      ErodeOnceKeepsMask(Erode(img, k - 1));
    }
  }

  /** On a hard cutout, k levels are the binary erosion by a (2k+1) x (2k+1) square: a pixel
      is fully opaque if its whole square was, and fully transparent otherwise. */
  lemma ErodeMask(img: Image, k: nat, x: int, y: int)
    requires img.Valid() && IsMask(img)
    ensures Alpha(Erode(img, k), x, y) == if SquareVisible(img, x, y, k) then 1.0 else 0.0
  {
    ErodeKeepsMask(img, k);
    ErodeVisible(img, k, x, y);
    assert Bit(Alpha(Erode(img, k), x, y));
  }

  // ---------------------------------------------------------------------------------
  // The final composite
  // ---------------------------------------------------------------------------------

  /** With a transparent backdrop the preview holds exactly the eroded subject (as the
      canvas stores it, premultiplied). */
  lemma RenderTransparent(cutout: Image, erodeLevel: int, x: int, y: int)
    requires cutout.Valid()
    ensures Premultiply(Render(cutout, erodeLevel, Transparent).At(x, y))
              == Premultiply(Erode(SubjectLayer(cutout), erodeLevel).At(x, y))
  {
    var subject := Erode(SubjectLayer(cutout), erodeLevel);
    var r := Render(cutout, erodeLevel, Transparent);
    if r.InBounds(x, y) {
      assert r.At(x, y) == Composite(SourceOver, subject.At(x, y), TransparentBlack);
      OverTransparent(subject.At(x, y));
    }
  }

  /** With a colour backdrop every preview pixel is opaque: the subject's colour where it is
      fully opaque, the backdrop colour where it has been cut away, and the alpha blend of
      the two on the soft edge. */
  lemma RenderOverColour(cutout: Image, erodeLevel: int, c: Rgb, x: int, y: int)
    requires cutout.Valid() && ValidRgb(c)
    requires 0 <= x < cutout.width && 0 <= y < cutout.height
    ensures var s := Erode(SubjectLayer(cutout), erodeLevel).At(x, y);
            var p := Render(cutout, erodeLevel, Solid(c)).At(x, y);
            && p.a == 1.0
            && p == Pixel(Mix(s.a, s.r, c.r), Mix(s.a, s.g, c.g), Mix(s.a, s.b, c.b), 1.0)
            && (s.a == 1.0 ==> p == s)
            && (s.a == 0.0 ==> p == Opaque(c))
  {
    var subject := Erode(SubjectLayer(cutout), erodeLevel);
    var canvas := Blank(cutout.width, cutout.height);
    var base := FillRect(canvas, c);
    var r := Render(cutout, erodeLevel, Solid(c));
    assert r == DrawImage(base, subject, 0, 0, SourceOver);
    assert base.At(x, y) == Opaque(c);
    assert r.At(x, y) == Composite(SourceOver, subject.At(x, y), Opaque(c));
    OverOntoOpaque(subject.At(x, y), c);
  }

  /** The percentage the progress callback reports, as the value before `Math.round`:
      `current / total * 100`. */
  function ProgressPercent(current: real, total: real): (r: real)
    requires total > 0.0
    ensures r * total == current * 100.0
    ensures 0.0 <= current <= total ==> 0.0 <= r <= 100.0
  {
    current / total * 100.0
  }

  /** While `current` runs from 0 to `total` the rounded percentage stays in [0, 100],
      starting at 0 and ending at 100. */
  lemma ProgressPercentBounds(current: real, total: real)
    requires total > 0.0 && 0.0 <= current <= total
    ensures 0 <= Round(ProgressPercent(current, total)) <= 100
    ensures current == 0.0 ==> Round(ProgressPercent(current, total)) == 0
    ensures current == total ==> Round(ProgressPercent(current, total)) == 100
  {
    var q := current / total;
    assert 0.0 <= q <= 1.0 by {
      assert current <= total;
      assert q * total == current;
    }
    RoundBetween(q * 100.0, 0, 100);
    if current == total {
      assert q == 1.0;
      RoundOfInteger(100);
    }
    if current == 0.0 {
      RoundOfInteger(0);
    }
  }
}
