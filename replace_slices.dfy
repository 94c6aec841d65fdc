/** The compositor of the photomosaic: cutting the picture into one slice
    per tile, choosing for every slice the library image whose average
    colour is nearest, scaling, tinting and masking that image, and pasting
    slices onto a canvas. PIL's own raster work (polygon rasterisation,
    resizing, the alpha blend of a masked paste), the file system and the
    square root are parameters of the model. */
module ReplaceSlices {
  import opened Utils

  // ---------------------------------------------------------------------
  // Pictures

  /** A PIL image as its pixels: `px[x][y]` is the pixel PIL's pixel
      access addresses as `[x, y]`. */
  datatype Picture = Picture(width: nat, height: nat, px: seq<seq<Pixel>>)

  predicate Shaped(p: Picture)
  {
    |p.px| == p.width && forall x :: 0 <= x < p.width ==> |p.px[x]| == p.height
  }

  /** `list(image.getdata())`: the pixels row by row, top row first. */
  function Data(p: Picture): (ps: seq<Pixel>)
    requires Shaped(p)
  {
    RowsFrom(p, 0)
  }

  function RowsFrom(p: Picture, y: nat): (ps: seq<Pixel>)
    requires Shaped(p)
    decreases p.height - y
  {
    if y >= p.height then []
    else seq(p.width, x requires 0 <= x < p.width => p.px[x][y]) + RowsFrom(p, y + 1)
  }

  /** Every pixel of the picture occurs in its data, and nothing else does. */
  lemma {:induction false} DataHoldsPixels(p: Picture, y: nat)
    requires Shaped(p)
    ensures forall q :: q in RowsFrom(p, y) <==>
      exists x, y' :: 0 <= x < p.width && y <= y' < p.height && q == p.px[x][y']
    decreases p.height - y
  {
    if y < p.height {
      DataHoldsPixels(p, y + 1);
      var row := seq(p.width, x requires 0 <= x < p.width => p.px[x][y]);
      assert RowsFrom(p, y) == row + RowsFrom(p, y + 1);
      forall q | q in RowsFrom(p, y)
        ensures exists x, y' :: 0 <= x < p.width && y <= y' < p.height && q == p.px[x][y']
      {
        if q in row {
          var x :| 0 <= x < |row| && row[x] == q;
          assert q == p.px[x][y];
        }
      }
      forall q | exists x, y' :: 0 <= x < p.width && y <= y' < p.height && q == p.px[x][y']
        ensures q in RowsFrom(p, y)
      {
        var x, y' :| 0 <= x < p.width && y <= y' < p.height && q == p.px[x][y'];
        if y' == y {
          assert row[x] == q;
        }
      }
    }
  }

  /** The data of a picture is empty exactly when the picture has no
      column or no row. */
  lemma DataEmpty(p: Picture)
    requires Shaped(p)
    ensures Data(p) == [] <==> p.width == 0 || p.height == 0
  {
    DataHoldsPixels(p, 0);
    if p.width > 0 && p.height > 0 {
      assert p.px[0][0] in Data(p);
    }
    if Data(p) != [] {
      assert Data(p)[0] in Data(p);
    }
  }

  // ---------------------------------------------------------------------
  // get_masked_slice

  /** A PIL crop box: left, upper, right and lower edge; right and lower
      are exclusive. */
  datatype Box = Box(left: int, top: int, right: int, bottom: int)

  function Truncs(s: seq<real>): (ts: seq<int>)
    ensures |ts| == |s| && forall i :: 0 <= i < |s| ==> ts[i] == Trunc(s[i])
  {
    seq(|s|, i requires 0 <= i < |s| => Trunc(s[i]))
  }

  /** Python's `min` over a non-empty sequence of integers. */
  function IntMin(s: seq<int>): (m: int)
    requires |s| > 0
    ensures forall i :: 0 <= i < |s| ==> m <= s[i]
    ensures exists i :: 0 <= i < |s| && m == s[i]
  {
    if |s| == 1 then s[0]
    else
      var m' := IntMin(s[..|s| - 1]);
      assert forall i :: 0 <= i < |s| - 1 ==> s[..|s| - 1][i] == s[i];
      if s[|s| - 1] < m' then s[|s| - 1] else m'
  }

  /** Python's `max` over a non-empty sequence of integers. */
  function IntMax(s: seq<int>): (m: int)
    requires |s| > 0
    ensures forall i :: 0 <= i < |s| ==> s[i] <= m
    ensures exists i :: 0 <= i < |s| && m == s[i]
  {
    if |s| == 1 then s[0]
    else
      var m' := IntMax(s[..|s| - 1]);
      assert forall i :: 0 <= i < |s| - 1 ==> s[..|s| - 1][i] == s[i];
      if s[|s| - 1] > m' then s[|s| - 1] else m'
  }

  /** The box `get_masked_slice` crops to: the least and greatest
      truncated coordinate of the vertices along each axis. It is never
      inverted. */
  function MaskedSliceBox(vs: seq<Point>): (b: Box)
    requires |vs| > 0
    ensures b.left <= b.right && b.top <= b.bottom
  {
    var xs, ys := Truncs(Xs(vs)), Truncs(Ys(vs));
    assert IntMin(xs) <= xs[0] <= IntMax(xs) && IntMin(ys) <= ys[0] <= IntMax(ys);
    Box(IntMin(xs), IntMin(ys), IntMax(xs), IntMax(ys))
  }

  /** Along one axis, the crop box's low and high edges bound every
      truncated coordinate and are reached by some vertex. */
  lemma TruncsBounds(cs: seq<real>)
    requires |cs| > 0
    ensures forall i :: 0 <= i < |cs| ==> IntMin(Truncs(cs)) <= Trunc(cs[i]) <= IntMax(Truncs(cs))
    ensures exists i :: 0 <= i < |cs| && Trunc(cs[i]) == IntMin(Truncs(cs))
    ensures exists i :: 0 <= i < |cs| && Trunc(cs[i]) == IntMax(Truncs(cs))
  {
    var ts := Truncs(cs);
    var i :| 0 <= i < |ts| && IntMin(ts) == ts[i];
    var j :| 0 <= j < |ts| && IntMax(ts) == ts[j];
    assert Trunc(cs[i]) == IntMin(ts) && Trunc(cs[j]) == IntMax(ts);
  }

  /** The crop box is the smallest box that holds every truncated vertex:
      each vertex is inside it and each of its edges is reached by a
      vertex. */
  lemma MaskedSliceBoxIsTight(vs: seq<Point>)
    requires |vs| > 0
    ensures var b := MaskedSliceBox(vs);
      forall i :: 0 <= i < |vs| ==>
        b.left <= Trunc(vs[i].x) <= b.right && b.top <= Trunc(vs[i].y) <= b.bottom
    ensures var b := MaskedSliceBox(vs);
      (exists i :: 0 <= i < |vs| && Trunc(vs[i].x) == b.left) &&
      (exists i :: 0 <= i < |vs| && Trunc(vs[i].x) == b.right) &&
      (exists i :: 0 <= i < |vs| && Trunc(vs[i].y) == b.top) &&
      (exists i :: 0 <= i < |vs| && Trunc(vs[i].y) == b.bottom)
  {
    TruncsBounds(Xs(vs));
    TruncsBounds(Ys(vs));
  }

  lemma TruncMonotone(a: real, b: real)
    requires a <= b
    ensures Trunc(a) <= Trunc(b)
  {
  }

  /** The low edge of the crop box along one axis is the truncated least
      coordinate (truncation is monotone). */
  lemma TruncsMinIsTruncOfMin(cs: seq<real>)
    requires |cs| > 0
    ensures IntMin(Truncs(cs)) == Trunc(MinOf(cs))
  {
    TruncsBounds(cs);
    var i :| 0 <= i < |cs| && Trunc(cs[i]) == IntMin(Truncs(cs));
    var j :| 0 <= j < |cs| && MinOf(cs) == cs[j];
    TruncMonotone(MinOf(cs), cs[i]);
    assert IntMin(Truncs(cs)) <= Trunc(cs[j]);
  }

  /** The left edge of the crop box is the truncated left edge of the
      vertices' bounding box, and likewise the upper edge. */
  lemma MaskedSliceBoxTruncatesCorner(vs: seq<Point>)
    requires |vs| > 0
    ensures MaskedSliceBox(vs).left == Trunc(MinOf(Xs(vs)))
    ensures MaskedSliceBox(vs).top == Trunc(MinOf(Ys(vs)))
  {
    TruncsMinIsTruncOfMin(Xs(vs));
    TruncsMinIsTruncOfMin(Ys(vs));
  }

  /** The pixel at image coordinate (x, y) once `crop` and `putalpha` have
      run: the image's colour with the mask as alpha inside the image, and
      the zero pixel `crop` pads with outside it. */
  function MaskedPixel(image: Picture, x: int, y: int, mask: int): Pixel
  {
    if 0 <= x < |image.px| && 0 <= y < |image.px[x]| then
      var p := image.px[x][y];
      Pixel(p.r, p.g, p.b, mask)
    else
      Pixel(0, 0, 0, 0)
  }

  /** `image.crop(box)` followed by `putalpha(mask)`, where `alpha(x, y)`
      is the mask's value at image coordinate (x, y). */
  function Crop(image: Picture, b: Box, alpha: (int, int) -> int): (s: Picture)
    requires b.left <= b.right && b.top <= b.bottom
    ensures Shaped(s) && s.width == b.right - b.left && s.height == b.bottom - b.top
  {
    var w, h := b.right - b.left, b.bottom - b.top;
    Picture(w, h, seq(w, i requires 0 <= i < w =>
      seq(h, j requires 0 <= j < h => MaskedPixel(image, b.left + i, b.top + j, alpha(b.left + i, b.top + j)))))
  }

  /** Each pixel of the crop is the image pixel at the same place, shifted
      by the box's corner: its colour where the image has one, with the
      mask as its alpha; outside the image it is transparent black. */
  lemma CropKeepsColours(image: Picture, b: Box, alpha: (int, int) -> int, i: int, j: int)
    requires Shaped(image) && b.left <= b.right && b.top <= b.bottom
    requires 0 <= i < b.right - b.left && 0 <= j < b.bottom - b.top
    ensures var x, y := b.left + i, b.top + j;
            var q := Crop(image, b, alpha).px[i][j];
            if 0 <= x < image.width && 0 <= y < image.height then
              q == image.px[x][y].(a := alpha(x, y))
            else
              q == Pixel(0, 0, 0, 0)
  {
    var x, y := b.left + i, b.top + j;
    assert Crop(image, b, alpha).px[i][j] == MaskedPixel(image, x, y, alpha(x, y));
  }

  /** `get_masked_slice(image, vertices)`: the image cropped to
      `MaskedSliceBox(vertices)`, with the polygon mask as its alpha.
      `raster(vertices, x, y)` is the value `ImageDraw.polygon` draws into
      the mask at (x, y). */
  function GetMaskedSlice(image: Picture, vs: seq<Point>, raster: (seq<Point>, int, int) -> int): (s: Picture)
    requires |vs| > 0
    ensures Shaped(s)
    ensures s.width == MaskedSliceBox(vs).right - MaskedSliceBox(vs).left
    ensures s.height == MaskedSliceBox(vs).bottom - MaskedSliceBox(vs).top
  {
    Crop(image, MaskedSliceBox(vs), (x, y) => raster(vs, x, y))
  }

  // ---------------------------------------------------------------------
  // slice_image

  /** An `Img_slice`: the picture, its top-left position on the canvas and
      its vertices relative to that position. */
  datatype Slice = Slice(image: Picture, position: Point, vertices: seq<Point>)

  /** The top-left corner of a tile: the least x and the least y. */
  function TopLeft(tile: seq<Point>): (p: Point)
    requires |tile| > 0
  {
    Point(MinOf(Xs(tile)), MinOf(Ys(tile)))
  }

  /** The tile's vertices relative to its top-left corner. */
  function Relative(tile: seq<Point>): (rs: seq<Point>)
    requires |tile| > 0
    ensures |rs| == |tile|
    ensures forall i :: 0 <= i < |tile| ==> rs[i] == Sub(tile[i], TopLeft(tile))
  {
    seq(|tile|, i requires 0 <= i < |tile| => Sub(tile[i], TopLeft(tile)))
  }

  /** The slice `slice_image` makes of one tile. */
  function SliceOf(image: Picture, tile: seq<Point>, raster: (seq<Point>, int, int) -> int): (s: Slice)
    requires |tile| > 0
  {
    Slice(GetMaskedSlice(image, tile, raster), TopLeft(tile), Relative(tile))
  }

  /** The relative vertices lie right of and below the corner, and touch it
      along both axes. */
  lemma RelativeVerticesAnchored(tile: seq<Point>)
    requires |tile| > 0
    ensures forall i :: 0 <= i < |tile| ==> Relative(tile)[i].x >= 0.0 && Relative(tile)[i].y >= 0.0
    ensures MinOf(Xs(Relative(tile))) == 0.0 && MinOf(Ys(Relative(tile))) == 0.0
  {
    var o := TopLeft(tile);
    var rs := Relative(tile);
    var xs, ys, rxs, rys := Xs(tile), Ys(tile), Xs(rs), Ys(rs);
    assert forall i :: 0 <= i < |tile| ==> rxs[i] == xs[i] + -o.x && rys[i] == ys[i] + -o.y;
    MinMaxOfShifted(xs, rxs, -o.x);
    MinMaxOfShifted(ys, rys, -o.y);
  }

  /** Moving the relative vertices back by the slice position gives the
      tile again, and the move changes neither dimension of the box. */
  lemma RelativeVerticesRestoreTile(tile: seq<Point>)
    requires |tile| > 0
    ensures Translate(Relative(tile), TopLeft(tile)) == tile
    ensures BoundingBoxDimensions(Relative(tile)) == BoundingBoxDimensions(tile)
  {
    var o := TopLeft(tile);
    var rs := Relative(tile);
    var back := Translate(rs, o);
    assert forall i :: 0 <= i < |tile| ==> back[i] == tile[i];
    assert back == tile;
    var shifted := Translate(tile, Point(-o.x, -o.y));
    assert forall i :: 0 <= i < |tile| ==> rs[i] == shifted[i];
    assert rs == shifted;
    BoundingBoxDimensionsTranslationInvariant(tile, Point(-o.x, -o.y));
  }

  /** The slices of a sequence of tiles, one per tile in tile order. */
  function SlicesOf(image: Picture, tiles: seq<seq<Point>>, raster: (seq<Point>, int, int) -> int): (ss: seq<Slice>)
    requires forall i :: 0 <= i < |tiles| ==> |tiles[i]| > 0
    ensures |ss| == |tiles|
  {
    if |tiles| == 0 then []
    else SlicesOf(image, tiles[..|tiles| - 1], raster) + [SliceOf(image, tiles[|tiles| - 1], raster)]
  }

  /** Slice i of a tiling is the slice of tile i. */
  lemma {:induction false} SlicesOfPointwise(image: Picture, tiles: seq<seq<Point>>, raster: (seq<Point>, int, int) -> int, i: int)
    requires forall k :: 0 <= k < |tiles| ==> |tiles[k]| > 0
    requires 0 <= i < |tiles|
    ensures SlicesOf(image, tiles, raster)[i] == SliceOf(image, tiles[i], raster)
    decreases |tiles|
  {
    var front := tiles[..|tiles| - 1];
    if i < |tiles| - 1 {
      SlicesOfPointwise(image, front, raster, i);
      assert front[i] == tiles[i];
    }
  }

  /** The slices of one more tile are the slices so far and that tile's
      slice. */
  lemma SlicesOfSnoc(image: Picture, tiles: seq<seq<Point>>, raster: (seq<Point>, int, int) -> int, i: int)
    requires forall k :: 0 <= k < |tiles| ==> |tiles[k]| > 0
    requires 0 <= i < |tiles|
    ensures SlicesOf(image, tiles[..i + 1], raster) == SlicesOf(image, tiles[..i], raster) + [SliceOf(image, tiles[i], raster)]
  {
    assert tiles[..i + 1][..i] == tiles[..i];
  }

  /** One pass of `slice_image`'s loop: the corner, the relative vertices
      and the masked picture of one tile. */
  method SliceTile(image: Picture, tile: seq<Point>, raster: (seq<Point>, int, int) -> int)
    returns (s: Slice)
    requires |tile| > 0
    ensures s == SliceOf(image, tile, raster)
  {
    var topLeft := Point(MinOf(Xs(tile)), MinOf(Ys(tile)));
    var relative := seq(|tile|, k requires 0 <= k < |tile| => Sub(tile[k], topLeft));
    var sliceImage := GetMaskedSlice(image, tile, raster);
    assert relative == Relative(tile);
    s := Slice(sliceImage, topLeft, relative);
  }

  /** `slice_image(image, tiles)`: one slice per tile, in tile order. A
      tile without vertices makes `min` raise, so every tile has one. */
  method SliceImage(image: Picture, tiles: seq<seq<Point>>, raster: (seq<Point>, int, int) -> int)
    returns (slices: seq<Slice>)
    requires forall i :: 0 <= i < |tiles| ==> |tiles[i]| > 0
    ensures slices == SlicesOf(image, tiles, raster)
  {
    slices := [];
    var i := 0;
    while i < |tiles|
      invariant 0 <= i <= |tiles|
      invariant slices == SlicesOf(image, tiles[..i], raster)
    {
      var slice := SliceTile(image, tiles[i], raster);
      SlicesOfSnoc(image, tiles, raster, i);
      slices := slices + [slice];
      i := i + 1;
    }
    assert tiles[..i] == tiles;
  }

  // ---------------------------------------------------------------------
  // adjust_blend_strength and overlay_blend

  /** `adjust_blend_strength`: the variance and colour-distance score,
      capped at `maxOpacity`. */
  function AdjustBlendStrength(variance: real, colorDistance: real, maxOpacity: real): (s: real)
    ensures s <= maxOpacity && s <= variance / 10000.0 + colorDistance / 100.0
    ensures s == maxOpacity || s == variance / 10000.0 + colorDistance / 100.0
  {
    Min(maxOpacity, variance / 10000.0 + colorDistance / 100.0)
  }

  /** `max(0, min(opacity, 1))`. */
  function ClampOpacity(o: real): (c: real)
    ensures 0.0 <= c <= 1.0
    ensures 0.0 <= o <= 1.0 ==> c == o
    ensures o < 0.0 ==> c == 0.0
    ensures o > 1.0 ==> c == 1.0
  {
    Max(0.0, Min(o, 1.0))
  }

  /** With the default cap of 1 and a non-negative variance and distance,
      the strength `replace_slices` computes is already an opacity, so
      `overlay_blend`'s clamp leaves it as it is. */
  lemma BlendStrengthIsOpacity(variance: real, colorDistance: real)
    requires variance >= 0.0 && colorDistance >= 0.0
    ensures ClampOpacity(AdjustBlendStrength(variance, colorDistance, 1.0)) == AdjustBlendStrength(variance, colorDistance, 1.0)
  {
    var score := variance / 10000.0 + colorDistance / 100.0;
    assert score >= 0.0;
  }

  /** The overlay of one channel before opacity: multiply where the base is
      darker than 128, screen otherwise. */
  function OverlayValue(b: int, t: int): real
  {
    if b < 128 then (2 * b * t) as real / 255.0
    else 255.0 - (2 * (255 - b) * (255 - t)) as real / 255.0
  }

  /** One output channel of `overlay_blend`: the overlay mixed with the
      base by the opacity, then truncated by `int`. */
  function BlendChannel(b: int, t: int, opacity: real): int
  {
    Trunc(OverlayValue(b, t) * opacity + b as real * (1.0 - opacity))
  }

  lemma ProductBound(a: int, b: int, amax: int, bmax: int)
    requires 0 <= a <= amax && 0 <= b <= bmax
    ensures 0 <= a * b <= amax * bmax
  {
    assert a * b <= amax * b;
    assert amax * b <= amax * bmax;
  }

  lemma OverlayValueInRange(b: int, t: int)
    requires 0 <= b <= 255 && 0 <= t <= 255
    ensures 0.0 <= OverlayValue(b, t) <= 255.0
  {
    if b < 128 {
      ProductBound(b, t, 127, 255);
      var q := (2 * b * t) as real / 255.0;
      assert q * 255.0 == (2 * b * t) as real;
    } else {
      ProductBound(255 - b, 255 - t, 127, 255);
      var q := (2 * (255 - b) * (255 - t)) as real / 255.0;
      assert q * 255.0 == (2 * (255 - b) * (255 - t)) as real;
    }
  }

  lemma MulNonnegative(a: real, o: real)
    requires a >= 0.0 && o >= 0.0
    ensures a * o >= 0.0
  {
  }

  /** A mix `v * o + b * (1 - o)` of two values in [0, 255] by a weight in
      [0, 1] stays in [0, 255]. */
  lemma MixInRange(v: real, b: real, o: real)
    requires 0.0 <= v <= 255.0 && 0.0 <= b <= 255.0 && 0.0 <= o <= 1.0
    ensures 0.0 <= v * o + b * (1.0 - o) <= 255.0
  {
    var w := 1.0 - o;
    var low := v * o + b * w;
    MulNonnegative(v, o);
    MulNonnegative(b, w);
    assert 0.0 <= low;
    MulNonnegative(255.0 - v, o);
    MulNonnegative(255.0 - b, w);
    assert 255.0 - low == (255.0 - v) * o + (255.0 - b) * w;
  }

  /** For a base and a target channel in [0, 255] and an opacity in
      [0, 1], the blended channel is again in [0, 255]. */
  lemma BlendChannelInRange(b: int, t: int, opacity: real)
    requires 0 <= b <= 255 && 0 <= t <= 255 && 0.0 <= opacity <= 1.0
    ensures 0 <= BlendChannel(b, t, opacity) <= 255
  {
    OverlayValueInRange(b, t);
    MixInRange(OverlayValue(b, t), b as real, opacity);
  }

  /** With opacity 0 the channel is the base channel. */
  lemma BlendChannelOpacityZero(b: int, t: int)
    ensures BlendChannel(b, t, 0.0) == b
  {
    assert OverlayValue(b, t) * 0.0 + b as real * (1.0 - 0.0) == b as real;
  }

  /** One pixel of the blended image, which is an RGB image (alpha 255). */
  function BlendPixel(p: Pixel, target: Rgb, opacity: real): Pixel
  {
    Pixel(BlendChannel(p.r, target.r, opacity), BlendChannel(p.g, target.g, opacity),
          BlendChannel(p.b, target.b, opacity), 255)
  }

  /** The image `overlay_blend` returns for an opacity already clamped. */
  function Blended(image: Picture, target: Rgb, opacity: real): (r: Picture)
    requires Shaped(image)
    ensures Shaped(r) && r.width == image.width && r.height == image.height
  {
    Picture(image.width, image.height, seq(image.width, x requires 0 <= x < image.width =>
      seq(image.height, y requires 0 <= y < image.height => BlendPixel(image.px[x][y], target, opacity))))
  }

  predicate InRange(p: Pixel)
  {
    0 <= p.r <= 255 && 0 <= p.g <= 255 && 0 <= p.b <= 255
  }

  predicate ColorInRange(c: Rgb)
  {
    0 <= c.r <= 255 && 0 <= c.g <= 255 && 0 <= c.b <= 255
  }

  /** An image and a target colour with channels in [0, 255] blend into an
      image with channels in [0, 255]. */
  lemma BlendedInRange(image: Picture, target: Rgb, opacity: real)
    requires Shaped(image) && ColorInRange(target) && 0.0 <= opacity <= 1.0
    requires forall x, y :: 0 <= x < image.width && 0 <= y < image.height ==> InRange(image.px[x][y])
    ensures forall x, y :: 0 <= x < image.width && 0 <= y < image.height ==> InRange(Blended(image, target, opacity).px[x][y])
  {
    forall x, y | 0 <= x < image.width && 0 <= y < image.height
      ensures InRange(Blended(image, target, opacity).px[x][y])
    {
      var p := image.px[x][y];
      BlendChannelInRange(p.r, target.r, opacity);
      BlendChannelInRange(p.g, target.g, opacity);
      BlendChannelInRange(p.b, target.b, opacity);
    }
  }

  /** With opacity 0 the blend returns the base image's colours. */
  lemma BlendedOpacityZero(image: Picture, target: Rgb)
    requires Shaped(image)
    ensures forall x, y :: 0 <= x < image.width && 0 <= y < image.height ==>
      var q := Blended(image, target, 0.0).px[x][y];
      q.r == image.px[x][y].r && q.g == image.px[x][y].g && q.b == image.px[x][y].b
  {
    forall x, y | 0 <= x < image.width && 0 <= y < image.height
      ensures var q := Blended(image, target, 0.0).px[x][y];
              q.r == image.px[x][y].r && q.g == image.px[x][y].g && q.b == image.px[x][y].b
    {
      var p := image.px[x][y];
      BlendChannelOpacityZero(p.r, target.r);
      BlendChannelOpacityZero(p.g, target.g);
      BlendChannelOpacityZero(p.b, target.b);
    }
  }

  /** `overlay_blend(image, target_color, opacity)`: a new image of the
      same size, filled pixel by pixel, column by column, with the overlay
      of the base and the target colour. */
  method OverlayBlend(image: Picture, targetColor: Rgb, opacity: real) returns (blended: Picture)
    requires Shaped(image)
    ensures blended == Blended(image, targetColor, ClampOpacity(opacity))
  {
    var o := ClampOpacity(opacity);
    var result := new Pixel[image.width, image.height];
    var x := 0;
    while x < image.width
      invariant 0 <= x <= image.width
      invariant forall i, j :: 0 <= i < x && 0 <= j < image.height ==>
        result[i, j] == BlendPixel(image.px[i][j], targetColor, o)
    {
      var y := 0;
      while y < image.height
        invariant 0 <= y <= image.height
        invariant forall i, j :: 0 <= i < x && 0 <= j < image.height ==>
          result[i, j] == BlendPixel(image.px[i][j], targetColor, o)
        invariant forall j :: 0 <= j < y ==> result[x, j] == BlendPixel(image.px[x][j], targetColor, o)
      {
        result[x, y] := BlendOnePixel(image.px[x][y], targetColor, o);
        y := y + 1;
      }
      x := x + 1;
    }
    blended := Picture(image.width, image.height, seq(image.width, i requires 0 <= i < image.width reads result =>
      seq(image.height, j requires 0 <= j < image.height reads result => result[i, j])));
    assert forall i :: 0 <= i < image.width ==> blended.px[i] == Blended(image, targetColor, o).px[i];
  }

  /** The channel loop of `overlay_blend` for one pixel. */
  method BlendOnePixel(base: Pixel, blend: Rgb, opacity: real) returns (p: Pixel)
    ensures p == BlendPixel(base, blend, opacity)
  {
    var bases := [base.r, base.g, base.b];
    var blends := [blend.r, blend.g, blend.b];
    var newPixel: seq<int> := [];
    for i := 0 to 3
      invariant |newPixel| == i
      invariant forall k :: 0 <= k < i ==> newPixel[k] == BlendChannel(bases[k], blends[k], opacity)
    {
      var newColor: real;
      if bases[i] < 128 {
        newColor := (2 * bases[i] * blends[i]) as real / 255.0;
      } else {
        newColor := 255.0 - (2 * (255 - bases[i]) * (255 - blends[i])) as real / 255.0;
      }
      assert newColor == OverlayValue(bases[i], blends[i]);
      var next := newPixel + [Trunc(newColor * opacity + bases[i] as real * (1.0 - opacity))];
      assert next[i] == BlendChannel(bases[i], blends[i], opacity);
      assert forall k :: 0 <= k < i ==> next[k] == newPixel[k];
      newPixel := next;
    }
    p := Pixel(newPixel[0], newPixel[1], newPixel[2], 255);
  }

  // ---------------------------------------------------------------------
  // place_slices_on_canvas

  predicate AllShaped(slices: seq<Slice>)
  {
    forall k :: 0 <= k < |slices| ==> Shaped(slices[k].image)
  }

  /** Whether canvas pixel (x, y) lies under the slice once
      `paste(slice_img, (int(x), int(y)), mask)` has placed it. */
  predicate Covers(s: Slice, x: int, y: int)
  {
    Trunc(s.position.x) <= x < Trunc(s.position.x) + s.image.width &&
    Trunc(s.position.y) <= y < Trunc(s.position.y) + s.image.height
  }

  /** The slice pixel that lands on canvas pixel (x, y). */
  function SourcePixel(s: Slice, x: int, y: int): Pixel
    requires Shaped(s.image) && Covers(s, x, y)
  {
    s.image.px[x - Trunc(s.position.x)][y - Trunc(s.position.y)]
  }

  /** Canvas pixel (x, y) after one paste. `composite(dst, src)` is PIL's
      masked paste of a single pixel, with the slice's own alpha as mask. */
  function PastePixel(dst: Pixel, s: Slice, x: int, y: int, composite: (Pixel, Pixel) -> Pixel): Pixel
    requires Shaped(s.image)
  {
    if Covers(s, x, y) then composite(dst, SourcePixel(s, x, y)) else dst
  }

  /** Canvas pixel (x, y) after pasting the slices in list order. */
  function Pasted(dst: Pixel, slices: seq<Slice>, x: int, y: int, composite: (Pixel, Pixel) -> Pixel): Pixel
    requires AllShaped(slices)
  {
    if slices == [] then dst
    else
      var n := |slices| - 1;
      PastePixel(Pasted(dst, slices[..n], x, y, composite), slices[n], x, y, composite)
  }

  /** A canvas pixel that no slice covers keeps its colour. */
  lemma {:induction false} PastedOutsideUnchanged(dst: Pixel, slices: seq<Slice>, x: int, y: int, composite: (Pixel, Pixel) -> Pixel)
    requires AllShaped(slices)
    requires forall k :: 0 <= k < |slices| ==> !Covers(slices[k], x, y)
    ensures Pasted(dst, slices, x, y, composite) == dst
  {
    if slices != [] {
      var n := |slices| - 1;
      assert forall k :: 0 <= k < n ==> slices[..n][k] == slices[k];
      PastedOutsideUnchanged(dst, slices[..n], x, y, composite);
    }
  }

  /** A masked paste copies a fully opaque source pixel. */
  ghost predicate OpaqueReplaces(composite: (Pixel, Pixel) -> Pixel)
  {
    forall dst: Pixel, src: Pixel :: src.a == 255 ==> composite(dst, src) == src
  }

  /** Later slices are pasted over earlier ones: where the last slice to
      cover a canvas pixel is opaque, the canvas shows that slice's pixel,
      whatever was there before. */
  lemma {:induction false} PastedLastOpaqueWins(dst: Pixel, slices: seq<Slice>, k: int, x: int, y: int, composite: (Pixel, Pixel) -> Pixel)
    requires AllShaped(slices) && OpaqueReplaces(composite)
    requires 0 <= k < |slices| && Covers(slices[k], x, y) && SourcePixel(slices[k], x, y).a == 255
    requires forall j :: k < j < |slices| ==> !Covers(slices[j], x, y)
    ensures Pasted(dst, slices, x, y, composite) == SourcePixel(slices[k], x, y)
  {
    var n := |slices| - 1;
    if k < n {
      assert forall j :: 0 <= j < n ==> slices[..n][j] == slices[j];
      PastedLastOpaqueWins(dst, slices[..n], k, x, y, composite);
    }
  }

  /** PIL's `paste` of one slice: each slice pixel that falls on the
      canvas is composited onto it. */
  method Paste(canvas: array2<Pixel>, s: Slice, composite: (Pixel, Pixel) -> Pixel)
    requires Shaped(s.image)
    modifies canvas
    ensures forall x, y :: 0 <= x < canvas.Length0 && 0 <= y < canvas.Length1 ==>
      canvas[x, y] == PastePixel(old(canvas[x, y]), s, x, y, composite)
  {
    var ox, oy := Trunc(s.position.x), Trunc(s.position.y);
    var w, h := s.image.width, s.image.height;
    var i := 0;
    while i < w
      invariant 0 <= i <= w
      invariant forall x, y :: 0 <= x < canvas.Length0 && 0 <= y < canvas.Length1 ==>
        canvas[x, y] == if ox <= x < ox + i && oy <= y < oy + h
                        then composite(old(canvas[x, y]), s.image.px[x - ox][y - oy])
                        else old(canvas[x, y])
    {
      var j := 0;
      while j < h
        invariant 0 <= j <= h
        invariant forall x, y :: 0 <= x < canvas.Length0 && 0 <= y < canvas.Length1 ==>
          canvas[x, y] == if (ox <= x < ox + i && oy <= y < oy + h) || (x == ox + i && oy <= y < oy + j)
                          then composite(old(canvas[x, y]), s.image.px[x - ox][y - oy])
                          else old(canvas[x, y])
      {
        var x, y := ox + i, oy + j;
        if 0 <= x < canvas.Length0 && 0 <= y < canvas.Length1 {
          canvas[x, y] := composite(canvas[x, y], s.image.px[i][j]);
        }
        j := j + 1;
      }
      i := i + 1;
    }
  }

  /** `place_slices_on_canvas(canvas, slices)`: pastes every slice at its
      truncated position, in list order. */
  method PlaceSlicesOnCanvas(canvas: array2<Pixel>, slices: seq<Slice>, composite: (Pixel, Pixel) -> Pixel)
    requires AllShaped(slices)
    modifies canvas
    ensures forall x, y :: 0 <= x < canvas.Length0 && 0 <= y < canvas.Length1 ==>
      canvas[x, y] == Pasted(old(canvas[x, y]), slices, x, y, composite)
  {
    var k := 0;
    while k < |slices|
      invariant 0 <= k <= |slices|
      invariant forall x, y :: 0 <= x < canvas.Length0 && 0 <= y < canvas.Length1 ==>
        canvas[x, y] == Pasted(old(canvas[x, y]), slices[..k], x, y, composite)
    {
      Paste(canvas, slices[k], composite);
      assert slices[..k + 1][..k] == slices[..k];
      k := k + 1;
    }
    assert slices[..k] == slices;
  }

  // ---------------------------------------------------------------------
  // replace_slices: choosing the library image

  /** A value of the image database: the average colour stored in its
      first three numbers and the colour variance stored in the fourth. */
  datatype Entry = Entry(color: Rgb, variance: real)

  /** `color[:3]` of a stored value. */
  function StoredColor(e: Entry): Rgb { e.color }

  /** The keys of a JSON object are distinct. */
  predicate DistinctKeys<V>(lib: seq<(string, V)>)
  {
    forall i, j :: 0 <= i < j < |lib| ==> lib[i].0 != lib[j].0
  }

  predicate HasKey<V>(lib: seq<(string, V)>, path: string)
  {
    exists i :: 0 <= i < |lib| && lib[i].0 == path
  }

  function Distance<V>(lib: seq<(string, V)>, i: int, colorOf: V -> Rgb, target: Rgb): int
    requires 0 <= i < |lib|
  {
    ColorDistanceSq(colorOf(lib[i].1), target)
  }

  /** The position of the value `min(image_database.values(), key=...)`
      returns: `min` keeps the first value at least distance from the
      target, comparing the colour `colorOf` picks out of each value. */
  function ClosestIndex<V>(lib: seq<(string, V)>, colorOf: V -> Rgb, target: Rgb): (i: nat)
    requires |lib| > 0
    ensures i < |lib|
    ensures forall j :: 0 <= j < |lib| ==> Distance(lib, i, colorOf, target) <= Distance(lib, j, colorOf, target)
    ensures forall j :: 0 <= j < i ==> Distance(lib, i, colorOf, target) < Distance(lib, j, colorOf, target)
  {
    if |lib| == 1 then 0
    else
      var n := |lib| - 1;
      var i := ClosestIndex(lib[..n], colorOf, target);
      assert forall j :: 0 <= j < n ==> lib[..n][j] == lib[j];
      assert forall j :: 0 <= j < n ==> Distance(lib[..n], j, colorOf, target) == Distance(lib, j, colorOf, target);
      if Distance(lib, n, colorOf, target) < Distance(lib, i, colorOf, target) then n else i
  }

  /** `[image_path for image_path, color in image_database.items() if
      color == closest_color]`, in database order. */
  function Candidates<V(==)>(lib: seq<(string, V)>, v: V): (paths: seq<string>)
    ensures forall p :: p in paths <==> exists i :: 0 <= i < |lib| && lib[i] == (p, v)
  {
    if lib == [] then []
    else
      var n := |lib| - 1;
      var rest := Candidates(lib[..n], v);
      assert forall j :: 0 <= j < n ==> lib[..n][j] == lib[j];
      if lib[n].1 == v then rest + [lib[n].0] else rest
  }

  /** The paths `random.choice` picks from for one average colour. */
  function ClosestPaths<V(==)>(lib: seq<(string, V)>, colorOf: V -> Rgb, target: Rgb): seq<string>
    requires |lib| > 0
  {
    Candidates(lib, lib[ClosestIndex(lib, colorOf, target)].1)
  }

  /** The candidate list holds the closest value's own path, so
      `random.choice` never sees an empty list. */
  lemma ClosestPathsNonEmpty<V>(lib: seq<(string, V)>, colorOf: V -> Rgb, target: Rgb)
    requires |lib| > 0
    ensures lib[ClosestIndex(lib, colorOf, target)].0 in ClosestPaths(lib, colorOf, target)
    ensures |ClosestPaths(lib, colorOf, target)| > 0
  {
    var i := ClosestIndex(lib, colorOf, target);
    assert lib[i] == (lib[i].0, lib[i].1);
  }

  /** `image_database[path]`. */
  function Lookup<V>(lib: seq<(string, V)>, path: string): (v: V)
    requires HasKey(lib, path)
    ensures exists i :: 0 <= i < |lib| && lib[i] == (path, v)
  {
    if lib[0].0 == path then lib[0].1
    else
      assert forall i :: 1 <= i < |lib| ==> lib[1..][i - 1] == lib[i];
      assert HasKey(lib[1..], path) by {
        var i :| 0 <= i < |lib| && lib[i].0 == path;
        assert lib[1..][i - 1].0 == path;
      }
      Lookup(lib[1..], path)
  }

  /** Whatever path is chosen, the value stored under it is the closest
      value: none is nearer the target. */
  lemma ChosenEntryIsClosest<V>(lib: seq<(string, V)>, colorOf: V -> Rgb, target: Rgb, path: string)
    requires |lib| > 0 && DistinctKeys(lib)
    requires path in ClosestPaths(lib, colorOf, target)
    ensures HasKey(lib, path)
    ensures Lookup(lib, path) == lib[ClosestIndex(lib, colorOf, target)].1
    ensures forall j :: 0 <= j < |lib| ==>
      ColorDistanceSq(colorOf(Lookup(lib, path)), target) <= ColorDistanceSq(colorOf(lib[j].1), target)
  {
    var c := ClosestIndex(lib, colorOf, target);
    var i :| 0 <= i < |lib| && lib[i] == (path, lib[c].1);
    var k :| 0 <= k < |lib| && lib[k] == (path, Lookup(lib, path));
    assert i == k;
    forall j | 0 <= j < |lib|
      ensures ColorDistanceSq(colorOf(Lookup(lib, path)), target) <= ColorDistanceSq(colorOf(lib[j].1), target)
    {
      assert Distance(lib, c, colorOf, target) <= Distance(lib, j, colorOf, target);
    }
  }

  /** A library of one image always yields that image. */
  lemma SingleEntryIsChosen<V>(lib: seq<(string, V)>, colorOf: V -> Rgb, target: Rgb)
    requires |lib| == 1
    ensures ClosestPaths(lib, colorOf, target) == [lib[0].0]
  {
    assert ClosestIndex(lib, colorOf, target) == 0;
    assert lib[..0] == [];
    assert Candidates(lib[..0], lib[0].1) == [];
  }

  // ---------------------------------------------------------------------
  // replace_slices: fitting the image to the tile

  /** `max(tile_width / img_width, tile_height / img_height)`. */
  function CoverScale(tileW: real, tileH: real, imgW: nat, imgH: nat): real
    requires imgW > 0 && imgH > 0
  {
    Max(tileW / imgW as real, tileH / imgH as real)
  }

  lemma QuotientTimesDivisor(a: real, n: nat)
    requires n > 0
    ensures (a / n as real) * n as real == a
  {
  }

  lemma ScaleUp(s: real, q: real, n: nat)
    requires n > 0 && s >= q
    ensures s * n as real >= q * n as real
  {
  }

  /** The cover scale makes the image at least as wide and as high as the
      tile, and exactly as wide or exactly as high. */
  lemma CoverScaleCovers(tileW: real, tileH: real, imgW: nat, imgH: nat)
    requires imgW > 0 && imgH > 0
    ensures CoverScale(tileW, tileH, imgW, imgH) * imgW as real >= tileW
    ensures CoverScale(tileW, tileH, imgW, imgH) * imgH as real >= tileH
    ensures CoverScale(tileW, tileH, imgW, imgH) * imgW as real == tileW ||
            CoverScale(tileW, tileH, imgW, imgH) * imgH as real == tileH
  {
    var s := CoverScale(tileW, tileH, imgW, imgH);
    QuotientTimesDivisor(tileW, imgW);
    QuotientTimesDivisor(tileH, imgH);
    ScaleUp(s, tileW / imgW as real, imgW);
    ScaleUp(s, tileH / imgH as real, imgH);
  }

  /** `(int(img_width * scale), int(img_height * scale))`. */
  function ResizedSize(imgW: nat, imgH: nat, scale: real): (int, int)
  {
    (Trunc(imgW as real * scale), Trunc(imgH as real * scale))
  }

  /** After truncation the resized image falls short of the tile by less
      than one pixel along each axis. */
  lemma ResizedSizeNearlyCovers(tileW: real, tileH: real, imgW: nat, imgH: nat)
    requires imgW > 0 && imgH > 0 && tileW >= 0.0 && tileH >= 0.0
    ensures ResizedSize(imgW, imgH, CoverScale(tileW, tileH, imgW, imgH)).0 as real > tileW - 1.0
    ensures ResizedSize(imgW, imgH, CoverScale(tileW, tileH, imgW, imgH)).1 as real > tileH - 1.0
  {
    CoverScaleCovers(tileW, tileH, imgW, imgH);
  }

  // ---------------------------------------------------------------------
  // replace_slices: scaling positions and vertices

  function ScaledPosition(p: Point, k: real): Point
  {
    Point(p.x * k, p.y * k)
  }

  function ScaledVertices(vs: seq<Point>, k: real): (ss: seq<Point>)
    ensures |ss| == |vs| && forall i :: 0 <= i < |vs| ==> ss[i] == ScaledPosition(vs[i], k)
  {
    seq(|vs|, i requires 0 <= i < |vs| => ScaledPosition(vs[i], k))
  }

  // ---------------------------------------------------------------------
  // replace_slices

  /** What `replace_slices` fails with: `min` of an empty sequence raises
      ValueError, a division by zero ZeroDivisionError. */
  datatype Fault = ValueError | ZeroDivisionError

  datatype Result<T> = Success(value: T) | Failure(fault: Fault)

  /** What the compositor takes from outside: `open(name)` is the image
      `Image.open` reads, `resize(image, w, h)` PIL's `resize`,
      `raster(vertices, x, y)` the value `ImageDraw.polygon` draws at
      (x, y) and `sqrt` the square root of `color_distance`. */
  datatype Environment = Environment(
    open: string -> Picture,
    resize: (Picture, int, int) -> Picture,
    raster: (seq<Point>, int, int) -> int,
    sqrt: int -> real)

  /** PIL images are rectangular. */
  ghost predicate ResizeShaped(env: Environment)
  {
    forall p, w, h :: Shaped(env.resize(p, w, h))
  }

  /** The picture `replace_slices` makes of the library image `picture`
      for a tile with the given (scaled) vertices: resized to cover the
      tile, tinted toward the slice's average colour by the strength the
      stored entry earns, and masked to the tile. */
  function FittedImage(picture: Picture, vertices: seq<Point>, average: Rgb, entry: Entry, env: Environment): (r: Picture)
    requires |vertices| > 0 && picture.width > 0 && picture.height > 0 && ResizeShaped(env)
    ensures Shaped(r)
    ensures r.width == MaskedSliceBox(vertices).right - MaskedSliceBox(vertices).left
    ensures r.height == MaskedSliceBox(vertices).bottom - MaskedSliceBox(vertices).top
  {
    var tile := BoundingBoxDimensions(vertices);
    var scale := CoverScale(tile.0, tile.1, picture.width, picture.height);
    var strength := AdjustBlendStrength(entry.variance, env.sqrt(ColorDistanceSq(entry.color, average)), 1.0);
    var size := ResizedSize(picture.width, picture.height, scale);
    var resized := env.resize(picture, size.0, size.1);
    GetMaskedSlice(Blended(resized, average, ClampOpacity(strength)), vertices, env.raster)
  }

  /** `math.sqrt` of a non-negative number is non-negative. */
  ghost predicate SqrtNonNegative(env: Environment)
  {
    forall n :: n >= 0 ==> env.sqrt(n) >= 0.0
  }

  /** With a non-negative stored variance and a square root that is never
      negative, the tint `replace_slices` applies is the adjusted blend
      strength itself: `overlay_blend`'s clamp never changes it. */
  lemma FittedImageUsesStrength(picture: Picture, vertices: seq<Point>, average: Rgb, entry: Entry, env: Environment)
    requires |vertices| > 0 && picture.width > 0 && picture.height > 0 && ResizeShaped(env)
    requires entry.variance >= 0.0 && SqrtNonNegative(env)
    ensures var tile := BoundingBoxDimensions(vertices);
            var size := ResizedSize(picture.width, picture.height, CoverScale(tile.0, tile.1, picture.width, picture.height));
            var strength := AdjustBlendStrength(entry.variance, env.sqrt(ColorDistanceSq(entry.color, average)), 1.0);
            FittedImage(picture, vertices, average, entry, env) ==
              GetMaskedSlice(Blended(env.resize(picture, size.0, size.1), average, strength), vertices, env.raster)
  {
    var distance := env.sqrt(ColorDistanceSq(entry.color, average));
    assert distance >= 0.0;
    BlendStrengthIsOpacity(entry.variance, distance);
  }

  /** The replacement `replace_slices` builds for one slice once it has
      picked `path`. */
  function ReplacementFor(s: Slice, lib: seq<(string, Entry)>, path: string, scaleFactor: real, folder: string, env: Environment): Result<Slice>
    requires Shaped(s.image) && |Data(s.image)| > 0 && ResizeShaped(env) && HasKey(lib, path)
  {
    var vertices := ScaledVertices(s.vertices, scaleFactor);
    var picture := env.open(folder + path);
    if |vertices| == 0 then Failure(ValueError)
    else if picture.width == 0 || picture.height == 0 then Failure(ZeroDivisionError)
    else
      var image := FittedImage(picture, vertices, AverageColor(Data(s.image)), Lookup(lib, path), env);
      Success(Slice(image, ScaledPosition(s.position, scaleFactor), vertices))
  }

  /** A replacement sits at the slice position times the scale factor,
      carries the slice's vertices each times the scale factor, and its
      picture is exactly as large as the crop box of those vertices. */
  lemma ReplacementPlacement(s: Slice, lib: seq<(string, Entry)>, path: string, scaleFactor: real, folder: string, env: Environment)
    requires Shaped(s.image) && |Data(s.image)| > 0 && ResizeShaped(env) && HasKey(lib, path)
    requires ReplacementFor(s, lib, path, scaleFactor, folder, env).Success?
    ensures var r := ReplacementFor(s, lib, path, scaleFactor, folder, env).value;
            r.position == ScaledPosition(s.position, scaleFactor) &&
            r.vertices == ScaledVertices(s.vertices, scaleFactor) && |r.vertices| > 0 &&
            r.image.width == MaskedSliceBox(r.vertices).right - MaskedSliceBox(r.vertices).left &&
            r.image.height == MaskedSliceBox(r.vertices).bottom - MaskedSliceBox(r.vertices).top
  {
    var vertices := ScaledVertices(s.vertices, scaleFactor);
    var picture := env.open(folder + path);
    assert |vertices| > 0 && picture.width > 0 && picture.height > 0;
    var image := FittedImage(picture, vertices, AverageColor(Data(s.image)), Lookup(lib, path), env);
    assert ReplacementFor(s, lib, path, scaleFactor, folder, env) == Success(Slice(image, ScaledPosition(s.position, scaleFactor), vertices));
  }

  /** A replacement fails exactly when the slice has no vertices (the
      bounding box takes `min` of nothing) or the chosen image has no
      width or no height (the scale divides by it). */
  lemma ReplacementFailures(s: Slice, lib: seq<(string, Entry)>, path: string, scaleFactor: real, folder: string, env: Environment)
    requires Shaped(s.image) && |Data(s.image)| > 0 && ResizeShaped(env) && HasKey(lib, path)
    ensures ReplacementFor(s, lib, path, scaleFactor, folder, env) == Failure(ValueError) <==> |s.vertices| == 0
    ensures ReplacementFor(s, lib, path, scaleFactor, folder, env) == Failure(ZeroDivisionError) <==>
      |s.vertices| > 0 && (env.open(folder + path).width == 0 || env.open(folder + path).height == 0)
  {
  }

  /** The loop body of `replace_slices` for one slice. */
  method ReplaceSlice(s: Slice, lib: seq<(string, Entry)>, scaleFactor: real, folder: string, env: Environment)
    returns (r: Result<Slice>, ghost path: string)
    requires Shaped(s.image) && ResizeShaped(env)
    ensures |Data(s.image)| == 0 ==> r == Failure(ZeroDivisionError)
    ensures |Data(s.image)| > 0 && |lib| == 0 ==> r == Failure(ValueError)
    ensures |Data(s.image)| > 0 && |lib| > 0 ==>
      path in ClosestPaths(lib, StoredColor, AverageColor(Data(s.image))) && HasKey(lib, path) &&
      r == ReplacementFor(s, lib, path, scaleFactor, folder, env)
  {
    path := "";
    var scaledPos := ScaledPosition(s.position, scaleFactor);
    var scaledInnerVert := ScaledVertices(s.vertices, scaleFactor);
    var pixels := Data(s.image);
    if |pixels| == 0 {
      return Failure(ZeroDivisionError), path;
    }
    var avgColor := AverageColor(pixels);
    if |lib| == 0 {
      return Failure(ValueError), path;
    }
    var closestColor := lib[ClosestIndex(lib, StoredColor, avgColor)].1;
    var closestImages := Candidates(lib, closestColor);
    ClosestPathsNonEmpty(lib, StoredColor, avgColor);
    var imagePath :| imagePath in closestImages;
    path := imagePath;
    var replacement := env.open(folder + imagePath);
    if |scaledInnerVert| == 0 {
      return Failure(ValueError), path;
    }
    var tile := BoundingBoxDimensions(scaledInnerVert);
    if replacement.width == 0 || replacement.height == 0 {
      return Failure(ZeroDivisionError), path;
    }
    var scale := CoverScale(tile.0, tile.1, replacement.width, replacement.height);
    var entry := Lookup(lib, imagePath);
    var colorDist := env.sqrt(ColorDistanceSq(entry.color, avgColor));
    var blendStrength := AdjustBlendStrength(entry.variance, colorDist, 1.0);
    var newSize := ResizedSize(replacement.width, replacement.height, scale);
    var resized := env.resize(replacement, newSize.0, newSize.1);
    var blended := OverlayBlend(resized, avgColor, blendStrength);
    var cropped := GetMaskedSlice(blended, scaledInnerVert, env.raster);
    assert cropped == FittedImage(replacement, scaledInnerVert, avgColor, entry, env);
    r := Success(Slice(cropped, scaledPos, scaledInnerVert));
  }

  /** `out` is a replacement `replace_slices` may build for slice `s`: the
      one built from some path among the closest candidates. */
  ghost predicate Replaces(s: Slice, lib: seq<(string, Entry)>, scaleFactor: real, folder: string, env: Environment, out: Slice)
  {
    Shaped(s.image) && ResizeShaped(env) && |Data(s.image)| > 0 && |lib| > 0 &&
    exists path :: path in ClosestPaths(lib, StoredColor, AverageColor(Data(s.image))) && HasKey(lib, path) &&
      ReplacementFor(s, lib, path, scaleFactor, folder, env) == Success(out)
  }

  /** Some replacement can be built for slice `s`. */
  ghost predicate Replaceable(s: Slice, lib: seq<(string, Entry)>, scaleFactor: real, folder: string, env: Environment)
  {
    exists out :: Replaces(s, lib, scaleFactor, folder, env, out)
  }

  /** The replacement of slice `s` may stop with `fault`: a `ZeroDivisionError`
      when its picture is empty (the average divides by the pixel count), a
      `ValueError` when the picture has pixels but the library is empty
      (`min` of nothing), and otherwise the fault of building the
      replacement from one of the closest candidates. */
  ghost predicate FailsWith(s: Slice, lib: seq<(string, Entry)>, scaleFactor: real, folder: string, env: Environment, fault: Fault)
    requires Shaped(s.image) && ResizeShaped(env)
  {
    if |Data(s.image)| == 0 then fault == ZeroDivisionError
    else if |lib| == 0 then fault == ValueError
    else
      exists path :: path in ClosestPaths(lib, StoredColor, AverageColor(Data(s.image))) && HasKey(lib, path) &&
        ReplacementFor(s, lib, path, scaleFactor, folder, env) == Failure(fault)
  }

  /** `rel` holds between each element of `xs` and the element of `ys` at
      the same index. */
  ghost predicate Pairwise<A, B>(xs: seq<A>, ys: seq<B>, rel: (A, B) -> bool)
  {
    |xs| == |ys| && forall k :: 0 <= k < |xs| ==> rel(xs[k], ys[k])
  }

  lemma PairwiseSnoc<A, B>(xs: seq<A>, ys: seq<B>, y: B, rel: (A, B) -> bool)
    requires |ys| < |xs| && Pairwise(xs[..|ys|], ys, rel) && rel(xs[|ys|], y)
    ensures Pairwise(xs[..|ys| + 1], ys + [y], rel)
  {
    var n := |ys|;
    assert forall k :: 0 <= k < n ==> xs[..n + 1][k] == xs[..n][k] && (ys + [y])[k] == ys[k];
  }

  /** What `ReplaceSlice` promises about one slice, read as `Replaces` on
      success and `FailsWith` its fault on failure. */
  lemma ReplaceSliceOutcome(s: Slice, lib: seq<(string, Entry)>, scaleFactor: real, folder: string, env: Environment,
                            path: string, r: Result<Slice>)
    requires Shaped(s.image) && ResizeShaped(env)
    requires |Data(s.image)| == 0 ==> r == Failure(ZeroDivisionError)
    requires |Data(s.image)| > 0 && |lib| == 0 ==> r == Failure(ValueError)
    requires |Data(s.image)| > 0 && |lib| > 0 ==>
      path in ClosestPaths(lib, StoredColor, AverageColor(Data(s.image))) && HasKey(lib, path) &&
      r == ReplacementFor(s, lib, path, scaleFactor, folder, env)
    ensures r.Success? ==> Replaces(s, lib, scaleFactor, folder, env, r.value)
    ensures r.Failure? ==> FailsWith(s, lib, scaleFactor, folder, env, r.fault)
  {
    if |Data(s.image)| > 0 && |lib| > 0 {
      if r.Success? {
        assert ReplacementFor(s, lib, path, scaleFactor, folder, env) == Success(r.value);
      } else {
        assert ReplacementFor(s, lib, path, scaleFactor, folder, env) == Failure(r.fault);
      }
    }
  }

  /** The slices before the first failure were each replaced. */
  lemma ReplacedPrefix(slices: seq<Slice>, mosaic: seq<Slice>, lib: seq<(string, Entry)>, scaleFactor: real, folder: string, env: Environment)
    requires |mosaic| <= |slices|
    requires Pairwise(slices[..|mosaic|], mosaic, (s, out) => Replaces(s, lib, scaleFactor, folder, env, out))
    ensures forall j :: 0 <= j < |mosaic| ==> Replaceable(slices[j], lib, scaleFactor, folder, env)
  {
    forall j | 0 <= j < |mosaic|
      ensures Replaceable(slices[j], lib, scaleFactor, folder, env)
    {
      assert slices[..|mosaic|][j] == slices[j];
      assert Replaces(slices[j], lib, scaleFactor, folder, env, mosaic[j]);
    }
  }

  /** `replace_slices(slices, ...)`: one replacement per slice, in slice
      order, each built from an image at least distance from the slice's
      average colour; the first slice that cannot be replaced ends the
      run with its error. */
  method ReplaceSlices(slices: seq<Slice>, lib: seq<(string, Entry)>, scaleFactor: real, folder: string, env: Environment)
    returns (r: Result<seq<Slice>>)
    requires AllShaped(slices) && ResizeShaped(env)
    ensures r.Success? ==> |r.value| == |slices|
    ensures r.Success? ==> forall i :: 0 <= i < |slices| ==> Replaces(slices[i], lib, scaleFactor, folder, env, r.value[i])
    ensures r.Failure? ==>
              exists i :: 0 <= i < |slices| &&
                (forall j :: 0 <= j < i ==> Replaceable(slices[j], lib, scaleFactor, folder, env)) &&
                FailsWith(slices[i], lib, scaleFactor, folder, env, r.fault)
  {
    ghost var replacement := (s, out) => Replaces(s, lib, scaleFactor, folder, env, out);
    var mosaic: seq<Slice> := [];
    var i := 0;
    while i < |slices|
      invariant 0 <= i <= |slices|
      invariant Pairwise(slices[..i], mosaic, replacement)
    {
      var one, path := ReplaceSlice(slices[i], lib, scaleFactor, folder, env);
      ReplaceSliceOutcome(slices[i], lib, scaleFactor, folder, env, path, one);
      if one.Failure? {
        ReplacedPrefix(slices, mosaic, lib, scaleFactor, folder, env);
        return Failure(one.fault);
      }
      PairwiseSnoc(slices, mosaic, one.value, replacement);
      mosaic, i := mosaic + [one.value], i + 1;
    }
    assert slices[..i] == slices;
    r := Success(mosaic);
  }
}
