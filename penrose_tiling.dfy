/** The single-file predecessor of the generator and the compositor, and
    its unit tests. Its tile generator, slicing, masking, pasting and
    helpers are the same as those of `CreateTiles`, `ReplaceSlices` and
    `Utils`; what differs is `replace_slices`: the database maps each path
    to its average colour alone, the whole stored value is compared with
    the slice's average, images are read from a fixed folder, and the
    replacement is not tinted. */
module PenroseTiling {
  import opened Utils
  import opened CreateTiles
  import opened ReplaceSlices

  // ---------------------------------------------------------------------
  // replace_slices (without the tint)

  /** The folder the legacy compositor reads library images from. */
  const ImageDatabaseFolder: string := "photomosaic/image_database/"

  /** A legacy database value is the colour itself: `color_distance`
      compares the whole stored value with the average. */
  function WholeColor(c: Rgb): Rgb { c }

  /** The legacy fitting: resized to cover the tile and masked to it,
      with no tint. */
  function LegacyFittedImage(picture: Picture, vertices: seq<Point>, env: Environment): (r: Picture)
    requires |vertices| > 0 && picture.width > 0 && picture.height > 0
    ensures Shaped(r)
    ensures r.width == MaskedSliceBox(vertices).right - MaskedSliceBox(vertices).left
    ensures r.height == MaskedSliceBox(vertices).bottom - MaskedSliceBox(vertices).top
  {
    var tile := BoundingBoxDimensions(vertices);
    var scale := CoverScale(tile.0, tile.1, picture.width, picture.height);
    var size := ResizedSize(picture.width, picture.height, scale);
    GetMaskedSlice(env.resize(picture, size.0, size.1), vertices, env.raster)
  }

  /** The replacement the legacy `replace_slices` builds for one slice
      once it has picked `path`. */
  function LegacyReplacementFor(s: Slice, path: string, scaleFactor: real, env: Environment): Result<Slice>
  {
    var vertices := ScaledVertices(s.vertices, scaleFactor);
    var picture := env.open(ImageDatabaseFolder + path);
    if |vertices| == 0 then Failure(ValueError)
    else if picture.width == 0 || picture.height == 0 then Failure(ZeroDivisionError)
    else Success(Slice(LegacyFittedImage(picture, vertices, env), ScaledPosition(s.position, scaleFactor), vertices))
  }

  /** A legacy replacement sits at the scaled slice position, carries the
      scaled vertices, and its picture is exactly as large as the crop box
      of those vertices. */
  lemma LegacyReplacementPlacement(s: Slice, path: string, scaleFactor: real, env: Environment)
    requires LegacyReplacementFor(s, path, scaleFactor, env).Success?
    ensures var r := LegacyReplacementFor(s, path, scaleFactor, env).value;
            r.position == ScaledPosition(s.position, scaleFactor) &&
            r.vertices == ScaledVertices(s.vertices, scaleFactor) && |r.vertices| > 0 &&
            r.image.width == MaskedSliceBox(r.vertices).right - MaskedSliceBox(r.vertices).left &&
            r.image.height == MaskedSliceBox(r.vertices).bottom - MaskedSliceBox(r.vertices).top
  {
    var vertices := ScaledVertices(s.vertices, scaleFactor);
    var picture := env.open(ImageDatabaseFolder + path);
    assert |vertices| > 0 && picture.width > 0 && picture.height > 0;
    var image := LegacyFittedImage(picture, vertices, env);
    assert LegacyReplacementFor(s, path, scaleFactor, env) == Success(Slice(image, ScaledPosition(s.position, scaleFactor), vertices));
  }

  /** A legacy replacement fails exactly when the slice has no vertices or
      the image read from the database folder has no width or no height. */
  lemma LegacyReplacementFailures(s: Slice, path: string, scaleFactor: real, env: Environment)
    ensures LegacyReplacementFor(s, path, scaleFactor, env) == Failure(ValueError) <==> |s.vertices| == 0
    ensures LegacyReplacementFor(s, path, scaleFactor, env) == Failure(ZeroDivisionError) <==>
      |s.vertices| > 0 && (env.open(ImageDatabaseFolder + path).width == 0 || env.open(ImageDatabaseFolder + path).height == 0)
  {
  }

  /** Masking replaces the alpha, so a blend at opacity 0, which keeps the
      colours, leaves no trace in the masked slice. */
  lemma MaskIgnoresUntintedBlend(image: Picture, target: Rgb, vs: seq<Point>, raster: (seq<Point>, int, int) -> int)
    requires Shaped(image) && |vs| > 0
    ensures GetMaskedSlice(Blended(image, target, 0.0), vs, raster) == GetMaskedSlice(image, vs, raster)
  {
    var tinted := Blended(image, target, 0.0);
    var b := MaskedSliceBox(vs);
    var alpha := (x, y) => raster(vs, x, y);
    var c1, c2 := Crop(tinted, b, alpha), Crop(image, b, alpha);
    BlendedOpacityZero(image, target);
    forall i | 0 <= i < c1.width
      ensures c1.px[i] == c2.px[i]
    {
      forall j | 0 <= j < c1.height
        ensures c1.px[i][j] == c2.px[i][j]
      {
        CropKeepsColours(tinted, b, alpha, i, j);
        CropKeepsColours(image, b, alpha, i, j);
      }
    }
  }

  /** The current compositor differs from the legacy one only by the
      tint: when the blend strength clamps to 0 the fitted pictures are
      the same. */
  lemma UntintedFitIsLegacyFit(picture: Picture, vertices: seq<Point>, average: Rgb, entry: Entry, env: Environment)
    requires |vertices| > 0 && picture.width > 0 && picture.height > 0 && ResizeShaped(env)
    requires ClampOpacity(AdjustBlendStrength(entry.variance, env.sqrt(ColorDistanceSq(entry.color, average)), 1.0)) == 0.0
    ensures FittedImage(picture, vertices, average, entry, env) == LegacyFittedImage(picture, vertices, env)
  {
    var tile := BoundingBoxDimensions(vertices);
    var size := ResizedSize(picture.width, picture.height, CoverScale(tile.0, tile.1, picture.width, picture.height));
    MaskIgnoresUntintedBlend(env.resize(picture, size.0, size.1), average, vertices, env.raster);
  }

  /** The loop body of the legacy `replace_slices` for one slice. */
  method LegacyReplaceSlice(s: Slice, lib: seq<(string, Rgb)>, scaleFactor: real, env: Environment)
    returns (r: Result<Slice>, ghost path: string)
    requires Shaped(s.image)
    ensures |Data(s.image)| == 0 ==> r == Failure(ZeroDivisionError)
    ensures |Data(s.image)| > 0 && |lib| == 0 ==> r == Failure(ValueError)
    ensures |Data(s.image)| > 0 && |lib| > 0 ==>
      path in ClosestPaths(lib, WholeColor, AverageColor(Data(s.image))) &&
      r == LegacyReplacementFor(s, path, scaleFactor, env)
  {
    path := "";
    var scaledPos := ScaledPosition(s.position, scaleFactor);
    var scaledInnerVert := ScaledVertices(s.vertices, scaleFactor);
    var pixels := Data(s.image);
    if |pixels| == 0 {
      return Failure(ZeroDivisionError), path;
    }
    var avgColor := AverageColor(pixels);
    if |lib| == 0 {
      return Failure(ValueError), path;
    }
    var closestColor := lib[ClosestIndex(lib, WholeColor, avgColor)].1;
    var closestImages := Candidates(lib, closestColor);
    ClosestPathsNonEmpty(lib, WholeColor, avgColor);
    var imagePath :| imagePath in closestImages;
    path := imagePath;
    var replacement := env.open(ImageDatabaseFolder + imagePath);
    if |scaledInnerVert| == 0 {
      return Failure(ValueError), path;
    }
    var tile := BoundingBoxDimensions(scaledInnerVert);
    if replacement.width == 0 || replacement.height == 0 {
      return Failure(ZeroDivisionError), path;
    }
    var scale := CoverScale(tile.0, tile.1, replacement.width, replacement.height);
    var newSize := ResizedSize(replacement.width, replacement.height, scale);
    var resized := env.resize(replacement, newSize.0, newSize.1);
    var cropped := GetMaskedSlice(resized, scaledInnerVert, env.raster);
    r := Success(Slice(cropped, scaledPos, scaledInnerVert));
  }

  /** Whatever path the legacy compositor picks, its stored colour is at
      least distance from the slice's average among all stored colours. */
  lemma LegacyChoiceIsClosest(lib: seq<(string, Rgb)>, target: Rgb, path: string)
    requires |lib| > 0 && DistinctKeys(lib)
    requires path in ClosestPaths(lib, WholeColor, target)
    ensures HasKey(lib, path)
    ensures forall j :: 0 <= j < |lib| ==> ColorDistanceSq(Lookup(lib, path), target) <= ColorDistanceSq(lib[j].1, target)
  {
    ChosenEntryIsClosest(lib, WholeColor, target, path);
  }

  /** `out` is a replacement the legacy compositor may build for `s`. */
  ghost predicate LegacyReplaces(s: Slice, lib: seq<(string, Rgb)>, scaleFactor: real, env: Environment, out: Slice)
  {
    Shaped(s.image) && |Data(s.image)| > 0 && |lib| > 0 &&
    exists path :: path in ClosestPaths(lib, WholeColor, AverageColor(Data(s.image))) &&
      LegacyReplacementFor(s, path, scaleFactor, env) == Success(out)
  }

  /** Some legacy replacement can be built for slice `s`. */
  ghost predicate LegacyReplaceable(s: Slice, lib: seq<(string, Rgb)>, scaleFactor: real, env: Environment)
  {
    exists out :: LegacyReplaces(s, lib, scaleFactor, env, out)
  }

  /** The legacy replacement of slice `s` may stop with `fault`: a
      `ZeroDivisionError` for an empty picture, a `ValueError` for an empty
      library, and otherwise the fault of building the replacement from one
      of the closest candidates. */
  ghost predicate LegacyFailsWith(s: Slice, lib: seq<(string, Rgb)>, scaleFactor: real, env: Environment, fault: Fault)
    requires Shaped(s.image)
  {
    if |Data(s.image)| == 0 then fault == ZeroDivisionError
    else if |lib| == 0 then fault == ValueError
    else
      exists path :: path in ClosestPaths(lib, WholeColor, AverageColor(Data(s.image))) &&
        LegacyReplacementFor(s, path, scaleFactor, env) == Failure(fault)
  }

  /** What `LegacyReplaceSlice` promises about one slice, read as
      `LegacyReplaces` on success and `LegacyFailsWith` its fault on failure. */
  lemma LegacyReplaceSliceOutcome(s: Slice, lib: seq<(string, Rgb)>, scaleFactor: real, env: Environment,
                                  path: string, r: Result<Slice>)
    requires Shaped(s.image)
    requires |Data(s.image)| == 0 ==> r == Failure(ZeroDivisionError)
    requires |Data(s.image)| > 0 && |lib| == 0 ==> r == Failure(ValueError)
    requires |Data(s.image)| > 0 && |lib| > 0 ==>
      path in ClosestPaths(lib, WholeColor, AverageColor(Data(s.image))) &&
      r == LegacyReplacementFor(s, path, scaleFactor, env)
    ensures r.Success? ==> LegacyReplaces(s, lib, scaleFactor, env, r.value)
    ensures r.Failure? ==> LegacyFailsWith(s, lib, scaleFactor, env, r.fault)
  {
    if |Data(s.image)| > 0 && |lib| > 0 {
      if r.Success? {
        assert LegacyReplacementFor(s, path, scaleFactor, env) == Success(r.value);
      } else {
        assert LegacyReplacementFor(s, path, scaleFactor, env) == Failure(r.fault);
      }
    }
  }

  /** The slices before the first legacy failure were each replaced. */
  lemma LegacyReplacedPrefix(slices: seq<Slice>, mosaic: seq<Slice>, lib: seq<(string, Rgb)>, scaleFactor: real, env: Environment)
    requires |mosaic| <= |slices|
    requires Pairwise(slices[..|mosaic|], mosaic, (s, out) => LegacyReplaces(s, lib, scaleFactor, env, out))
    ensures forall j :: 0 <= j < |mosaic| ==> LegacyReplaceable(slices[j], lib, scaleFactor, env)
  {
    forall j | 0 <= j < |mosaic|
      ensures LegacyReplaceable(slices[j], lib, scaleFactor, env)
    {
      assert slices[..|mosaic|][j] == slices[j];
      assert LegacyReplaces(slices[j], lib, scaleFactor, env, mosaic[j]);
    }
  }

  /** The legacy `replace_slices(slices, ...)`: one untinted replacement
      per slice, in slice order; the first slice that cannot be replaced
      ends the run with its error. */
  method LegacyReplaceSlices(slices: seq<Slice>, lib: seq<(string, Rgb)>, scaleFactor: real, env: Environment)
    returns (r: Result<seq<Slice>>)
    requires AllShaped(slices)
    ensures r.Success? ==> |r.value| == |slices|
    ensures r.Success? ==> forall i :: 0 <= i < |slices| ==> LegacyReplaces(slices[i], lib, scaleFactor, env, r.value[i])
    ensures r.Failure? ==>
              exists i :: 0 <= i < |slices| &&
                (forall j :: 0 <= j < i ==> LegacyReplaceable(slices[j], lib, scaleFactor, env)) &&
                LegacyFailsWith(slices[i], lib, scaleFactor, env, r.fault)
  {
    ghost var replacement := (s, out) => LegacyReplaces(s, lib, scaleFactor, env, out);
    var mosaic: seq<Slice> := [];
    var i := 0;
    while i < |slices|
      invariant 0 <= i <= |slices|
      invariant Pairwise(slices[..i], mosaic, replacement)
    {
      var one, path := LegacyReplaceSlice(slices[i], lib, scaleFactor, env);
      LegacyReplaceSliceOutcome(slices[i], lib, scaleFactor, env, path, one);
      if one.Failure? {
        LegacyReplacedPrefix(slices, mosaic, lib, scaleFactor, env);
        return Failure(one.fault);
      }
      PairwiseSnoc(slices, mosaic, one.value, replacement);
      mosaic, i := mosaic + [one.value], i + 1;
    }
    assert slices[..i] == slices;
    r := Success(mosaic);
  }

  // ---------------------------------------------------------------------
  // The unit tests

  /** `test_create_initial_triangles`: a base of 5 gives ten triangles, all
      thin. */
  method TestCreateInitialTriangles(rect: real -> Point) returns (count: int, allThin: bool)
    ensures count == 10 && allThin
  {
    var triangles := CreateInitialTriangles(5, rect);
    count := |triangles|;
    allThin := forall i :: 0 <= i < |triangles| ==> triangles[i].shape == Thin;
  }

  /** The golden ratio, the positive root of `x * x == x + 1`, lies
      between 1.6125 and 1.6375. */
  lemma GoldenRatioBounds(phi: real)
    requires phi > 0.0 && phi * phi == phi + 1.0
    ensures 1.6125 <= phi <= 1.6375
  {
    assert (phi - 1.6125) * (phi + 0.6125) == 0.01234375;
    PositiveFactor(phi - 1.6125, phi + 0.6125, 0.01234375);
    assert (1.6375 - phi) * (phi + 0.6375) == 0.04390625;
    PositiveFactor(1.6375 - phi, phi + 0.6375, 0.04390625);
  }

  lemma PositiveFactor(x: real, y: real, c: real)
    requires y > 0.0 && c > 0.0 && x * y == c
    ensures x > 0.0
  {
    assert x == c / y;
  }

  /** `test_divide_triangles`: three passes over the ten initial triangles
      give 130 triangles, within 1 of the test's estimate
      `phi * 2 ** 3 * 5 * 2`. */
  method TestDivideTriangles(rect: real -> Point, phi: real) returns (count: int)
    requires phi > 0.0 && phi * phi == phi + 1.0
    ensures count == 130
    ensures Abs(count as real - phi * 8.0 * 5.0 * 2.0) <= 1.0
  {
    var initial := CreateInitialTriangles(5, rect);
    var divided := DivideTriangles(initial, 3, phi);
    AllThinDivisionCounts(initial, 3, phi);
    assert TotalAfter(3, 10) == 130;
    count := |divided|;
    GoldenRatioBounds(phi);
  }

  /** `test_pair_triangles_and_form_rhombi`: after one pass, every rhombus
      formed has four vertices. */
  method TestPairTrianglesAndFormRhombi(rect: real -> Point, phi: real, phase: Point -> real) returns (sizes: seq<int>)
    requires phi != 0.0
    ensures forall i :: 0 <= i < |sizes| ==> sizes[i] == 4
  {
    var initial := CreateInitialTriangles(5, rect);
    var divided := DivideTriangles(initial, 1, phi);
    var rhombi, pending := PairTrianglesAndFormRhombi(divided, phase);
    sizes := seq(|rhombi|, i requires 0 <= i < |rhombi| => |rhombi[i]|);
  }

  /** `test_normalize_and_scale_tiles`: the unit square scaled onto a 100
      by 100 canvas has every coordinate in [0, 100]. */
  method TestNormalizeAndScaleTiles() returns (scaled: seq<seq<Point>>)
    ensures |scaled| == 1 && |scaled[0]| == 4
    ensures forall j :: 0 <= j < 4 ==> 0.0 <= scaled[0][j].x <= 100.0 && 0.0 <= scaled[0][j].y <= 100.0
  {
    var rhombi: seq<seq<Point>> := [[Point(0.0, 0.0), Point(1.0, 0.0), Point(1.0, 1.0), Point(0.0, 1.0)]];
    assert rhombi[0][1].x != 0.0;
    scaled := NormalizeAndScaleTiles(rhombi, (100, 100));
  }

  /** `test_find_long_side_and_hash_edge`, read with `find_join_side` on a
      thick triangle: the long side of (0, 0), (12, 0), (0, 1) joins
      (12, 0) and (0, 1), and the edge key ignores direction. */
  lemma TestFindJoinSideAndHashEdge()
    ensures FindJoinSide(Point(0.0, 0.0), Point(12.0, 0.0), Point(0.0, 1.0), Thick) == (Point(12.0, 0.0), Point(0.0, 1.0))
    ensures HashEdge(Point(0.0, 0.0), Point(12.0, 0.0)) == HashEdge(Point(12.0, 0.0), Point(0.0, 0.0))
  {
    HashEdgeSymmetric(Point(0.0, 0.0), Point(12.0, 0.0));
  }
}
