# Penrose photomosaic: a Dafny model

The Penrose photomosaic builds a mosaic of a picture in two stages.

- **The tile generator** (`modules/create_tiles.py`) builds a Penrose P3 tiling. It starts from a wheel of `2·base` thin Robinson triangles around the origin. It deflates them `divisions` times with the golden ratio. It then pairs each triangle with the one sharing its join side into a rhombus. The join side is the shortest side of a thin triangle and the longest side of a thick one, keyed by `hash_edge`. Finally it scales the rhombi onto the canvas.
- **The compositor** (`modules/replace_slices.py`) does the rest:
  - It cuts the picture into one masked slice per rhombus.
  - For each slice it picks a library image whose stored colour is closest to the slice's average colour.
  - It resizes that image to cover the tile, tints it toward the average colour with an overlay blend, and masks it to the tile.
  - It pastes the replacements onto a canvas.
- **The helpers** (`modules/utils.py`) provide distances, rounding, colour distance, average colour and bounding boxes.
- **The legacy script** (`penrose_tiling.py`) is the older single-file version, and `unit_tests/test_tiling.py` tests it. Its generator and helpers are the same as the modules. Its `replace_slices` differs:
  - the library maps a path to a colour alone;
  - images come from the fixed folder `photomosaic/image_database/`;
  - there is no tint.

The project has four Dafny modules:

- `Utils` (`utils.dfy`)
- `CreateTiles` (`create_tiles.dfy`)
- `ReplaceSlices` (`replace_slices.dfy`)
- `PenroseTiling` (`penrose_tiling.dfy`), which holds the legacy compositor and the unit tests as lemmas and methods.

How the Python data is represented:

- A complex number is a `Point` of two reals. `cmath.rect`, `cmath.phase` and square roots are function parameters.
- A picture is a `Picture`, a column-major grid of RGBA `Pixel`s.
- The JSON library is a sequence of (path, value) pairs in dictionary order, since `min` keeps the first minimum.
- In the compositor's `replace_slices` loop (`ReplaceSlices.ReplaceSlices`, `PenroseTiling.LegacyReplaceSlices`), the exceptions the source raises become `Failure(ValueError)` or `Failure(ZeroDivisionError)`. Elsewhere, inputs on which the source raises are excluded by a precondition; "## Left out" lists them.
- `random.choice` and the enumeration order of a `set` are nondeterministic choices (`:|`), so every proved property holds whichever element is picked.

`divide_triangles` does not produce `φ · 2·base · 2^d` triangles, although the unit test's estimate suggests it. Each pass turns (thin, thick) counts into (thin + thick, thin + 2·thick). Starting from `n` thin triangles, the thick count after `k` passes is `n·Fib(2k)` and the total is `n·Fib(2k+1)`. The total grows by about φ² per pass, not 2. For `base = 5` and three passes this gives 130 triangles, which happens to be within 1 of `φ·80 ≈ 129.4`. The model follows the code: it proves the exact counts, and it proves the test's margin only for the configuration the test uses.

## Model

| member | source | states |
|---|---|---|
| Utils.Trunc | modules/utils.py:120 | `int()` on a real truncates toward zero: the result is within one below a non-negative argument and within one above a negative one |
| Utils.SqDistance | modules/utils.py:23-34 | the (squared) distance between two vertices is never negative |
| Utils.SqDistanceSymmetric | modules/utils.py:34 | `abs(v2 - v1)` does not depend on the order of the two vertices |
| Utils.RoundHalfEven | modules/utils.py:47 | Python's `round` to an integer lands within one half of its argument |
| Utils.RoundWithinHalfUnit | modules/utils.py:36-47 | `round(x, p)` is within half a unit of `10^-p` of `x`, on either side |
| Utils.RoundIdempotent | modules/utils.py:49-60 | rounding an already rounded coordinate to the same precision changes nothing |
| Utils.ComplexToTupleAgreesWithRoundComplex | modules/utils.py:36-60 | `complex_to_tuple` gives the coordinates of `round_complex`; `round_complex` is idempotent; `complex_to_tuple` of a rounded point equals that of the original |
| Utils.ColorDistanceSq | modules/utils.py:62-75 | the colour distance is never negative and is zero exactly when the colours are equal |
| Utils.ColorDistanceSymmetric | modules/utils.py:73-75 | the colour distance is symmetric |
| Utils.AverageColorWithinChannelRange | modules/utils.py:92-120 | each channel of the average colour lies between that channel's smallest and largest value among the pixels |
| Utils.AverageColorIgnoresAlpha | modules/utils.py:109-118 | the RGBA branch and the RGB branch agree: the alpha values do not affect the average |
| Utils.MinOf | modules/utils.py:146-149 | `min` of a non-empty sequence is at most every element and is one of them |
| Utils.MaxOf | modules/utils.py:146-149 | `max` of a non-empty sequence is at least every element and is one of them |
| Utils.BoundingBoxDimensions | modules/utils.py:137-150 | the bounding-box width and height are non-negative |
| Utils.BoundingBoxDimensionsTight | modules/utils.py:137-150 | every pair of vertices is at most the width apart in x and the height apart in y, and some pairs are exactly that far apart |
| Utils.BoundingBoxDimensionsTranslationInvariant | modules/utils.py:137-150 | translating every vertex by the same offset keeps the bounding-box dimensions |
| CreateTiles.InitialTriangle | modules/create_tiles.py:39-43 | the i-th initial triangle is thin, has its apex at the origin, and its other two corners are the unit spokes at angles (2i−1)π/(2·base) and (2i+1)π/(2·base), in either order |
| CreateTiles.CreateInitialTriangles | modules/create_tiles.py:37-44 | `2·base` triangles (none when `base <= 0`), all thin with apex at the origin, the i-th being `InitialTriangle(i)` |
| CreateTiles.InitialNeighboursShareSide | modules/create_tiles.py:38-43 | the swap on even `i` makes neighbouring initial triangles share a spoke: even `i` shares `v2` with `i+1`, odd `i` shares `v3` |
| CreateTiles.Children | modules/create_tiles.py:60-67 | a thin triangle splits into a thin and a thick child; a thick one into thick, thick, thin |
| CreateTiles.DividePass | modules/create_tiles.py:59-68 | one pass of the loop is the concatenation of the children of each triangle in order |
| CreateTiles.DivideTriangles | modules/create_tiles.py:58-69 | the result is the triangles after `divisions` passes; no pass happens when `divisions <= 0` |
| CreateTiles.DivideOnceAppend | modules/create_tiles.py:59-68 | a pass distributes over concatenation: dividing `a + b` is dividing `a` then `b` |
| CreateTiles.DivideOnceCounts | modules/create_tiles.py:60-67 | one pass maps (thin, thick) to (thin + thick, thin + 2·thick), so the length becomes 2·thin + 3·thick |
| CreateTiles.AllThinDivisionCounts | modules/create_tiles.py:58-69 | after `k` passes over `n` thin triangles the thick count and the total follow the recurrence `ThickAfter(k, n)` and `TotalAfter(k, n)` |
| CreateTiles.CountsAreFibonacci | modules/create_tiles.py:58-69 | from one thin triangle, `k` passes give `Fib(2k)` thick triangles and `Fib(2k+1)` triangles in all |
| CreateTiles.CountsScale | modules/create_tiles.py:58-69 | the counts from `n` triangles are `n` times the counts from one |
| CreateTiles.FindJoinSide | modules/create_tiles.py:206-217 | the join side is one of (v1,v2), (v2,v3), (v1,v3); for a thin triangle it is a shortest side and for a thick one a longest; ties go to the earlier side, as `min`/`max` over the dictionary do |
| CreateTiles.HashEdge | modules/create_tiles.py:230-234 | the edge key is the two 5-decimal coordinate tuples sorted, and it is one of the two orders of the endpoints |
| CreateTiles.HashEdgeSymmetric | modules/create_tiles.py:230-232 | swapping the endpoints of an edge gives the same key |
| CreateTiles.HashEdgeIdentifiesEdge | modules/create_tiles.py:230-234 | two edges get the same key exactly when their rounded endpoints agree as unordered pairs |
| CreateTiles.SumPermutation | modules/create_tiles.py:120 | `sum(vertices)` does not depend on the order of the vertices |
| CreateTiles.InsertByAngle | modules/create_tiles.py:127 | inserting one vertex into a list sorted by angle keeps it sorted and adds exactly that vertex |
| CreateTiles.SortByAngle | modules/create_tiles.py:127 | `sorted(vertices, key=angle)` is a permutation of its input and is ordered by angle |
| CreateTiles.SortVertices | modules/create_tiles.py:120-128 | the result is a permutation of the vertices, sorted by their phase about the centroid, and has the same centroid |
| CreateTiles.SetToList | modules/create_tiles.py:94 | `list(set)` lists each element of the set exactly once: same members, same count, each once |
| CreateTiles.JoinVertexBagFacts | modules/create_tiles.py:90-94 | when the join side's ends are corners of the triangle, the candidate vertices are exactly the corners of the two triangles, and their number is the count of distinct rounded corners plus the matching half's distinct corners off the join side |
| CreateTiles.JoinHalves | modules/create_tiles.py:90-94 | the candidate list is the triangle's distinct corners off the join side, then the matching half's, then the join side's ends, each distinct vertex exactly once |
| CreateTiles.FormRhombus | modules/create_tiles.py:90-101 | a rhombus is emitted exactly when there are 4 candidate vertices; it is those vertices, sorted by angle about their centroid |
| CreateTiles.JoinSideIsSide | modules/create_tiles.py:84-85 | both ends of the join side are rounded corners of the triangle |
| CreateTiles.MatchTriangle | modules/create_tiles.py:84-101 | the triangle is looked up under the key of its join side; with no half waiting there nothing is emitted, and with one a rhombus is emitted exactly when the two triangles give 4 candidate vertices, which it holds sorted by angle |
| CreateTiles.PairStep | modules/create_tiles.py:83-106 | one loop step: a matched half is deleted and the rhombus, emitted exactly when there are 4 candidates, is formed from this triangle and the one waiting under its key; an unmatched triangle is stored under its key |
| CreateTiles.MirrorsStep | modules/create_tiles.py:88-106 | after a step that deletes a matched key or stores an unmatched triangle, the dictionary holds exactly the corners of the triangles left waiting after one more triangle |
| CreateTiles.ArrangedStep | modules/create_tiles.py:88-104 | appending the rhombus a step forms, if any, keeps the rhombi equal, one for one, to the kept candidate bags after one more triangle |
| CreateTiles.WaitingSound | modules/create_tiles.py:104-106 | every triangle left waiting is an input triangle, stored under the key of its own join side |
| CreateTiles.PairsSound | modules/create_tiles.py:88-104 | every matched pair is two input triangles whose join sides have the same key |
| CreateTiles.PairingCounts | modules/create_tiles.py:83-106 | each triangle is either in exactly one match or left waiting: twice the matches plus the waiting halves is the number of triangles |
| CreateTiles.KeptBound | modules/create_tiles.py:99-103 | at most one rhombus per match, and each kept rhombus has 4 vertices |
| CreateTiles.KeptInPool | modules/create_tiles.py:88-101 | every vertex of a rhombus kept from matches of input triangles is a rounded corner of an input triangle |
| CreateTiles.PairBagInPool | modules/create_tiles.py:89-94 | the candidate vertices of two input triangles are rounded corners of input triangles |
| CreateTiles.RhombiSizes | modules/create_tiles.py:99-101 | rhombi arranged from the kept matches have 4 vertices each and number at most half the triangles |
| CreateTiles.RhombiInPool | modules/create_tiles.py:89-101 | every vertex of the rhombi arranged from the kept matches is a rounded corner of an input triangle |
| CreateTiles.RhombiValid | modules/create_tiles.py:81-107 | the rhombi arranged from the kept matches are valid rhombi (4 angle-sorted vertices from the rounded input corners), at most half as many as the triangles |
| CreateTiles.PairTrianglesAndFormRhombi | modules/create_tiles.py:81-107 | the result lists, in input order, one rhombus for each match that gives 4 candidates, each holding exactly those vertices sorted by angle; the dictionary left over holds, under each key, the corners of the triangle left waiting under it; every rhombus is valid, and there are at most `|triangles|/2` |
| CreateTiles.MaxDimension | modules/create_tiles.py:143 | the maximum dimension is positive when some coordinate is non-zero |
| CreateTiles.MaxDimensionBounds | modules/create_tiles.py:143 | every coordinate of every rhombus is at most half the maximum dimension in absolute value |
| CreateTiles.MinSide | modules/create_tiles.py:144 | `min(canvas_size)` is at most both sides and is one of them |
| CreateTiles.Scale | modules/create_tiles.py:144 | the scale is non-negative and maps the maximum dimension to the shorter canvas side |
| CreateTiles.NormalizeAndScaleTiles | modules/create_tiles.py:141-150 | the same number of rhombi with the same vertex counts; each vertex is scaled about the canvas centre; every vertex lands on the canvas within half the shorter side of its centre |
| CreateTiles.ScaledTilesWithinCanvas | modules/create_tiles.py:146-148 | every vertex scaled by the normalising scale lies within the canvas |
| CreateTiles.ScalePointKeepsShape | modules/create_tiles.py:147 | the difference of two scaled vertices is the scaled difference: the mapping keeps the rhombus's shape |
| ReplaceSlices.DataEmpty | modules/utils.py:106-107 | `getdata()` is empty exactly when the picture has no width or no height |
| ReplaceSlices.DataHoldsPixels | modules/utils.py:106 | `getdata()` holds exactly the pixels of the picture |
| ReplaceSlices.MaskedSliceBox | modules/replace_slices.py:176-177 | the crop box built from the truncated vertex coordinates is never inverted |
| ReplaceSlices.MaskedSliceBoxIsTight | modules/replace_slices.py:176-177 | every truncated vertex lies in the box and each of its four edges is reached by some vertex |
| ReplaceSlices.MaskedSliceBoxTruncatesCorner | modules/replace_slices.py:176-177 | the box's left and top are the truncated minimum x and y of the vertices |
| ReplaceSlices.Crop | modules/replace_slices.py:178-182 | the cropped slice is as large as the box |
| ReplaceSlices.CropKeepsColours | modules/replace_slices.py:178-182 | inside the image a cropped pixel keeps its colour and takes the mask as alpha; outside it is transparent black |
| ReplaceSlices.GetMaskedSlice | modules/replace_slices.py:171-183 | the masked slice is rectangular and exactly as large as the crop box of the vertices |
| ReplaceSlices.Relative | modules/replace_slices.py:27 | each relative vertex is the absolute vertex minus the tile's top-left corner |
| ReplaceSlices.RelativeVerticesAnchored | modules/replace_slices.py:21-27 | relative vertices are non-negative and touch both axes |
| ReplaceSlices.RelativeVerticesRestoreTile | modules/replace_slices.py:21-27 | shifting the relative vertices back by the top-left corner restores the tile, and the bounding box is unchanged |
| ReplaceSlices.SlicesOf | modules/replace_slices.py:17-31 | one slice per tile |
| ReplaceSlices.SlicesOfPointwise | modules/replace_slices.py:19-30 | the i-th slice is the slice of the i-th tile |
| ReplaceSlices.SliceTile | modules/replace_slices.py:20-30 | the loop body builds the tile's masked slice, top-left position and relative vertices |
| ReplaceSlices.SliceImage | modules/replace_slices.py:17-31 | `slice_image` returns the slices of the tiles in tile order |
| ReplaceSlices.AdjustBlendStrength | modules/replace_slices.py:46-47 | the strength is the smaller of the cap and `variance/10000 + distance/100` |
| ReplaceSlices.ClampOpacity | modules/replace_slices.py:126 | the opacity is clamped into [0, 1] and left alone when already inside |
| ReplaceSlices.BlendStrengthIsOpacity | modules/replace_slices.py:46 | for a non-negative variance and distance the blend strength needs no clamping |
| ReplaceSlices.OverlayValueInRange | modules/replace_slices.py:143-149 | the multiply/screen value of two channel values in [0, 255] stays in [0, 255] |
| ReplaceSlices.BlendChannelInRange | modules/replace_slices.py:143-152 | a blended channel stays in [0, 255] |
| ReplaceSlices.BlendChannelOpacityZero | modules/replace_slices.py:152 | at opacity 0 a channel keeps its base value |
| ReplaceSlices.Blended | modules/replace_slices.py:129-157 | the blended picture has the size of the original |
| ReplaceSlices.BlendedInRange | modules/replace_slices.py:137-155 | blending a picture with valid channels keeps every channel valid |
| ReplaceSlices.BlendedOpacityZero | modules/replace_slices.py:152 | at opacity 0 every pixel keeps its colour |
| ReplaceSlices.BlendOnePixel | modules/replace_slices.py:139-155 | the per-channel loop computes the blended pixel |
| ReplaceSlices.OverlayBlend | modules/replace_slices.py:126-157 | the nested pixel loops produce the picture blended at the clamped opacity |
| ReplaceSlices.Paste | modules/replace_slices.py:60 | `canvas.paste` composites the slice at its truncated position and leaves every other canvas pixel as it was |
| ReplaceSlices.PlaceSlicesOnCanvas | modules/replace_slices.py:57-60 | every canvas pixel ends as the slices composited over it in order |
| ReplaceSlices.PastedOutsideUnchanged | modules/replace_slices.py:58-60 | a canvas pixel no slice covers is unchanged |
| ReplaceSlices.PastedLastOpaqueWins | modules/replace_slices.py:58-60 | a pixel shows the last slice that covers it opaquely, when no later slice covers it |
| ReplaceSlices.ClosestIndex | modules/replace_slices.py:87 | `min` with a key returns the first stored value at least distance from the average colour |
| ReplaceSlices.Candidates | modules/replace_slices.py:90 | the candidate paths are exactly the paths stored with the closest value |
| ReplaceSlices.ClosestPathsNonEmpty | modules/replace_slices.py:90-91 | the candidates include the closest value's own path, so `random.choice` has something to pick |
| ReplaceSlices.Lookup | modules/replace_slices.py:102-103 | `image_database[path]` is the value stored with that path |
| ReplaceSlices.ChosenEntryIsClosest | modules/replace_slices.py:87-91 | whichever candidate is picked, its stored value is the closest one and no stored colour is nearer the slice's average |
| ReplaceSlices.SingleEntryIsChosen | modules/replace_slices.py:87-91 | a one-image library always yields that image |
| ReplaceSlices.CoverScaleCovers | modules/replace_slices.py:95-99 | `max(scale_w, scale_h)` makes the image at least as wide and as high as the tile, and exactly as wide or exactly as high |
| ReplaceSlices.ResizedSizeNearlyCovers | modules/replace_slices.py:106-107 | after `int()` the resized image falls short of the tile by less than one pixel on each axis |
| ReplaceSlices.ScaledVertices | modules/replace_slices.py:83 | each inner vertex is multiplied by the scale factor |
| ReplaceSlices.FittedImage | modules/replace_slices.py:95-109 | the resized, tinted and masked replacement is rectangular and as large as the crop box of the scaled vertices |
| ReplaceSlices.FittedImageUsesStrength | modules/replace_slices.py:101-108 | with a non-negative stored variance and a non-negative square root, the replacement is tinted by the adjusted blend strength itself; the clamp in `overlay_blend` (line 126) leaves it unchanged |
| ReplaceSlices.ReplacementPlacement | modules/replace_slices.py:80-110 | a replacement sits at the scaled position, carries the scaled vertices, and its picture fills their crop box |
| ReplaceSlices.ReplacementFailures | modules/replace_slices.py:86-99 | building a replacement fails with ValueError exactly when the slice has no vertices, and with ZeroDivisionError exactly when the opened image has no width or height |
| ReplaceSlices.ReplaceSlice | modules/replace_slices.py:78-110 | an empty slice raises ZeroDivisionError, an empty library ValueError; otherwise the replacement is built from a path among the closest candidates |
| ReplaceSlices.ReplaceSliceOutcome | modules/replace_slices.py:78-110 | a successful step yields a valid replacement for the slice; a failing step's fault is the slice's own cause: ZeroDivisionError for an empty picture, ValueError for an empty library, else the fault of building from a closest candidate |
| ReplaceSlices.ReplacedPrefix | modules/replace_slices.py:78-110 | every slice the loop got past has a replacement |
| ReplaceSlices.ReplaceSlices | modules/replace_slices.py:75-111 | on success one replacement per slice, in order, each built from a closest image; on failure there is a slice before which every slice has a replacement and whose own cause is the reported fault (ZeroDivisionError for an empty picture, ValueError for an empty library) |
| PenroseTiling.LegacyFittedImage | penrose_tiling.py:291-300 | the untinted, resized and masked replacement fills the crop box of the scaled vertices |
| PenroseTiling.LegacyReplacementPlacement | penrose_tiling.py:274-301 | a legacy replacement sits at the scaled position, carries the scaled vertices and fills their crop box |
| PenroseTiling.LegacyReplacementFailures | penrose_tiling.py:279-295 | a legacy replacement fails with ValueError exactly when the slice has no vertices, and with ZeroDivisionError exactly when the image from the fixed folder has no width or height |
| PenroseTiling.MaskIgnoresUntintedBlend | modules/replace_slices.py:108-109 | masking after a blend at opacity 0 gives the same slice as masking the unblended image |
| PenroseTiling.UntintedFitIsLegacyFit | penrose_tiling.py:298-300 | when the blend strength clamps to 0 the current fitting equals the legacy one |
| PenroseTiling.LegacyReplaceSlice | penrose_tiling.py:274-301 | an empty slice raises ZeroDivisionError, an empty library ValueError; otherwise the replacement is built from a closest-colour path under `photomosaic/image_database/` |
| PenroseTiling.LegacyChoiceIsClosest | penrose_tiling.py:283-287 | the picked path's colour is at least distance from the average among all stored colours |
| PenroseTiling.LegacyReplaceSliceOutcome | penrose_tiling.py:274-301 | a successful legacy step yields a valid replacement; a failing one reports the slice's own cause: ZeroDivisionError for an empty picture, ValueError for an empty library, else the fault of building from a closest candidate |
| PenroseTiling.LegacyReplacedPrefix | penrose_tiling.py:274-301 | every slice the legacy loop got past has a replacement |
| PenroseTiling.LegacyReplaceSlices | penrose_tiling.py:269-302 | on success one untinted replacement per slice, in order; on failure there is a slice before which every slice has a replacement and whose own cause is the reported fault |
| PenroseTiling.TestCreateInitialTriangles | unit_tests/test_tiling.py:9-15 | a base of 5 gives ten thin triangles |
| PenroseTiling.GoldenRatioBounds | unit_tests/test_tiling.py:20 | the golden ratio lies between 1.6125 and 1.6375 |
| PenroseTiling.TestDivideTriangles | unit_tests/test_tiling.py:17-27 | three passes over the base-5 wheel give exactly 130 triangles, within 1 of `φ·2³·5·2` |
| PenroseTiling.TestPairTrianglesAndFormRhombi | unit_tests/test_tiling.py:29-37 | after one pass every rhombus formed has 4 vertices |
| PenroseTiling.TestNormalizeAndScaleTiles | unit_tests/test_tiling.py:39-48 | the unit square scaled onto a 100 × 100 canvas has every coordinate in [0, 100] |
| PenroseTiling.TestFindJoinSideAndHashEdge | unit_tests/test_tiling.py:50-57 | the longest side of (0,0), (12,0), (0,1) joins (12,0) and (0,1), and the edge key ignores direction |

## Left out

- Floating point: coordinates, `round`, divisions and the blend arithmetic are exact real arithmetic. `round(x, p)` is modelled as round-half-even of `x·10^p`, not as binary doubles.
- `cmath.rect`, `cmath.phase` and the square root in `distance_complex` and `color_distance` are function parameters. Distances are compared squared, which keeps every `min` and `max` because the square root is monotone.
- Utils.SqDistance: states only that the value is non-negative and symmetric. It is not the Euclidean length itself (see the previous line).
- CreateTiles.HashEdge: Python's `hash` of the sorted tuple pair is modelled as the pair itself, so two edges with different keys are assumed never to collide.
- CreateTiles.SortVertices: does not state that `sorted` is stable for vertices of equal angle.
- CreateTiles.PairTrianglesAndFormRhombi: the order of `list(set(...))` is an arbitrary enumeration, so the contract fixes each rhombus's vertices but, where two vertices have the same angle, not their order. The diagnostic `print` calls are left out.
- Error inputs outside the `replace_slices` loop are excluded by preconditions, not modelled as failures:
  - ReplaceSlices.SliceImage, ReplaceSlices.SlicesOf and ReplaceSlices.SliceTile require every tile to have a vertex; for an empty tile the source's `min` raises ValueError (modules/replace_slices.py:23).
  - ReplaceSlices.GetMaskedSlice, Utils.BoundingBoxDimensions, Utils.MinOf and Utils.MaxOf require a non-empty vertex list or sequence, where `min`/`max` raise ValueError.
  - Utils.AverageColor requires at least one pixel, where the source divides by zero; inside `replace_slices` that case is the modelled ZeroDivisionError.
  - CreateTiles.DivideTriangles requires a non-zero ratio whenever it divides something, where the source divides by `phi`.
- CreateTiles.NormalizeAndScaleTiles: requires some non-zero coordinate. With all coordinates zero the source divides by zero; that case is not modelled as an error value.
- CreateTiles.SortVertices: requires a non-empty vertex list, where the source would divide by zero. It is only called with four vertices.
- ReplaceSlices.ReplacementPlacement: does not state that the scaled crop box is `scale_factor` times the original one, because truncation breaks that equality.
- PIL's `resize`, `ImageDraw.polygon` rasterisation and alpha compositing in `paste` are parameters (`Environment.resize`, `Environment.raster`, `composite`). Their pixel results are not modelled, except that resized pictures are rectangular.
- `Image.open` is the function `Environment.open`. File-open errors, the JSON database read and the `with open(...)` are not modelled.
- Palette (`'P'`) images converted to RGB in `calculate_average_color`, and non-RGBA slices pasted without a mask, are not modelled. Every picture is RGBA.
- `calculate_color_variance` (numpy variance) is not modelled. The stored variance is a field of the library entry.
- `update_database`, the Gradio UI, `main.py`, the database visualiser, `draw_triangles`, `draw_rhombi`, `draw_borders`, `create_canvas`, `create_tiles` and `create_and_draw_tiles` are not modelled. They are drawing, I/O or orchestration around the core.
- The generator functions and helpers duplicated in `penrose_tiling.py` are modelled once, by `CreateTiles` and `Utils`. Only its `replace_slices` differs and has its own model.
- `unit_tests/test_create_tiles.py` is not modelled.
- PenroseTiling.TestNormalizeAndScaleTiles: models what `test_normalize_and_scale_tiles` evidently means, that every scaled coordinate lies on the canvas. As written, the test compares complex numbers with `<=` (unit_tests/test_tiling.py:47-48), which raises TypeError in Python.
- `test_find_long_side_and_hash_edge` calls `find_long_side`, which the legacy script does not define. It is read as `find_join_side` on a thick triangle.
- PenroseTiling.TestDivideTriangles: proves the test's `φ·2^k·2·base` margin only for `k = 3` and `base = 5`. The exact counts for every `k` are `CountsAreFibonacci` and `CountsScale`, and the estimate fails for larger `k` (for example 340 triangles against about 259 at `k = 4`).
