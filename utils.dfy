/** Shared helpers of the photomosaic generator: complex numbers used as
    points, decimal rounding, squared distances, the average colour of a
    pixel list and the dimensions of a bounding box. */
module Utils {

  datatype Option<T> = None | Some(value: T)

  /** A Python `complex` used as a point of the plane: `x` is its real part,
      `y` its imaginary part. */
  datatype Point = Point(x: real, y: real)

  function Add(a: Point, b: Point): Point { Point(a.x + b.x, a.y + b.y) }

  function Sub(a: Point, b: Point): Point { Point(a.x - b.x, a.y - b.y) }

  function Div(a: Point, k: real): Point
    requires k != 0.0
  {
    Point(a.x / k, a.y / k)
  }

  function Abs(r: real): real { if r < 0.0 then -r else r }

  /** Python's `min(a, b)` and `max(a, b)` on two numbers. */
  function Min(a: real, b: real): real { if b < a then b else a }

  function Max(a: real, b: real): real { if b > a then b else a }

  /** Python's `int(x)` on a float: truncation toward zero. */
  function Trunc(x: real): (t: int)
    ensures x >= 0.0 ==> t as real <= x < t as real + 1.0
    ensures x < 0.0 ==> t as real - 1.0 < x <= t as real
  {
    if x >= 0.0 then x.Floor else -((-x).Floor)
  }

  /** `distance_complex(v1, v2)` squared. The source takes a square root;
      since the root is monotone, every comparison of distances the core
      makes is the same comparison of these squares. */
  function SqDistance(v1: Point, v2: Point): (d: real)
    ensures d >= 0.0
  {
    Square(v2.x - v1.x) + Square(v2.y - v1.y)
  }

  function Square(a: real): (q: real)
    ensures q >= 0.0
  {
    SquareSign(a);
    a * a
  }

  lemma SquareSign(a: real)
    ensures a * a >= 0.0
  {
  }

  lemma SqDistanceSymmetric(v1: Point, v2: Point)
    ensures SqDistance(v1, v2) == SqDistance(v2, v1)
  {
    var dx, dy := v2.x - v1.x, v2.y - v1.y;
    assert (-dx) * (-dx) == dx * dx && (-dy) * (-dy) == dy * dy;
    assert v1.x - v2.x == -dx && v1.y - v2.y == -dy;
  }

  function Pow10(p: nat): (s: nat)
    ensures s >= 1
  {
    if p == 0 then 1 else 10 * Pow10(p - 1)
  }

  /** 10^p as a real: the number of rounding units in 1 at precision `p`. */
  function Unit(p: nat): (u: real)
    ensures u >= 1.0
  {
    Pow10(p) as real
  }

  /** The integer nearest to `y`, a half going to the even neighbour. */
  function RoundHalfEven(y: real): (n: int)
    ensures n as real - 0.5 <= y <= n as real + 0.5
  {
    var f := y.Floor;
    var d := y - f as real;
    if d < 0.5 then f else if d > 0.5 then f + 1 else if f % 2 == 0 then f else f + 1
  }

  /** Python's `round(x, p)`: the nearest multiple of 10^-p, halves going to
      the even neighbour, computed exactly on reals. */
  function Round(x: real, p: nat): real
  {
    RoundHalfEven(x * Unit(p)) as real / Unit(p)
  }

  lemma DivMul(a: real, s: real)
    requires s != 0.0
    ensures (a / s) * s == a
  {
  }

  lemma RoundHalfEvenOfInteger(n: int)
    ensures RoundHalfEven(n as real) == n
  {
    assert (n as real).Floor == n;
  }

  /** The definition of `Round`, as a fact that can be applied to any term. */
  lemma RoundDefinition(y: real, p: nat)
    ensures Round(y, p) == RoundHalfEven(y * Unit(p)) as real / Unit(p)
  {
  }

  /** A rounded number lies within half a unit 10^-p of the number. */
  lemma RoundWithinHalfUnit(x: real, p: nat)
    ensures (x - Round(x, p)) * Unit(p) <= 0.5
    ensures (Round(x, p) - x) * Unit(p) <= 0.5
  {
    var n := RoundHalfEven(x * Unit(p));
    DivMul(n as real, Unit(p));
    assert Round(x, p) * Unit(p) == n as real;
    assert (x - Round(x, p)) * Unit(p) == x * Unit(p) - Round(x, p) * Unit(p);
    assert (Round(x, p) - x) * Unit(p) == Round(x, p) * Unit(p) - x * Unit(p);
  }

  /** Rounding an already rounded number changes nothing: a key built from
      rounded points is stable under re-rounding at the same precision. */
  lemma RoundIdempotent(x: real, p: nat)
    ensures Round(Round(x, p), p) == Round(x, p)
  {
    var n := RoundHalfEven(x * Unit(p));
    assert Round(x, p) == n as real / Unit(p);
    DivMul(n as real, Unit(p));
    RoundHalfEvenOfInteger(n);
    assert Round(x, p) * Unit(p) == n as real;
    var r := Round(x, p);
    RoundDefinition(r, p);
    assert RoundHalfEven(r * Unit(p)) == n;
    assert Round(r, p) == n as real / Unit(p);
  }

  /** `complex_to_tuple(z, p)` */
  function ComplexToTuple(z: Point, p: nat): (real, real)
  {
    (Round(z.x, p), Round(z.y, p))
  }

  /** `round_complex(z, p)` */
  function RoundComplex(z: Point, p: nat): Point
  {
    Point(Round(z.x, p), Round(z.y, p))
  }

  /** The tuple used for edge keys and the rounded complex number agree
      component by component, and both are stable under re-rounding. */
  lemma ComplexToTupleAgreesWithRoundComplex(z: Point, p: nat)
    ensures ComplexToTuple(z, p) == (RoundComplex(z, p).x, RoundComplex(z, p).y)
    ensures RoundComplex(RoundComplex(z, p), p) == RoundComplex(z, p)
    ensures ComplexToTuple(RoundComplex(z, p), p) == ComplexToTuple(z, p)
  {
    RoundIdempotent(z.x, p);
    RoundIdempotent(z.y, p);
  }

  // ---------------------------------------------------------------------
  // Colours

  /** An RGB colour, or the first three components of a pixel or a
      library entry. */
  datatype Rgb = Rgb(r: int, g: int, b: int)

  /** `color_distance` squared (the source's square root is monotone, so the
      nearest entry is the same). */
  function ColorDistanceSq(c1: Rgb, c2: Rgb): (d: int)
    ensures d >= 0
    ensures d == 0 <==> c1 == c2
  {
    var dr, dg, db := c1.r - c2.r, c1.g - c2.g, c1.b - c2.b;
    assert dr != 0 ==> dr * dr > 0;
    assert dg != 0 ==> dg * dg > 0;
    assert db != 0 ==> db * db > 0;
    dr * dr + dg * dg + db * db
  }

  lemma ColorDistanceSymmetric(c1: Rgb, c2: Rgb)
    ensures ColorDistanceSq(c1, c2) == ColorDistanceSq(c2, c1)
  {
    var dr, dg, db := c1.r - c2.r, c1.g - c2.g, c1.b - c2.b;
    assert (-dr) * (-dr) == dr * dr && (-dg) * (-dg) == dg * dg && (-db) * (-db) == db * db;
  }

  /** One entry of `image.getdata()` of an RGBA image; an RGB image is the
      same with `a` = 255. */
  datatype Pixel = Pixel(r: int, g: int, b: int, a: int)

  datatype Channel = Red | Green | Blue

  function Component(p: Pixel, c: Channel): int
  {
    match c
    case Red => p.r
    case Green => p.g
    case Blue => p.b
  }

  function ColorComponent(c: Rgb, ch: Channel): int
  {
    match ch
    case Red => c.r
    case Green => c.g
    case Blue => c.b
  }

  /** `sum(r for r, g, b, a in pixels)` and its green and blue siblings. */
  function ChannelSum(ps: seq<Pixel>, c: Channel): int
  {
    if ps == [] then 0 else ChannelSum(ps[..|ps| - 1], c) + Component(ps[|ps| - 1], c)
  }

  /** The smallest value of one channel over a non-empty pixel list. */
  function ChannelMin(ps: seq<Pixel>, c: Channel): (m: int)
    requires |ps| > 0
    ensures forall i :: 0 <= i < |ps| ==> m <= Component(ps[i], c)
    ensures exists i :: 0 <= i < |ps| && m == Component(ps[i], c)
  {
    if |ps| == 1 then Component(ps[0], c)
    else
      var m' := ChannelMin(ps[..|ps| - 1], c);
      var last := Component(ps[|ps| - 1], c);
      assert forall i :: 0 <= i < |ps| - 1 ==> ps[..|ps| - 1][i] == ps[i];
      if last < m' then last else m'
  }

  /** The largest value of one channel over a non-empty pixel list. */
  function ChannelMax(ps: seq<Pixel>, c: Channel): (m: int)
    requires |ps| > 0
    ensures forall i :: 0 <= i < |ps| ==> Component(ps[i], c) <= m
    ensures exists i :: 0 <= i < |ps| && m == Component(ps[i], c)
  {
    if |ps| == 1 then Component(ps[0], c)
    else
      var m' := ChannelMax(ps[..|ps| - 1], c);
      var last := Component(ps[|ps| - 1], c);
      assert forall i :: 0 <= i < |ps| - 1 ==> ps[..|ps| - 1][i] == ps[i];
      if last > m' then last else m'
  }

  /** `calculate_average_color`: per channel, `int(sum / len(pixels))`.
      The alpha component takes no part in the sums, but every pixel,
      transparent or not, counts in the denominator. The source divides by
      zero on an empty pixel list. */
  function AverageColor(ps: seq<Pixel>): Rgb
    requires |ps| > 0
  {
    Rgb(Mean(ps, Red), Mean(ps, Green), Mean(ps, Blue))
  }

  function Mean(ps: seq<Pixel>, c: Channel): int
    requires |ps| > 0
  {
    Trunc(ChannelSum(ps, c) as real / |ps| as real)
  }

  lemma {:induction false} ChannelSumBounds(ps: seq<Pixel>, c: Channel, lo: int, hi: int)
    requires forall i :: 0 <= i < |ps| ==> lo <= Component(ps[i], c) <= hi
    ensures |ps| * lo <= ChannelSum(ps, c) <= |ps| * hi
  {
    if ps != [] {
      var init := ps[..|ps| - 1];
      assert forall i :: 0 <= i < |init| ==> init[i] == ps[i];
      ChannelSumBounds(init, c, lo, hi);
      assert |ps| * lo == |init| * lo + lo;
      assert |ps| * hi == |init| * hi + hi;
    }
  }

  /** The quotient of a sum of `n` values, each between `lo` and `hi`, by
      `n` lies between `lo` and `hi`. */
  lemma QuotientBetween(s: int, n: int, lo: int, hi: int)
    requires n > 0 && n * lo <= s <= n * hi
    ensures lo as real <= s as real / n as real <= hi as real
  {
    var q := s as real / n as real;
    assert q * n as real == s as real;
  }

  /** ... and so does its truncation. */
  lemma MeanBetween(s: int, n: int, lo: int, hi: int)
    requires n > 0 && n * lo <= s <= n * hi
    ensures lo <= Trunc(s as real / n as real) <= hi
  {
    QuotientBetween(s, n, lo, hi);
  }

  /** Each channel of the average colour lies between that channel's least
      and greatest value over the pixels. */
  lemma AverageColorWithinChannelRange(ps: seq<Pixel>, c: Channel)
    requires |ps| > 0
    ensures ChannelMin(ps, c) <= ColorComponent(AverageColor(ps), c) <= ChannelMax(ps, c)
  {
    ChannelSumBounds(ps, c, ChannelMin(ps, c), ChannelMax(ps, c));
    MeanBetween(ChannelSum(ps, c), |ps|, ChannelMin(ps, c), ChannelMax(ps, c));
    assert ColorComponent(AverageColor(ps), c) == Mean(ps, c);
  }

  /** Two pixel lists that agree in red, green and blue, position by
      position, have the same average colour whatever their alpha values. */
  lemma {:induction false} ChannelSumIgnoresAlpha(ps: seq<Pixel>, qs: seq<Pixel>, c: Channel)
    requires |ps| == |qs|
    requires forall i :: 0 <= i < |ps| ==> Component(ps[i], c) == Component(qs[i], c)
    ensures ChannelSum(ps, c) == ChannelSum(qs, c)
  {
    if ps != [] {
      var n := |ps| - 1;
      assert forall i :: 0 <= i < n ==> ps[..n][i] == ps[i] && qs[..n][i] == qs[i];
      ChannelSumIgnoresAlpha(ps[..n], qs[..n], c);
    }
  }

  lemma AverageColorIgnoresAlpha(ps: seq<Pixel>, qs: seq<Pixel>)
    requires |ps| == |qs| > 0
    requires forall i :: 0 <= i < |ps| ==> ps[i].r == qs[i].r && ps[i].g == qs[i].g && ps[i].b == qs[i].b
    ensures AverageColor(ps) == AverageColor(qs)
  {
    ChannelSumIgnoresAlpha(ps, qs, Red);
    ChannelSumIgnoresAlpha(ps, qs, Green);
    ChannelSumIgnoresAlpha(ps, qs, Blue);
  }

  // ---------------------------------------------------------------------
  // Bounding boxes

  function Xs(vs: seq<Point>): (xs: seq<real>)
    ensures |xs| == |vs| && forall i :: 0 <= i < |vs| ==> xs[i] == vs[i].x
  {
    seq(|vs|, i requires 0 <= i < |vs| => vs[i].x)
  }

  function Ys(vs: seq<Point>): (ys: seq<real>)
    ensures |ys| == |vs| && forall i :: 0 <= i < |vs| ==> ys[i] == vs[i].y
  {
    seq(|vs|, i requires 0 <= i < |vs| => vs[i].y)
  }

  /** Python's `min` over a non-empty sequence of numbers. */
  function MinOf(s: seq<real>): (m: real)
    requires |s| > 0
    ensures forall i :: 0 <= i < |s| ==> m <= s[i]
    ensures exists i :: 0 <= i < |s| && m == s[i]
  {
    if |s| == 1 then s[0]
    else
      var m' := MinOf(s[..|s| - 1]);
      assert forall i :: 0 <= i < |s| - 1 ==> s[..|s| - 1][i] == s[i];
      if s[|s| - 1] < m' then s[|s| - 1] else m'
  }

  /** Python's `max` over a non-empty sequence of numbers. */
  function MaxOf(s: seq<real>): (m: real)
    requires |s| > 0
    ensures forall i :: 0 <= i < |s| ==> s[i] <= m
    ensures exists i :: 0 <= i < |s| && m == s[i]
  {
    if |s| == 1 then s[0]
    else
      var m' := MaxOf(s[..|s| - 1]);
      assert forall i :: 0 <= i < |s| - 1 ==> s[..|s| - 1][i] == s[i];
      if s[|s| - 1] > m' then s[|s| - 1] else m'
  }

  /** `calculate_bounding_box_dimensions`: width and height of the
      axis-aligned box around the vertices (`min` of an empty list raises). */
  function BoundingBoxDimensions(vs: seq<Point>): (d: (real, real))
    requires |vs| > 0
    ensures d.0 >= 0.0 && d.1 >= 0.0
  {
    (MaxOf(Xs(vs)) - MinOf(Xs(vs)), MaxOf(Ys(vs)) - MinOf(Ys(vs)))
  }

  /** No two vertices are further apart, along either axis, than the
      bounding box is wide or high, and some pair is exactly that far apart. */
  lemma BoundingBoxDimensionsTight(vs: seq<Point>)
    requires |vs| > 0
    ensures forall i, j :: 0 <= i < |vs| && 0 <= j < |vs| ==>
      vs[i].x - vs[j].x <= BoundingBoxDimensions(vs).0 && vs[i].y - vs[j].y <= BoundingBoxDimensions(vs).1
    ensures exists i, j :: 0 <= i < |vs| && 0 <= j < |vs| && vs[i].x - vs[j].x == BoundingBoxDimensions(vs).0
    ensures exists i, j :: 0 <= i < |vs| && 0 <= j < |vs| && vs[i].y - vs[j].y == BoundingBoxDimensions(vs).1
  {
    var xs, ys := Xs(vs), Ys(vs);
    var a :| 0 <= a < |xs| && MaxOf(xs) == xs[a];
    var b :| 0 <= b < |xs| && MinOf(xs) == xs[b];
    var c :| 0 <= c < |ys| && MaxOf(ys) == ys[c];
    var e :| 0 <= e < |ys| && MinOf(ys) == ys[e];
    assert vs[a].x - vs[b].x == BoundingBoxDimensions(vs).0;
    assert vs[c].y - vs[e].y == BoundingBoxDimensions(vs).1;
  }

  function Translate(vs: seq<Point>, d: Point): (ts: seq<Point>)
    ensures |ts| == |vs| && forall i :: 0 <= i < |vs| ==> ts[i] == Add(vs[i], d)
  {
    seq(|vs|, i requires 0 <= i < |vs| => Add(vs[i], d))
  }

  /** The minimum of a sequence is shifted by exactly the amount every
      element is shifted by. */
  lemma MinMaxOfShifted(s: seq<real>, t: seq<real>, k: real)
    requires |s| == |t| > 0
    requires forall i :: 0 <= i < |s| ==> t[i] == s[i] + k
    ensures MinOf(t) == MinOf(s) + k
    ensures MaxOf(t) == MaxOf(s) + k
  {
    var i :| 0 <= i < |s| && MinOf(s) == s[i];
    var j :| 0 <= j < |t| && MinOf(t) == t[j];
    assert MinOf(t) <= t[i] && MinOf(s) <= s[j];
    var i' :| 0 <= i' < |s| && MaxOf(s) == s[i'];
    var j' :| 0 <= j' < |t| && MaxOf(t) == t[j'];
    assert MaxOf(t) >= t[i'] && MaxOf(s) >= s[j'];
  }

  lemma TranslateKeepsWidth(vs: seq<Point>, d: Point)
    requires |vs| > 0
    ensures BoundingBoxDimensions(Translate(vs, d)).0 == BoundingBoxDimensions(vs).0
  {
    var xt := Xs(Translate(vs, d));
    assert forall i :: 0 <= i < |vs| ==> xt[i] == Xs(vs)[i] + d.x;
    MinMaxOfShifted(Xs(vs), xt, d.x);
  }

  lemma TranslateKeepsHeight(vs: seq<Point>, d: Point)
    requires |vs| > 0
    ensures BoundingBoxDimensions(Translate(vs, d)).1 == BoundingBoxDimensions(vs).1
  {
    var yt := Ys(Translate(vs, d));
    assert forall i :: 0 <= i < |vs| ==> yt[i] == Ys(vs)[i] + d.y;
    MinMaxOfShifted(Ys(vs), yt, d.y);
  }

  /** Translating every vertex leaves the bounding-box dimensions unchanged. */
  lemma BoundingBoxDimensionsTranslationInvariant(vs: seq<Point>, d: Point)
    requires |vs| > 0
    ensures BoundingBoxDimensions(Translate(vs, d)) == BoundingBoxDimensions(vs)
  {
    TranslateKeepsWidth(vs, d);
    TranslateKeepsHeight(vs, d);
  }
}
