/** The Penrose tile generator: a fan of thin Robinson triangles around the
    origin, golden-ratio deflation, pairing of half-tiles into rhombi along
    their join edge, and scaling of the rhombi onto the canvas. */
module CreateTiles {
  import opened Utils

  /** The shape tag of a triangle: the source writes "thin" and treats any
      other tag as thick. */
  datatype Shape = Thin | Thick

  /** `(shape, v1, v2, v3)` */
  datatype Triangle = Triangle(shape: Shape, v1: Point, v2: Point, v3: Point)

  function Corners(t: Triangle): seq<Point> { [t.v1, t.v2, t.v3] }

  const Origin := Point(0.0, 0.0)

  /** `math.pi` as Python prints it. */
  const Pi: real := 3.141592653589793

  // ---------------------------------------------------------------------
  // create_initial_triangles

  /** The angle `k * pi / (base * 2)` of the fan's k-th spoke. */
  function SpokeAngle(k: int, base: int): real
    requires base != 0
  {
    k as real * Pi / (base * 2) as real
  }

  /** The i-th triangle of the initial fan: the origin and two unit vectors
      `rect(1, angle)` half a sector apart on each side of spoke 2i, written
      in the opposite order for even i so that neighbours mirror each other.
      `rect` stands for `cmath.rect(1, .)`. */
  function InitialTriangle(base: int, i: int, rect: real -> Point): (t: Triangle)
    requires base != 0
    ensures t.shape == Thin && t.v1 == Origin
    ensures {t.v2, t.v3} == {rect(SpokeAngle(2 * i - 1, base)), rect(SpokeAngle(2 * i + 1, base))}
  {
    var v2 := rect(SpokeAngle(2 * i - 1, base));
    var v3 := rect(SpokeAngle(2 * i + 1, base));
    if i % 2 == 0 then Triangle(Thin, Origin, v3, v2) else Triangle(Thin, Origin, v2, v3)
  }

  /** `create_initial_triangles(base)`: `2 * base` thin triangles around the
      origin (none when `base` is not positive). */
  method CreateInitialTriangles(base: int, rect: real -> Point) returns (ts: seq<Triangle>)
    ensures |ts| == if base > 0 then 2 * base else 0
    ensures forall i :: 0 <= i < |ts| ==> ts[i].shape == Thin && ts[i].v1 == Origin
    ensures base != 0 ==> forall i :: 0 <= i < |ts| ==> ts[i] == InitialTriangle(base, i, rect)
  {
    ts := [];
    var i := 0;
    while i < base * 2
      invariant 0 <= i && (base > 0 ==> i <= base * 2) && (base <= 0 ==> i == 0)
      invariant |ts| == i
      invariant forall k :: 0 <= k < i ==> ts[k].shape == Thin && ts[k].v1 == Origin
      invariant base != 0 ==> forall k :: 0 <= k < i ==> ts[k] == InitialTriangle(base, k, rect)
    {
      var v2 := rect((2 * i - 1) as real * Pi / (base * 2) as real);
      var v3 := rect((2 * i + 1) as real * Pi / (base * 2) as real);
      if i % 2 == 0 {
        v2, v3 := v3, v2;
      }
      ts := ts + [Triangle(Thin, Origin, v2, v3)];
      i := i + 1;
    }
  }

  /** Neighbouring triangles of the fan share the side from the origin to a
      common unit vector: the second vertex after an even index, the third
      after an odd one. */
  lemma {:induction false} InitialNeighboursShareSide(base: int, i: int, rect: real -> Point)
    requires base != 0
    ensures i % 2 == 0 ==> InitialTriangle(base, i, rect).v2 == InitialTriangle(base, i + 1, rect).v2
    ensures i % 2 == 1 ==> InitialTriangle(base, i, rect).v3 == InitialTriangle(base, i + 1, rect).v3
  {
    assert 2 * (i + 1) - 1 == 2 * i + 1;
    assert (i + 1) % 2 == 1 - i % 2;
  }

  // ---------------------------------------------------------------------
  // divide_triangles

  /** One deflation step of a single triangle. A thin triangle gives a thin
      and a thick one, split at the point `1/phi` of the way from v1 to v2;
      a thick triangle gives two thick and one thin, split at the points
      `1/phi` of the way from v2 towards v1 and towards v3. */
  function Children(t: Triangle, phi: real): (cs: seq<Triangle>)
    requires phi != 0.0
    ensures t.shape == Thin ==> |cs| == 2 && cs[0].shape == Thin && cs[1].shape == Thick
    ensures t.shape == Thick ==> |cs| == 3 && cs[0].shape == Thick && cs[1].shape == Thick && cs[2].shape == Thin
  {
    match t.shape
    case Thin =>
      var p1 := Add(t.v1, Div(Sub(t.v2, t.v1), phi));
      [Triangle(Thin, t.v3, p1, t.v2), Triangle(Thick, p1, t.v3, t.v1)]
    case Thick =>
      var p2 := Add(t.v2, Div(Sub(t.v1, t.v2), phi));
      var p3 := Add(t.v2, Div(Sub(t.v3, t.v2), phi));
      [Triangle(Thick, p3, t.v3, t.v1), Triangle(Thick, p2, p3, t.v2), Triangle(Thin, p3, p2, t.v1)]
  }

  /** The body of one pass of `divide_triangles`: every triangle replaced by
      its children, in parent order. */
  function DivideOnce(ts: seq<Triangle>, phi: real): (r: seq<Triangle>)
    requires phi != 0.0 || ts == []
  {
    if ts == [] then [] else DivideOnce(ts[..|ts| - 1], phi) + Children(ts[|ts| - 1], phi)
  }

  /** `k` passes of deflation. */
  function Iterate(ts: seq<Triangle>, k: int, phi: real): (r: seq<Triangle>)
    requires phi != 0.0 || ts == [] || k <= 0
    ensures ts == [] ==> r == []
  {
    if k <= 0 then ts else DivideOnce(Iterate(ts, k - 1, phi), phi)
  }

  /** `divide_triangles(triangles, divisions, phi)`. The source divides by
      `phi` only when there is a triangle to divide. */
  method DivideTriangles(triangles: seq<Triangle>, divisions: int, phi: real) returns (r: seq<Triangle>)
    requires phi != 0.0 || triangles == [] || divisions <= 0
    ensures r == Iterate(triangles, divisions, phi)
    ensures divisions <= 0 ==> r == triangles
  {
    var passes := if divisions > 0 then divisions else 0;
    r := triangles;
    var d := 0;
    while d < passes
      invariant 0 <= d <= passes
      invariant r == Iterate(triangles, d, phi)
    {
      r := DividePass(r, phi);
      d := d + 1;
    }
  }

  /** The inner loop of `divide_triangles`: `new_triangles` built up parent
      by parent. */
  method DividePass(triangles: seq<Triangle>, phi: real) returns (next: seq<Triangle>)
    requires phi != 0.0 || triangles == []
    ensures next == DivideOnce(triangles, phi)
  {
    next := [];
    var i := 0;
    while i < |triangles|
      invariant 0 <= i <= |triangles|
      invariant next == DivideOnce(triangles[..i], phi)
    {
      var t := triangles[i];
      assert triangles[..i + 1][..i] == triangles[..i];
      assert DivideOnce(triangles[..i + 1], phi) == next + Children(t, phi);
      if t.shape == Thin {
        var p1 := Add(t.v1, Div(Sub(t.v2, t.v1), phi));
        next := next + [Triangle(Thin, t.v3, p1, t.v2), Triangle(Thick, p1, t.v3, t.v1)];
      } else {
        var p2 := Add(t.v2, Div(Sub(t.v1, t.v2), phi));
        var p3 := Add(t.v2, Div(Sub(t.v3, t.v2), phi));
        next := next + [Triangle(Thick, p3, t.v3, t.v1), Triangle(Thick, p2, p3, t.v2), Triangle(Thin, p3, p2, t.v1)];
      }
      i := i + 1;
    }
    assert triangles[..|triangles|] == triangles;
  }

  /** Deflating a concatenation deflates each part, in order. */
  lemma {:induction false} DivideOnceAppend(a: seq<Triangle>, b: seq<Triangle>, phi: real)
    requires phi != 0.0
    ensures DivideOnce(a + b, phi) == DivideOnce(a, phi) + DivideOnce(b, phi)
    decreases |b|
  {
    if b == [] {
      assert a + b == a;
    } else {
      var b', last := b[..|b| - 1], b[|b| - 1];
      assert b == b' + [last];
      DivideOnceAppend(a, b', phi);
      DivideOnceAppendStep(a, b', last, phi);
    }
  }

  /** The inductive step of `DivideOnceAppend`: one more triangle at the end. */
  lemma DivideOnceAppendStep(a: seq<Triangle>, b: seq<Triangle>, t: Triangle, phi: real)
    requires phi != 0.0
    requires DivideOnce(a + b, phi) == DivideOnce(a, phi) + DivideOnce(b, phi)
    ensures DivideOnce(a + (b + [t]), phi) == DivideOnce(a, phi) + DivideOnce(b + [t], phi)
  {
    ConcatAssoc(a, b, [t]);
    DivideOnceSnoc(a + b, t, phi);
    DivideOnceSnoc(b, t, phi);
    ConcatAssoc(DivideOnce(a, phi), DivideOnce(b, phi), Children(t, phi));
  }

  lemma ConcatAssoc<T>(l: seq<T>, m: seq<T>, r: seq<T>)
    ensures (l + m) + r == l + (m + r)
  {
  }

  lemma DivideOnceSnoc(ts: seq<Triangle>, t: Triangle, phi: real)
    requires phi != 0.0
    ensures DivideOnce(ts + [t], phi) == DivideOnce(ts, phi) + Children(t, phi)
  {
    assert (ts + [t])[..|ts|] == ts;
  }

  function ThinCount(ts: seq<Triangle>): (n: nat)
    ensures n <= |ts|
  {
    if ts == [] then 0 else ThinCount(ts[..|ts| - 1]) + (if ts[|ts| - 1].shape == Thin then 1 else 0)
  }

  function ThickCount(ts: seq<Triangle>): (n: nat)
    ensures n <= |ts|
  {
    if ts == [] then 0 else ThickCount(ts[..|ts| - 1]) + (if ts[|ts| - 1].shape == Thick then 1 else 0)
  }

  /** Every triangle is either thin or thick. */
  lemma {:induction false} CountsPartition(ts: seq<Triangle>)
    ensures ThinCount(ts) + ThickCount(ts) == |ts|
  {
    if ts != [] {
      CountsPartition(ts[..|ts| - 1]);
    }
  }

  lemma {:induction false} CountsAppend(a: seq<Triangle>, b: seq<Triangle>)
    ensures ThinCount(a + b) == ThinCount(a) + ThinCount(b)
    ensures ThickCount(a + b) == ThickCount(a) + ThickCount(b)
  {
    if b == [] {
      assert a + b == a;
    } else {
      var b' := b[..|b| - 1];
      assert (a + b)[..|a + b| - 1] == a + b';
      CountsAppend(a, b');
    }
  }

  lemma ChildrenCounts(t: Triangle, phi: real)
    requires phi != 0.0
    ensures ThinCount(Children(t, phi)) == 1
    ensures ThickCount(Children(t, phi)) == if t.shape == Thin then 1 else 2
  {
    var cs := Children(t, phi);
    if t.shape == Thin {
      assert cs[..1][..0] == [];
      assert cs[..|cs| - 1] == cs[..1];
    } else {
      var one, two := cs[..1], cs[..2];
      assert one[..0] == [];
      assert ThinCount(one) == 0 && ThickCount(one) == 1;
      assert two[..1] == one;
      assert ThinCount(two) == 0 && ThickCount(two) == 2;
      assert cs[..|cs| - 1] == two;
    }
  }

  /** The count recurrence of one pass: every triangle yields one thin
      child, a thin parent one thick child and a thick parent two. */
  lemma {:induction false} DivideOnceCounts(ts: seq<Triangle>, phi: real)
    requires phi != 0.0
    ensures ThinCount(DivideOnce(ts, phi)) == ThinCount(ts) + ThickCount(ts)
    ensures ThickCount(DivideOnce(ts, phi)) == ThinCount(ts) + 2 * ThickCount(ts)
    ensures |DivideOnce(ts, phi)| == 2 * ThinCount(ts) + 3 * ThickCount(ts)
  {
    if ts != [] {
      var init, last := ts[..|ts| - 1], ts[|ts| - 1];
      DivideOnceCounts(init, phi);
      var before, children := DivideOnce(init, phi), Children(last, phi);
      assert DivideOnce(ts, phi) == before + children;
      CountsAppend(before, children);
      ChildrenCounts(last, phi);
      if last.shape == Thin {
        assert ThinCount(ts) == ThinCount(init) + 1 && ThickCount(ts) == ThickCount(init);
      } else {
        assert ThinCount(ts) == ThinCount(init) && ThickCount(ts) == ThickCount(init) + 1;
      }
    }
    CountsPartition(DivideOnce(ts, phi));
  }

  /** The number of thick triangles after `k` passes over `n` thin
      triangles, by the recurrence of `DivideOnceCounts`. */
  function ThickAfter(k: nat, n: nat): nat
  {
    if k == 0 then 0 else TotalAfter(k - 1, n) + ThickAfter(k - 1, n)
  }

  /** The number of triangles after `k` passes over `n` thin triangles. */
  function TotalAfter(k: nat, n: nat): nat
  {
    if k == 0 then n else 2 * TotalAfter(k - 1, n) + ThickAfter(k - 1, n)
  }

  /** After `k` passes over `ts` the counts are those of the recurrence. */
  ghost predicate OnRecurrence(ts: seq<Triangle>, k: nat, phi: real)
    requires phi != 0.0
  {
    ThickCount(Iterate(ts, k, phi)) == ThickAfter(k, |ts|) && |Iterate(ts, k, phi)| == TotalAfter(k, |ts|)
  }

  /** Starting from thin triangles only, `k` passes leave `ThickAfter`
      thick triangles of `TotalAfter` in all. */
  lemma {:induction false} AllThinDivisionCounts(ts: seq<Triangle>, k: nat, phi: real)
    requires phi != 0.0
    requires forall i :: 0 <= i < |ts| ==> ts[i].shape == Thin
    ensures OnRecurrence(ts, k, phi)
  {
    if k == 0 {
      AllThinCount(ts);
    } else {
      AllThinDivisionCounts(ts, k - 1, phi);
      IterateCounts(ts, k, phi);
    }
  }

  /** The `k`-th pass keeps the counts on the recurrence. */
  lemma IterateCounts(ts: seq<Triangle>, k: nat, phi: real)
    requires phi != 0.0 && k > 0
    requires OnRecurrence(ts, k - 1, phi)
    ensures OnRecurrence(ts, k, phi)
  {
    PassCounts(Iterate(ts, k - 1, phi), phi);
  }

  /** One pass in terms of thick and total counts. */
  lemma PassCounts(r: seq<Triangle>, phi: real)
    requires phi != 0.0
    ensures ThickCount(DivideOnce(r, phi)) == |r| + ThickCount(r)
    ensures |DivideOnce(r, phi)| == 2 * |r| + ThickCount(r)
  {
    CountsPartition(r);
    DivideOnceCounts(r, phi);
  }

  function Fib(n: nat): nat
  {
    if n < 2 then n else Fib(n - 1) + Fib(n - 2)
  }

  /** Per starting triangle the counts are Fibonacci numbers: `Fib(2k)`
      thick triangles and `Fib(2k + 1)` in all, so the count grows by
      about the square of the golden ratio per pass. */
  lemma {:induction false} CountsAreFibonacci(k: nat)
    ensures ThickAfter(k, 1) == Fib(2 * k) && TotalAfter(k, 1) == Fib(2 * k + 1)
  {
    if k > 0 {
      CountsAreFibonacci(k - 1);
      assert Fib(2 * k) == Fib(2 * k - 2) + Fib(2 * k - 1);
    }
  }

  /** The counts scale with the number of starting triangles. */
  lemma {:induction false} CountsScale(k: nat, n: nat)
    ensures ThickAfter(k, n) == ThickAfter(k, 1) * n && TotalAfter(k, n) == TotalAfter(k, 1) * n
  {
    if k > 0 {
      CountsScale(k - 1, n);
      ScaleSum(ThickAfter(k - 1, 1), TotalAfter(k - 1, 1), n);
    }
  }

  lemma ScaleSum(a: nat, b: nat, n: nat)
    ensures b * n + a * n == (b + a) * n
    ensures 2 * (b * n) + a * n == (2 * b + a) * n
  {
  }

  lemma {:induction false} AllThinCount(ts: seq<Triangle>)
    requires forall i :: 0 <= i < |ts| ==> ts[i].shape == Thin
    ensures ThickCount(ts) == 0
  {
    if ts != [] {
      AllThinCount(ts[..|ts| - 1]);
    }
  }

  // ---------------------------------------------------------------------
  // find_join_side and hash_edge

  type Side = (Point, Point)

  /** The three sides in the order the source lists them. */
  function Sides(v1: Point, v2: Point, v3: Point): seq<Side>
  {
    [(v1, v2), (v2, v3), (v1, v3)]
  }

  function SideLength(s: Side): real { SqDistance(s.0, s.1) }

  /** `find_join_side`: the shortest side of a thin triangle, the longest
      side of a thick one, the earlier side in `Sides` order on a tie (as
      Python's `min` and `max` with a key keep the first extremal item). */
  function FindJoinSide(v1: Point, v2: Point, v3: Point, shape: Shape): (e: Side)
    ensures e in Sides(v1, v2, v3)
    ensures shape == Thin ==> forall s :: s in Sides(v1, v2, v3) ==> SideLength(e) <= SideLength(s)
    ensures shape == Thick ==> forall s :: s in Sides(v1, v2, v3) ==> SideLength(s) <= SideLength(e)
    ensures SideLength((v1, v2)) == SideLength(e) ==> e == (v1, v2)
    ensures SideLength((v2, v3)) == SideLength(e) ==> e == (v1, v2) || e == (v2, v3)
  {
    var s12, s23, s13 := (v1, v2), (v2, v3), (v1, v3);
    if shape == Thin then
      var best := if SideLength(s23) < SideLength(s12) then s23 else s12;
      if SideLength(s13) < SideLength(best) then s13 else best
    else
      var best := if SideLength(s23) > SideLength(s12) then s23 else s12;
      if SideLength(s13) > SideLength(best) then s13 else best
  }

  type Coordinates = (real, real)

  /** Python's `<` on two pairs of floats: lexicographic. */
  predicate TupleLess(a: Coordinates, b: Coordinates)
  {
    a.0 < b.0 || (a.0 == b.0 && a.1 < b.1)
  }

  /** The value hashed for an edge. Python's `hash` of it is taken to be
      injective, so the key stands for the hash. */
  type EdgeKey = (Coordinates, Coordinates)

  /** `hash_edge(v1, v2)`: both endpoints as 5-decimal coordinate pairs,
      sorted ascending. */
  function HashEdge(v1: Point, v2: Point): (k: EdgeKey)
    ensures !TupleLess(k.1, k.0)
    ensures k == (ComplexToTuple(v1, 5), ComplexToTuple(v2, 5)) || k == (ComplexToTuple(v2, 5), ComplexToTuple(v1, 5))
  {
    var t1, t2 := ComplexToTuple(v1, 5), ComplexToTuple(v2, 5);
    if TupleLess(t2, t1) then (t2, t1) else (t1, t2)
  }

  /** The key does not depend on the direction of the edge. */
  lemma HashEdgeSymmetric(v1: Point, v2: Point)
    ensures HashEdge(v1, v2) == HashEdge(v2, v1)
  {
    var t1, t2 := ComplexToTuple(v1, 5), ComplexToTuple(v2, 5);
    if !TupleLess(t1, t2) && !TupleLess(t2, t1) {
      assert t1 == t2;
    }
  }

  /** Two edges get the same key exactly when their rounded endpoints are
      the same, in either direction. */
  lemma HashEdgeIdentifiesEdge(a: Point, b: Point, c: Point, d: Point)
    ensures HashEdge(a, b) == HashEdge(c, d) <==>
      var ta, tb, tc, td := ComplexToTuple(a, 5), ComplexToTuple(b, 5), ComplexToTuple(c, 5), ComplexToTuple(d, 5);
      (ta == tc && tb == td) || (ta == td && tb == tc)
  {
    HashEdgeSymmetric(a, b);
    HashEdgeSymmetric(c, d);
  }

  // ---------------------------------------------------------------------
  // sort_vertices

  function Sum(vs: seq<Point>): Point
  {
    if vs == [] then Origin else Add(Sum(vs[..|vs| - 1]), vs[|vs| - 1])
  }

  lemma {:induction false} SumAppend(a: seq<Point>, b: seq<Point>)
    ensures Sum(a + b) == Add(Sum(a), Sum(b))
  {
    if b == [] {
      assert a + b == a;
    } else {
      var b' := b[..|b| - 1];
      assert (a + b)[..|a + b| - 1] == a + b';
      SumAppend(a, b');
    }
  }

  lemma MultisetRemove(b: seq<Point>, k: int)
    requires 0 <= k < |b|
    ensures multiset(b[..k] + b[k + 1..]) == multiset(b) - multiset{b[k]}
  {
    assert b == b[..k] + [b[k]] + b[k + 1..];
  }

  lemma SumRemove(b: seq<Point>, k: int)
    requires 0 <= k < |b|
    ensures Sum(b) == Add(Sum(b[..k] + b[k + 1..]), b[k])
  {
    var x, front, back := b[k], b[..k], b[k + 1..];
    SplitAround(b, k);
    SumAppend(front + [x], back);
    SnocPrefix(front, x);
    SumAppend(front, back);
    var sf, sb := Sum(front), Sum(back);
    assert Add(Add(sf, x), sb) == Add(Add(sf, sb), x);
  }

  lemma SplitAround<T>(b: seq<T>, k: int)
    requires 0 <= k < |b|
    ensures b == (b[..k] + [b[k]]) + b[k + 1..]
  {
  }

  lemma SnocPrefix<T>(s: seq<T>, x: T)
    ensures (s + [x])[..|s|] == s
  {
  }

  /** The sum of a list of points does not depend on their order. */
  lemma {:induction false} SumPermutation(a: seq<Point>, b: seq<Point>)
    requires multiset(a) == multiset(b)
    ensures Sum(a) == Sum(b)
  {
    if a == [] {
      assert |b| == |multiset(b)| == 0;
    } else {
      var init, x := a[..|a| - 1], a[|a| - 1];
      assert a == init + [x];
      assert x in multiset(b);
      var k :| 0 <= k < |b| && b[k] == x;
      MultisetRemove(b, k);
      assert multiset(a) - multiset{x} == multiset(init);
      SumPermutation(init, b[..k] + b[k + 1..]);
      SumRemove(b, k);
    }
  }

  /** `sum(vertices) / len(vertices)`; an empty list divides by zero. */
  function Centroid(vs: seq<Point>): Point
    requires |vs| > 0
  {
    Div(Sum(vs), |vs| as real)
  }

  /** The sort key of `sort_vertices`: the phase of the vertex seen from
      the centroid. `phase` stands for `cmath.phase`. */
  function Angle(v: Point, c: Point, phase: Point -> real): real
  {
    phase(Sub(v, c))
  }

  ghost predicate SortedByAngle(vs: seq<Point>, c: Point, phase: Point -> real)
  {
    forall i, j :: 0 <= i < j < |vs| ==> Angle(vs[i], c, phase) <= Angle(vs[j], c, phase)
  }

  /** Places `v` in a list sorted by angle, ahead of every vertex whose
      angle is not smaller. */
  function InsertByAngle(v: Point, vs: seq<Point>, c: Point, phase: Point -> real): (r: seq<Point>)
    requires SortedByAngle(vs, c, phase)
    ensures multiset(r) == multiset(vs) + multiset{v}
    ensures SortedByAngle(r, c, phase)
    ensures |r| == |vs| + 1 && (r[0] == v || (vs != [] && r[0] == vs[0]))
  {
    if vs == [] then [v]
    else if Angle(v, c, phase) <= Angle(vs[0], c, phase) then [v] + vs
    else
      var rest := InsertByAngle(v, vs[1..], c, phase);
      InsertBehind(v, vs, rest, c, phase);
      [vs[0]] + rest
  }

  /** The recursive case of `InsertByAngle`: the head of `vs` stays in
      front of `v` inserted into the tail. */
  lemma InsertBehind(v: Point, vs: seq<Point>, rest: seq<Point>, c: Point, phase: Point -> real)
    requires vs != [] && SortedByAngle(vs, c, phase) && Angle(vs[0], c, phase) < Angle(v, c, phase)
    requires multiset(rest) == multiset(vs[1..]) + multiset{v} && SortedByAngle(rest, c, phase)
    requires |rest| == |vs| && (rest[0] == v || (vs[1..] != [] && rest[0] == vs[1..][0]))
    ensures multiset([vs[0]] + rest) == multiset(vs) + multiset{v}
    ensures SortedByAngle([vs[0]] + rest, c, phase)
  {
    assert vs == [vs[0]] + vs[1..];
    if rest[0] != v {
      assert Angle(vs[0], c, phase) <= Angle(vs[1], c, phase);
    }
    PrependSorted(vs[0], rest, c, phase);
  }

  lemma PrependSorted(v: Point, vs: seq<Point>, c: Point, phase: Point -> real)
    requires SortedByAngle(vs, c, phase)
    requires vs != [] ==> Angle(v, c, phase) <= Angle(vs[0], c, phase)
    ensures SortedByAngle([v] + vs, c, phase)
  {
    var r := [v] + vs;
    forall i, j | 0 <= i < j < |r|
      ensures Angle(r[i], c, phase) <= Angle(r[j], c, phase)
    {
      if i == 0 {
        assert r[j] == vs[j - 1];
        assert r[1] == vs[0];
      } else {
        assert r[i] == vs[i - 1] && r[j] == vs[j - 1];
      }
    }
  }

  function SortByAngle(vs: seq<Point>, c: Point, phase: Point -> real): (r: seq<Point>)
    ensures multiset(r) == multiset(vs)
    ensures SortedByAngle(r, c, phase)
  {
    if vs == [] then []
    else
      assert vs == [vs[0]] + vs[1..];
      InsertByAngle(vs[0], SortByAngle(vs[1..], c, phase), c, phase)
  }

  /** `sort_vertices(vertices)`: the same vertices, ordered by their angle
      around the centroid. */
  function SortVertices(vs: seq<Point>, phase: Point -> real): (r: seq<Point>)
    requires |vs| > 0
    ensures multiset(r) == multiset(vs)
    ensures |r| == |vs|
    ensures SortedByAngle(r, Centroid(vs), phase)
    ensures Centroid(r) == Centroid(vs)
  {
    var sorted := SortByAngle(vs, Centroid(vs), phase);
    assert |sorted| == |multiset(sorted)| == |multiset(vs)| == |vs|;
    SumPermutation(sorted, vs);
    sorted
  }

  // ---------------------------------------------------------------------
  // pair_triangles_and_form_rhombi

  function RoundedCorners(t: Triangle): seq<Point>
  {
    [RoundComplex(t.v1, 6), RoundComplex(t.v2, 6), RoundComplex(t.v3, 6)]
  }

  /** `list(s)` of a set: its elements, each once, in an order the model
      leaves open (CPython's set iteration order). */
  method SetToList(s: set<Point>) returns (xs: seq<Point>)
    ensures multiset(xs) == multiset(s)
    ensures |xs| == |s|
    ensures forall x :: x in xs <==> x in s
  {
    xs := [];
    var rest := s;
    while rest != {}
      invariant rest <= s
      invariant multiset(xs) + multiset(rest) == multiset(s)
      invariant |xs| + |rest| == |s|
      invariant forall x :: x in xs ==> x in s && x !in rest
      invariant forall x :: x in s ==> x in xs || x in rest
      decreases |rest|
    {
      var x :| x in rest;
      assert multiset(rest) == multiset(rest - {x}) + multiset{x};
      xs := xs + [x];
      rest := rest - {x};
    }
  }

  /** The vertices `list(unique_vertices) + list(matching_unique) +
      list(shared_vertices)` holds, with multiplicity: the corners of the
      new half off the join side, the corners of the waiting half off the
      join side, and the join side's two endpoints. */
  function JoinVertexBag(corners: seq<Point>, matching: seq<Point>, side: Side): multiset<Point>
  {
    var shared := {side.0, side.1};
    multiset((set v | v in corners) - shared) + multiset((set v | v in matching) - shared) + multiset(shared)
  }

  lemma {:induction false} MultisetOfSetSize(s: set<Point>)
    ensures |multiset(s)| == |s|
    decreases |s|
  {
    if s != {} {
      var x :| x in s;
      MultisetOfSetSize(s - {x});
      assert multiset(s) == multiset(s - {x}) + multiset{x};
    }
  }

  /** When the join side is a side of the new half, the candidates are the
      corners of both halves, and there are as many as the distinct corners
      of the new half plus the distinct corners of the waiting half off the
      join side. */
  lemma JoinVertexBagFacts(corners: seq<Point>, matching: seq<Point>, side: Side)
    requires side.0 in corners && side.1 in corners
    ensures forall p :: p in JoinVertexBag(corners, matching, side) <==> p in corners || p in matching
    ensures |JoinVertexBag(corners, matching, side)| ==
            |set v | v in corners| + |(set v | v in matching) - {side.0, side.1}|
  {
    var shared := {side.0, side.1};
    var own, other := (set v | v in corners), (set v | v in matching);
    MultisetOfSetSize(own - shared);
    MultisetOfSetSize(other - shared);
    MultisetOfSetSize(shared);
    assert own == (own - shared) + shared;
    assert |own| == |own - shared| + |shared|;
  }

  /** The candidate vertex list of a match, each group as `list` of a set. */
  method JoinHalves(corners: seq<Point>, matching: seq<Point>, side: Side) returns (vertices: seq<Point>)
    ensures multiset(vertices) == JoinVertexBag(corners, matching, side)
  {
    var shared := {side.0, side.1};
    var unique := (set v | v in corners) - shared;
    var matchingUnique := (set v | v in matching) - shared;
    var u := SetToList(unique);
    var m := SetToList(matchingUnique);
    var sh := SetToList(shared);
    vertices := u + m + sh;
  }

  /** The body of the matched branch: the candidate vertex list, sorted
      by angle and kept exactly when it has four entries. */
  method FormRhombus(corners: seq<Point>, matching: seq<Point>, side: Side, phase: Point -> real)
    returns (rhombus: Option<seq<Point>>)
    ensures rhombus.Some? <==> |JoinVertexBag(corners, matching, side)| == 4
    ensures rhombus.Some? ==> multiset(rhombus.value) == JoinVertexBag(corners, matching, side)
    ensures rhombus.Some? ==> SortedByAngle(rhombus.value, Centroid(rhombus.value), phase)
  {
    var vertices := JoinHalves(corners, matching, side);
    if |vertices| == 4 {
      rhombus := Some(SortVertices(vertices, phase));
    } else {
      rhombus := None;
    }
  }

  lemma MapRemoveSize<K, V>(m: map<K, V>, k: K)
    requires k in m
    ensures |m - {k}| == |m| - 1
  {
    assert m.Keys == (m - {k}).Keys + {k};
  }

  lemma MapAddSize<K, V>(m: map<K, V>, k: K, v: V)
    requires k !in m
    ensures |m[k := v]| == |m| + 1
  {
    assert m[k := v].Keys == m.Keys + {k};
  }

  function RoundAll(vs: seq<Point>): (rs: seq<Point>)
    ensures |rs| == |vs| && forall k :: 0 <= k < |vs| ==> rs[k] == RoundComplex(vs[k], 6)
  {
    seq(|vs|, k requires 0 <= k < |vs| => RoundComplex(vs[k], 6))
  }

  /** The side a triangle joins on, found on its corners rounded to 6
      decimals. */
  function JoinSide(t: Triangle): Side
  {
    var r := RoundedCorners(t);
    FindJoinSide(r[0], r[1], r[2], t.shape)
  }

  /** The key under which a triangle waits for its partner. */
  function JoinKey(t: Triangle): EdgeKey
  {
    HashEdge(JoinSide(t).0, JoinSide(t).1)
  }

  /** The candidate vertices when triangle `t` meets the waiting half
      whose stored corners are `waiting`. */
  function RhombusBag(t: Triangle, waiting: seq<Point>): multiset<Point>
  {
    JoinVertexBag(RoundedCorners(t), RoundAll(waiting), JoinSide(t))
  }

  lemma JoinSideIsSide(t: Triangle)
    ensures JoinSide(t).0 in RoundedCorners(t) && JoinSide(t).1 in RoundedCorners(t)
  {
    var r := RoundedCorners(t);
    assert JoinSide(t) in Sides(r[0], r[1], r[2]);
  }

  /** The triangles waiting in `triangle_halves` once the loop has seen
      `ts`, by key: a triangle waits under its `JoinKey` until the next
      triangle with that key arrives and takes it out. */
  function Waiting(ts: seq<Triangle>): map<EdgeKey, Triangle>
    decreases |ts|
  {
    if ts == [] then map[]
    else
      var w := Waiting(ts[..|ts| - 1]);
      var t := ts[|ts| - 1];
      if JoinKey(t) in w then w - {JoinKey(t)} else w[JoinKey(t) := t]
  }

  /** The (waiting, arriving) pairs of triangles the loop matches, in the
      order the matches happen. */
  function Pairs(ts: seq<Triangle>): seq<(Triangle, Triangle)>
    decreases |ts|
  {
    if ts == [] then []
    else
      var w := Waiting(ts[..|ts| - 1]);
      var t := ts[|ts| - 1];
      if JoinKey(t) in w then Pairs(ts[..|ts| - 1]) + [(w[JoinKey(t)], t)] else Pairs(ts[..|ts| - 1])
  }

  /** The candidate vertices of each matched pair that has exactly four,
      in order: what the emitted rhombi hold. */
  function Kept(pairs: seq<(Triangle, Triangle)>): seq<multiset<Point>>
    decreases |pairs|
  {
    if pairs == [] then []
    else
      var rest := Kept(pairs[..|pairs| - 1]);
      var p := pairs[|pairs| - 1];
      var b := RhombusBag(p.1, Corners(p.0));
      if |b| == 4 then rest + [b] else rest
  }

  lemma PairingSnoc(ts: seq<Triangle>, t: Triangle)
    ensures var w, k := Waiting(ts), JoinKey(t);
            Waiting(ts + [t]) == (if k in w then w - {k} else w[k := t]) &&
            Pairs(ts + [t]) == (if k in w then Pairs(ts) + [(w[k], t)] else Pairs(ts))
  {
    SnocPrefix(ts, t);
  }

  lemma KeptSnoc(ps: seq<(Triangle, Triangle)>, p: (Triangle, Triangle))
    ensures var b := RhombusBag(p.1, Corners(p.0));
            Kept(ps + [p]) == if |b| == 4 then Kept(ps) + [b] else Kept(ps)
  {
    SnocPrefix(ps, p);
  }

  lemma TakeSnoc<T>(s: seq<T>, i: int)
    requires 0 <= i < |s|
    ensures s[..i + 1] == s[..i] + [s[i]]
  {
  }

  /** Every waiting triangle is an input triangle, filed under its own
      join key. */
  lemma {:induction false} WaitingSound(ts: seq<Triangle>)
    ensures forall k :: k in Waiting(ts) ==> Waiting(ts)[k] in ts && JoinKey(Waiting(ts)[k]) == k
    decreases |ts|
  {
    if ts != [] {
      var n := |ts| - 1;
      WaitingSound(ts[..n]);
      SplitLast(ts);
      PairingSnoc(ts[..n], ts[n]);
    }
  }

  lemma SplitLast<T>(s: seq<T>)
    requires |s| > 0
    ensures s == s[..|s| - 1] + [s[|s| - 1]]
    ensures forall x :: x in s[..|s| - 1] ==> x in s
  {
  }

  /** Both triangles of every matched pair are input triangles with the
      same join key. */
  lemma {:induction false} PairsSound(ts: seq<Triangle>)
    ensures forall n :: 0 <= n < |Pairs(ts)| ==>
      Pairs(ts)[n].0 in ts && Pairs(ts)[n].1 in ts && JoinKey(Pairs(ts)[n].0) == JoinKey(Pairs(ts)[n].1)
    decreases |ts|
  {
    if ts != [] {
      var n := |ts| - 1;
      PairsSound(ts[..n]);
      WaitingSound(ts[..n]);
      SplitLast(ts);
      PairingSnoc(ts[..n], ts[n]);
    }
  }

  /** Every triangle is either matched, two to a pair, or left waiting. */
  lemma {:induction false} PairingCounts(ts: seq<Triangle>)
    ensures 2 * |Pairs(ts)| + |Waiting(ts)| == |ts|
    decreases |ts|
  {
    if ts != [] {
      var n := |ts| - 1;
      PairingCounts(ts[..n]);
      SplitLast(ts);
      PairingSnoc(ts[..n], ts[n]);
      var w, k := Waiting(ts[..n]), JoinKey(ts[n]);
      if k in w {
        MapRemoveSize(w, k);
      } else {
        MapAddSize(w, k, ts[n]);
      }
    }
  }

  /** At most one rhombus per matched pair, each of four vertices. */
  lemma {:induction false} KeptBound(ps: seq<(Triangle, Triangle)>)
    ensures |Kept(ps)| <= |ps|
    ensures forall n :: 0 <= n < |Kept(ps)| ==> |Kept(ps)[n]| == 4
    decreases |ps|
  {
    if ps != [] {
      KeptBound(ps[..|ps| - 1]);
    }
  }

  /** The corners of all input triangles, rounded to 6 decimals. */
  ghost function RoundedPool(triangles: seq<Triangle>): set<Point>
  {
    set t, p | t in triangles && p in RoundedCorners(t) :: p
  }

  /** Every vertex in `b` is a rounded corner of an input triangle. */
  ghost predicate InPool(b: multiset<Point>, ts: seq<Triangle>)
  {
    forall p :: p in b ==> p in RoundedPool(ts)
  }

  /** The vertices of the rhombus a pair of input triangles forms are
      rounded corners of input triangles. */
  lemma {:induction false} KeptInPool(ps: seq<(Triangle, Triangle)>, ts: seq<Triangle>)
    requires forall n :: 0 <= n < |ps| ==> ps[n].0 in ts && ps[n].1 in ts
    ensures forall n :: 0 <= n < |Kept(ps)| ==> InPool(Kept(ps)[n], ts)
    decreases |ps|
  {
    if ps != [] {
      var m := |ps| - 1;
      KeptInPool(ps[..m], ts);
      PairBagInPool(ps[m].0, ps[m].1, ts);
      SplitLast(ps);
      KeptSnoc(ps[..m], ps[m]);
    }
  }

  /** The candidate vertices of two input triangles are rounded corners of
      input triangles. */
  lemma PairBagInPool(w: Triangle, t: Triangle, ts: seq<Triangle>)
    requires w in ts && t in ts
    ensures InPool(RhombusBag(t, Corners(w)), ts)
  {
    JoinSideIsSide(t);
    JoinVertexBagFacts(RoundedCorners(t), RoundAll(Corners(w)), JoinSide(t));
    assert RoundAll(Corners(w)) == RoundedCorners(w);
  }

  /** What every emitted rhombus satisfies: four vertices, sorted by angle
      around their centroid, each a rounded corner of an input triangle. */
  ghost predicate ValidRhombus(r: seq<Point>, triangles: seq<Triangle>, phase: Point -> real)
  {
    |r| == 4 && SortedByAngle(r, Centroid(r), phase) && forall p :: p in r ==> p in RoundedPool(triangles)
  }

  /** The dictionary `halves` stores, under each key, the corners of the
      triangle `waiting` holds under it, and nothing else. */
  ghost predicate Mirrors(halves: map<EdgeKey, seq<Point>>, waiting: map<EdgeKey, Triangle>)
  {
    (forall k :: k in halves <==> k in waiting) &&
    forall k :: k in waiting ==> halves[k] == Corners(waiting[k])
  }

  /** Each of `rhombi` is an angle-sorted arrangement of the vertex bag at
      the same index. */
  ghost predicate Arranged(rhombi: seq<seq<Point>>, bags: seq<multiset<Point>>, phase: Point -> real)
  {
    |rhombi| == |bags| &&
    forall n :: 0 <= n < |rhombi| ==>
      |rhombi[n]| > 0 && multiset(rhombi[n]) == bags[n] && SortedByAngle(rhombi[n], Centroid(rhombi[n]), phase)
  }

  lemma ArrangedSnoc(rhombi: seq<seq<Point>>, bags: seq<multiset<Point>>, r: seq<Point>, phase: Point -> real)
    requires Arranged(rhombi, bags, phase) && |r| > 0
    requires SortedByAngle(r, Centroid(r), phase)
    ensures Arranged(rhombi + [r], bags + [multiset(r)], phase)
  {
    assert forall n :: 0 <= n < |rhombi| ==> (rhombi + [r])[n] == rhombi[n] && (bags + [multiset(r)])[n] == bags[n];
  }

  /** One iteration of the pairing loop before the dictionary is updated:
      the triangle's key and, when a half with that key is waiting, the
      rhombus the two halves form, exactly when it has four vertices. */
  method MatchTriangle(t: Triangle, halves: map<EdgeKey, seq<Point>>, phase: Point -> real)
    returns (key: EdgeKey, rhombus: Option<seq<Point>>)
    ensures key == JoinKey(t)
    ensures key !in halves ==> rhombus == None
    ensures key in halves ==> (rhombus.Some? <==> |RhombusBag(t, halves[key])| == 4)
    ensures rhombus.Some? ==> key in halves && multiset(rhombus.value) == RhombusBag(t, halves[key])
    ensures rhombus.Some? ==> SortedByAngle(rhombus.value, Centroid(rhombus.value), phase)
  {
    var v1Rounded, v2Rounded, v3Rounded := RoundComplex(t.v1, 6), RoundComplex(t.v2, 6), RoundComplex(t.v3, 6);
    var side := FindJoinSide(v1Rounded, v2Rounded, v3Rounded, t.shape);
    assert side == JoinSide(t);
    key := HashEdge(side.0, side.1);
    if key in halves {
      var matching := RoundAll(halves[key]);
      rhombus := FormRhombus([v1Rounded, v2Rounded, v3Rounded], matching, side, phase);
    } else {
      rhombus := None;
    }
  }

  /** One pass of the pairing loop: a triangle whose key is waiting is
      matched with the waiting triangle and the key leaves the dictionary;
      otherwise the triangle's corners wait under its key. */
  method PairStep(t: Triangle, halves: map<EdgeKey, seq<Point>>, phase: Point -> real, ghost waiting: map<EdgeKey, Triangle>)
    returns (key: EdgeKey, halves': map<EdgeKey, seq<Point>>, rhombus: Option<seq<Point>>)
    requires Mirrors(halves, waiting)
    ensures key == JoinKey(t)
    ensures key in waiting ==> Mirrors(halves', waiting - {key})
    ensures key !in waiting ==> Mirrors(halves', waiting[key := t])
    ensures key in waiting ==> (rhombus.Some? <==> |RhombusBag(t, Corners(waiting[key]))| == 4)
    ensures rhombus.Some? ==>
      key in waiting && multiset(rhombus.value) == RhombusBag(t, Corners(waiting[key])) &&
      SortedByAngle(rhombus.value, Centroid(rhombus.value), phase)
  {
    key, rhombus := MatchTriangle(t, halves, phase);
    if key in halves {
      halves' := halves - {key};
    } else {
      var corners := [t.v1, t.v2, t.v3];
      assert corners == Corners(t);
      halves' := halves[key := corners];
    }
  }

  /** A pairing step leaves `halves` mirroring the dictionary of waiting
      triangles one triangle further on. */
  lemma MirrorsStep(before: seq<Triangle>, t: Triangle, halves: map<EdgeKey, seq<Point>>, key: EdgeKey)
    requires key == JoinKey(t)
    requires key in Waiting(before) ==> Mirrors(halves, Waiting(before) - {key})
    requires key !in Waiting(before) ==> Mirrors(halves, Waiting(before)[key := t])
    ensures Mirrors(halves, Waiting(before + [t]))
  {
    PairingSnoc(before, t);
  }

  /** Appending the rhombus a pairing step forms, if any, keeps the rhombi
      arranged from the kept bags one triangle further on. */
  lemma ArrangedStep(before: seq<Triangle>, t: Triangle, rhombi: seq<seq<Point>>, rhombus: Option<seq<Point>>, phase: Point -> real)
    requires Arranged(rhombi, Kept(Pairs(before)), phase)
    requires JoinKey(t) in Waiting(before) ==>
      (rhombus.Some? <==> |RhombusBag(t, Corners(Waiting(before)[JoinKey(t)]))| == 4)
    requires rhombus.Some? ==>
      JoinKey(t) in Waiting(before) &&
      multiset(rhombus.value) == RhombusBag(t, Corners(Waiting(before)[JoinKey(t)])) &&
      SortedByAngle(rhombus.value, Centroid(rhombus.value), phase)
    ensures rhombus.Some? ==> Arranged(rhombi + [rhombus.value], Kept(Pairs(before + [t])), phase)
    ensures rhombus.None? ==> Arranged(rhombi, Kept(Pairs(before + [t])), phase)
  {
    var w := Waiting(before);
    PairingSnoc(before, t);
    if JoinKey(t) in w {
      KeptSnoc(Pairs(before), (w[JoinKey(t)], t));
    }
    if rhombus.Some? {
      ArrangedSnoc(rhombi, Kept(Pairs(before)), rhombus.value, phase);
    }
  }

  /** `pair_triangles_and_form_rhombi`. The first triangle with a given
      `JoinKey` waits in `halves`; the next one with that key forms a
      rhombus with it, which is kept exactly when it has four vertices,
      and the key is removed either way. The source's diagnostic messages
      are left out. `pending` is the dictionary the loop ends with. */
  method PairTrianglesAndFormRhombi(triangles: seq<Triangle>, phase: Point -> real)
    returns (rhombi: seq<seq<Point>>, ghost pending: map<EdgeKey, seq<Point>>)
    ensures |rhombi| == |Kept(Pairs(triangles))|
    ensures forall n :: 0 <= n < |rhombi| ==>
      |rhombi[n]| == 4 && multiset(rhombi[n]) == Kept(Pairs(triangles))[n] &&
      SortedByAngle(rhombi[n], Centroid(rhombi[n]), phase)
    ensures forall k :: k in pending <==> k in Waiting(triangles)
    ensures forall k :: k in pending ==> pending[k] == Corners(Waiting(triangles)[k])
    ensures forall n :: 0 <= n < |rhombi| ==> ValidRhombus(rhombi[n], triangles, phase)
    ensures |rhombi| <= |triangles| / 2
  {
    var halves: map<EdgeKey, seq<Point>> := map[];
    rhombi := [];
    var i := 0;
    while i < |triangles|
      invariant 0 <= i <= |triangles|
      invariant Mirrors(halves, Waiting(triangles[..i]))
      invariant Arranged(rhombi, Kept(Pairs(triangles[..i])), phase)
    {
      var t := triangles[i];
      ghost var before := triangles[..i];
      TakeSnoc(triangles, i);
      var key, halves', rhombus := PairStep(t, halves, phase, Waiting(before));
      MirrorsStep(before, t, halves', key);
      ArrangedStep(before, t, rhombi, rhombus, phase);
      halves := halves';
      if rhombus.Some? {
        rhombi := rhombi + [rhombus.value];
      }
      i := i + 1;
    }
    assert triangles[..i] == triangles;
    pending := halves;
    RhombiValid(rhombi, triangles, phase);
  }

  /** Each arranged rhombus has four vertices, and there are at most half
      as many rhombi as triangles. */
  lemma RhombiSizes(rhombi: seq<seq<Point>>, triangles: seq<Triangle>, phase: Point -> real)
    requires Arranged(rhombi, Kept(Pairs(triangles)), phase)
    ensures forall n :: 0 <= n < |rhombi| ==> |rhombi[n]| == 4
    ensures |rhombi| <= |triangles| / 2
  {
    KeptBound(Pairs(triangles));
    PairingCounts(triangles);
  }

  /** Every vertex of an arranged rhombus is a rounded corner of an input triangle. */
  lemma RhombiInPool(rhombi: seq<seq<Point>>, triangles: seq<Triangle>, phase: Point -> real)
    requires Arranged(rhombi, Kept(Pairs(triangles)), phase)
    ensures forall n, p :: 0 <= n < |rhombi| && p in rhombi[n] ==> p in RoundedPool(triangles)
  {
    PairsSound(triangles);
    KeptInPool(Pairs(triangles), triangles);
  }

  /** Rhombi arranged from the kept bags are valid, and there are at most
      half as many as triangles. */
  lemma RhombiValid(rhombi: seq<seq<Point>>, triangles: seq<Triangle>, phase: Point -> real)
    requires Arranged(rhombi, Kept(Pairs(triangles)), phase)
    ensures forall n :: 0 <= n < |rhombi| ==> ValidRhombus(rhombi[n], triangles, phase)
    ensures |rhombi| <= |triangles| / 2
  {
    RhombiSizes(rhombi, triangles, phase);
    RhombiInPool(rhombi, triangles, phase);
  }

  // ---------------------------------------------------------------------
  // normalize_and_scale_tiles

  /** All vertices of all tiles, tile by tile. */
  function Flatten(rs: seq<seq<Point>>): (vs: seq<Point>)
    ensures forall i, j :: 0 <= i < |rs| && 0 <= j < |rs[i]| ==> rs[i][j] in vs
  {
    if rs == [] then []
    else
      var init := rs[..|rs| - 1];
      assert forall i :: 0 <= i < |rs| - 1 ==> init[i] == rs[i];
      Flatten(init) + rs[|rs| - 1]
  }

  /** `max(abs(v.real), abs(v.imag))` */
  function Extent(v: Point): (e: real)
    ensures e >= 0.0 && Abs(v.x) <= e && Abs(v.y) <= e
  {
    Max(Abs(v.x), Abs(v.y))
  }

  function Extents(vs: seq<Point>): (es: seq<real>)
    ensures |es| == |vs| && forall i :: 0 <= i < |vs| ==> es[i] == Extent(vs[i])
  {
    seq(|vs|, i requires 0 <= i < |vs| => Extent(vs[i]))
  }

  /** Some vertex of some tile is off the origin; `max_dimension` is then
      positive (and `max` has something to range over). */
  ghost predicate HasNonzeroCoordinate(rs: seq<seq<Point>>)
  {
    exists i, j :: 0 <= i < |rs| && 0 <= j < |rs[i]| && (rs[i][j].x != 0.0 || rs[i][j].y != 0.0)
  }

  /** `max_dimension`: twice the largest coordinate magnitude. */
  function MaxDimension(rs: seq<seq<Point>>): (m: real)
    requires HasNonzeroCoordinate(rs)
    ensures m > 0.0
  {
    MaxExtentBounds(rs);
    MaxOf(Extents(Flatten(rs))) * 2.0
  }

  /** No coordinate of any vertex exceeds half the maximum dimension in
      magnitude. */
  lemma MaxDimensionBounds(rs: seq<seq<Point>>)
    requires HasNonzeroCoordinate(rs)
    ensures forall i, j :: 0 <= i < |rs| && 0 <= j < |rs[i]| ==>
      2.0 * Abs(rs[i][j].x) <= MaxDimension(rs) && 2.0 * Abs(rs[i][j].y) <= MaxDimension(rs)
  {
    MaxExtentBounds(rs);
  }

  lemma MaxExtentBounds(rs: seq<seq<Point>>)
    requires HasNonzeroCoordinate(rs)
    ensures |Flatten(rs)| > 0
    ensures MaxOf(Extents(Flatten(rs))) > 0.0
    ensures forall i, j :: 0 <= i < |rs| && 0 <= j < |rs[i]| ==> Extent(rs[i][j]) <= MaxOf(Extents(Flatten(rs)))
  {
    var vs := Flatten(rs);
    var es := Extents(vs);
    var i, j :| 0 <= i < |rs| && 0 <= j < |rs[i]| && (rs[i][j].x != 0.0 || rs[i][j].y != 0.0);
    assert rs[i][j] in vs;
    var k :| 0 <= k < |vs| && vs[k] == rs[i][j];
    assert es[k] > 0.0;
    forall i, j | 0 <= i < |rs| && 0 <= j < |rs[i]|
      ensures Extent(rs[i][j]) <= MaxOf(es)
    {
      assert rs[i][j] in vs;
      var k :| 0 <= k < |vs| && vs[k] == rs[i][j];
      assert es[k] == Extent(rs[i][j]);
    }
  }

  function MinSide(w: nat, h: nat): (m: nat)
    ensures m <= w && m <= h && (m == w || m == h)
  {
    if h < w then h else w
  }

  lemma DivNonnegative(a: real, b: real)
    requires a >= 0.0 && b > 0.0
    ensures a / b >= 0.0
  {
  }

  /** `scale = min(canvas_size) / max_dimension`: the factor that makes
      the maximum dimension as long as the shorter canvas side. */
  function Scale(maxDimension: real, w: nat, h: nat): (s: real)
    requires maxDimension > 0.0
    ensures s >= 0.0
    ensures s * maxDimension == MinSide(w, h) as real
  {
    DivMul(MinSide(w, h) as real, maxDimension);
    DivNonnegative(MinSide(w, h) as real, maxDimension);
    MinSide(w, h) as real / maxDimension
  }

  /** The contract of `Scale` as facts at hand, so that callers need not
      reason about the division in its body. */
  lemma ScaleFacts(md: real, w: nat, h: nat)
    requires md > 0.0
    ensures Scale(md, w, h) >= 0.0 && Scale(md, w, h) * md == MinSide(w, h) as real
  {
  }

  /** A vertex scaled by `s` about the origin and moved to the centre of a
      `w` by `h` canvas. */
  function ScalePoint(v: Point, s: real, w: nat, h: nat): Point
  {
    Point(v.x * s + w as real / 2.0, v.y * s + h as real / 2.0)
  }

  /** A coordinate lies within `m / 2` of the middle of a canvas side of
      length `side`, and on the side. */
  ghost predicate WithinSide(c: real, side: nat, m: nat)
  {
    side as real / 2.0 - m as real / 2.0 <= c <= side as real / 2.0 + m as real / 2.0 && 0.0 <= c <= side as real
  }

  ghost predicate WithinCanvas(p: Point, w: nat, h: nat)
  {
    WithinSide(p.x, w, MinSide(w, h)) && WithinSide(p.y, h, MinSide(w, h))
  }

  /** A coordinate of magnitude at most half the maximum dimension lands
      within half the shorter canvas side of the centre. */
  lemma ScaledCoordinateBound(a: real, s: real, md: real, m: real)
    requires md > 0.0 && s >= 0.0 && s * md == m
    requires 2.0 * Abs(a) <= md
    ensures -m / 2.0 <= a * s <= m / 2.0
  {
    assert 2.0 * Abs(a) * s <= md * s;
    if a >= 0.0 {
      assert 2.0 * (a * s) <= m;
    } else {
      assert 2.0 * (-a * s) <= m;
    }
  }

  /** A vertex within half the maximum dimension of the origin, scaled by
      `Scale` and centred, lands on the canvas inside the centred square
      whose side is the shorter canvas side. */
  lemma ScalePointWithinCanvas(v: Point, md: real, w: nat, h: nat)
    requires md > 0.0
    requires 2.0 * Abs(v.x) <= md && 2.0 * Abs(v.y) <= md
    ensures WithinCanvas(ScalePoint(v, Scale(md, w, h), w, h), w, h)
  {
    ScaleFacts(md, w, h);
    ScaledPointWithinCanvas(v, md, Scale(md, w, h), w, h);
  }

  /** The same for any scale that maps the maximum dimension onto the
      shorter canvas side. */
  lemma ScaledPointWithinCanvas(v: Point, md: real, s: real, w: nat, h: nat)
    requires md > 0.0 && s >= 0.0 && s * md == MinSide(w, h) as real
    requires 2.0 * Abs(v.x) <= md && 2.0 * Abs(v.y) <= md
    ensures WithinCanvas(ScalePoint(v, s, w, h), w, h)
  {
    var m := MinSide(w, h);
    CoordinateWithinCanvas(v.x, s, md, w, m);
    CoordinateWithinCanvas(v.y, s, md, h, m);
  }

  /** One coordinate of a vertex, scaled and moved to the middle of a side
      no shorter than `m`, lands on that side within `m / 2` of its middle. */
  lemma CoordinateWithinCanvas(a: real, s: real, md: real, side: nat, m: nat)
    requires md > 0.0 && s >= 0.0 && s * md == m as real
    requires 2.0 * Abs(a) <= md && m <= side
    ensures WithinSide(a * s + side as real / 2.0, side, m)
  {
    ScaledCoordinateBound(a, s, md, m as real);
    ShiftedWithinSide(a * s, side, m);
  }

  /** An offset of at most `m / 2` from the middle of a side no shorter
      than `m` stays on the side. */
  lemma ShiftedWithinSide(c: real, side: nat, m: nat)
    requires -(m as real) / 2.0 <= c <= m as real / 2.0 && m <= side
    ensures WithinSide(c + side as real / 2.0, side, m)
  {
  }

  /** `normalize_and_scale_tiles(rhombi, canvas_size)`: every vertex scaled
      by the same factor and centred, tile order and vertex order kept.
      Each coordinate ends within half the shorter canvas side of the
      centre, hence inside the canvas. */
  method NormalizeAndScaleTiles(rhombi: seq<seq<Point>>, canvasSize: (nat, nat)) returns (scaled: seq<seq<Point>>)
    requires HasNonzeroCoordinate(rhombi)
    ensures |scaled| == |rhombi|
    ensures forall i :: 0 <= i < |rhombi| ==> |scaled[i]| == |rhombi[i]|
    ensures forall i, j :: 0 <= i < |rhombi| && 0 <= j < |rhombi[i]| ==>
      scaled[i][j] == ScalePoint(rhombi[i][j], Scale(MaxDimension(rhombi), canvasSize.0, canvasSize.1), canvasSize.0, canvasSize.1)
    ensures forall i, j :: 0 <= i < |rhombi| && 0 <= j < |rhombi[i]| ==> WithinCanvas(scaled[i][j], canvasSize.0, canvasSize.1)
  {
    var (w, h) := canvasSize;
    var maxDimension := MaxDimension(rhombi);
    var scale := Scale(maxDimension, w, h);
    scaled := [];
    var i := 0;
    while i < |rhombi|
      invariant 0 <= i <= |rhombi|
      invariant |scaled| == i
      invariant forall k :: 0 <= k < i ==> |scaled[k]| == |rhombi[k]|
      invariant forall k, j :: 0 <= k < i && 0 <= j < |rhombi[k]| ==> scaled[k][j] == ScalePoint(rhombi[k][j], scale, w, h)
    {
      var rhombus := rhombi[i];
      var scaledRhombus := seq(|rhombus|, j requires 0 <= j < |rhombus| => ScalePoint(rhombus[j], scale, w, h));
      scaled := scaled + [scaledRhombus];
      i := i + 1;
    }
    ScaledTilesWithinCanvas(rhombi, scaled, w, h);
  }

  lemma ScaledTilesWithinCanvas(rhombi: seq<seq<Point>>, scaled: seq<seq<Point>>, w: nat, h: nat)
    requires HasNonzeroCoordinate(rhombi)
    requires |scaled| == |rhombi| && forall i :: 0 <= i < |rhombi| ==> |scaled[i]| == |rhombi[i]|
    requires forall i, j :: 0 <= i < |rhombi| && 0 <= j < |rhombi[i]| ==>
      scaled[i][j] == ScalePoint(rhombi[i][j], Scale(MaxDimension(rhombi), w, h), w, h)
    ensures forall i, j :: 0 <= i < |rhombi| && 0 <= j < |rhombi[i]| ==> WithinCanvas(scaled[i][j], w, h)
  {
    MaxDimensionBounds(rhombi);
    forall i, j | 0 <= i < |rhombi| && 0 <= j < |rhombi[i]|
      ensures WithinCanvas(scaled[i][j], w, h)
    {
      ScalePointWithinCanvas(rhombi[i][j], MaxDimension(rhombi), w, h);
    }
  }

  /** Scaling is uniform: the vector between two scaled vertices is the
      original vector times the scale, so tile shapes are kept. */
  lemma ScalePointKeepsShape(a: Point, b: Point, s: real, w: nat, h: nat)
    ensures Sub(ScalePoint(a, s, w, h), ScalePoint(b, s, w, h)) == Point((a.x - b.x) * s, (a.y - b.y) * s)
  {
    assert (a.x - b.x) * s == a.x * s - b.x * s;
    assert (a.y - b.y) * s == a.y * s - b.y * s;
  }
}
