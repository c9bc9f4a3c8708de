/** Closed rectilinear polygons, and what removing a collinear point preserves. */
module OutlinePolygon {
  import opened OutlineGeometry

  function PathSum(s: seq<Point>, w: Weight): int {
    if |s| < 2 then 0 else PathSum(s[..|s| - 1], w) + w(s[|s| - 2], s[|s| - 1])
  }

  // The weight summed over all segments of the closed polygon s.
  function PolygonSum(s: seq<Point>, w: Weight): int {
    if s == [] then 0 else PathSum(s, w) + w(s[|s| - 1], s[0])
  }

  // Cyclic indices; s[-1] is the last point.
  function Prev(n: nat, i: nat): nat
    requires i < n
  {
    if i == 0 then n - 1 else i - 1
  }

  function Next(n: nat, i: nat): nat
    requires i < n
  {
    if i == n - 1 then 0 else i + 1
  }

  function Before(s: seq<Point>, i: nat): Point
    requires i < |s|
  {
    s[Prev(|s|, i)]
  }

  function After(s: seq<Point>, i: nat): Point
    requires i < |s|
  {
    s[Next(|s|, i)]
  }

  predicate Collinear(p: Point, q: Point, r: Point) { p.x == q.x == r.x || p.y == q.y == r.y }

  predicate Between(p: Point, q: Point, r: Point) {
    || (p.x == q.x == r.x && (p.y < q.y < r.y || p.y > q.y > r.y))
    || (p.y == q.y == r.y && (p.x < q.x < r.x || p.x > q.x > r.x))
  }

  predicate AxisParallel(p: Point, q: Point) { p != q && (p.x == q.x || p.y == q.y) }

  // The segment after s[i] is axis-parallel, and does not run back over the one before it.
  predicate NoReversalAt(s: seq<Point>, i: nat)
    requires i < |s|
  {
    && AxisParallel(s[i], After(s, i))
    && (Collinear(Before(s, i), s[i], After(s, i)) ==> Between(Before(s, i), s[i], After(s, i)))
  }

  ghost predicate Rectilinear(s: seq<Point>) {
    forall i :: 0 <= i < |s| ==> NoReversalAt(s, i)
  }

  predicate CornerAt(s: seq<Point>, i: nat)
    requires i < |s|
  {
    !Collinear(Before(s, i), s[i], After(s, i))
  }

  predicate AllCorners(s: seq<Point>) {
    forall i :: 0 <= i < |s| ==> CornerAt(s, i)
  }

  // Splitting a segment at an inner point splits its weight.
  ghost predicate Additive(w: Weight) {
    forall p, q, r :: Between(p, q, r) ==> w(p, r) == w(p, q) + w(q, r)
  }

  ghost predicate SameTrace(s: seq<Point>, t: seq<Point>) {
    forall w: Weight :: Additive(w) ==> PolygonSum(s, w) == PolygonSum(t, w)
  }

  lemma {:induction false} PathSumConcat(s: seq<Point>, t: seq<Point>, w: Weight)
    requires s != [] && t != []
    ensures PathSum(s + t, w) == PathSum(s, w) + w(s[|s| - 1], t[0]) + PathSum(t, w)
    decreases |t|
  {
    if |t| == 1 {
      assert (s + t)[..|s + t| - 1] == s;
    } else {
      PathSumConcat(s, t[..|t| - 1], w);
      assert (s + t)[..|s + t| - 1] == s + t[..|t| - 1];
    }
  }

  function Without(s: seq<Point>, i: nat): seq<Point>
    requires i < |s|
  {
    s[..i] + s[i + 1..]
  }

  lemma PathOfOne(p: Point, w: Weight)
    ensures PathSum([p], w) == 0
  {}

  lemma PolygonSumSplit(a: seq<Point>, p: Point, b: seq<Point>, w: Weight)
    requires a != [] && b != []
    ensures PolygonSum(a + [p] + b, w) ==
            PathSum(a, w) + w(a[|a| - 1], p) + w(p, b[0]) + PathSum(b, w) + w(b[|b| - 1], a[0])
    ensures PolygonSum(a + b, w) == PathSum(a, w) + w(a[|a| - 1], b[0]) + PathSum(b, w) + w(b[|b| - 1], a[0])
  {
    PathSumConcat(a, b, w);
    PathSumConcat(a + [p], b, w);
    PathSumConcat(a, [p], w);
    hide PathSum;
    var s, t := a + [p] + b, a + b;
    assert s[0] == a[0] && s[|s| - 1] == b[|b| - 1] && (a + [p])[|a|] == p;
    assert t[0] == a[0] && t[|t| - 1] == b[|b| - 1];
    PathOfOne(p, w);
  }

  lemma PolygonSumEnds(a: seq<Point>, p: Point, w: Weight)
    requires a != []
    ensures PolygonSum(a + [p], w) == PathSum(a, w) + w(a[|a| - 1], p) + w(p, a[0])
    ensures PolygonSum([p] + a, w) == w(p, a[0]) + PathSum(a, w) + w(a[|a| - 1], p)
  {
    PathSumConcat(a, [p], w);
    PathSumConcat([p], a, w);
  }

  lemma WithoutKeepsSum(s: seq<Point>, i: nat, w: Weight)
    requires i < |s| && |s| >= 3
    requires Between(Before(s, i), s[i], After(s, i)) && Additive(w)
    ensures PolygonSum(Without(s, i), w) == PolygonSum(s, w)
  {
    hide PathSum, PolygonSum, Additive;
    var a, b := s[..i], s[i + 1..];
    AdditiveAt(w, Before(s, i), s[i], After(s, i));
    if a != [] && b != [] {
      PolygonSumSplit(a, s[i], b, w);
      assert s == a + [s[i]] + b;
    } else if a != [] {
      PolygonSumEnds(a, s[i], w);
      PolygonSumWhole(a, w);
      assert s == a + [s[i]] && Without(s, i) == a;
    } else {
      PolygonSumEnds(b, s[i], w);
      PolygonSumWhole(b, w);
      assert s == [s[i]] + b && Without(s, i) == b;
    }
  }

  lemma AdditiveAt(w: Weight, p: Point, q: Point, r: Point)
    requires Additive(w) && Between(p, q, r)
    ensures w(p, r) == w(p, q) + w(q, r)
  {}

  lemma PolygonSumWhole(s: seq<Point>, w: Weight)
    requires s != []
    ensures PolygonSum(s, w) == PathSum(s, w) + w(s[|s| - 1], s[0])
  {}

  lemma WithoutNeighbors(s: seq<Point>, i: nat, j: nat) returns (k: nat)
    requires i < |s| && |s| >= 3 && j < |s| - 1
    ensures k < |s| && k != i && Without(s, i)[j] == s[k]
    ensures After(Without(s, i), j) == if Next(|s|, k) == i then After(s, i) else After(s, k)
    ensures Before(Without(s, i), j) == if Prev(|s|, k) == i then Before(s, i) else Before(s, k)
    ensures Next(|s|, k) == i ==> s[k] == Before(s, i)
    ensures Prev(|s|, k) == i ==> s[k] == After(s, i)
  {
    k := if j < i then j else j + 1;
  }

  lemma WithoutStaysRectilinear(s: seq<Point>, i: nat)
    requires i < |s| && |s| >= 4 && Rectilinear(s) && !CornerAt(s, i)
    ensures Rectilinear(Without(s, i))
  {
    var t := Without(s, i);
    assert NoReversalAt(s, i);
    forall j | 0 <= j < |t| ensures NoReversalAt(t, j) {
      var k := WithoutNeighbors(s, i, j);
      assert NoReversalAt(s, k);
      assert NoReversalAt(s, Next(|s|, k));
      assert AxisParallel(Before(s, k), s[k]) by { assert NoReversalAt(s, Prev(|s|, k)); }
    }
  }

  // A closed polygon that never runs back over itself has at least four points.
  lemma AtLeastFourPoints(s: seq<Point>)
    requires Rectilinear(s) && s != []
    ensures |s| >= 4
  {
    assert NoReversalAt(s, 0);
    assert |s| > 1 ==> NoReversalAt(s, 1);
    assert |s| > 2 ==> NoReversalAt(s, 2);
  }

  lemma DropPoint(contour: seq<Point>, s: seq<Point>, i: nat)
    requires i < |s| && |s| >= 4 && Rectilinear(s) && !CornerAt(s, i) && SameTrace(contour, s)
    ensures |Without(s, i)| >= 4 && Rectilinear(Without(s, i)) && SameTrace(contour, Without(s, i))
  {
    WithoutStaysRectilinear(s, i);
    AtLeastFourPoints(Without(s, i));
    assert NoReversalAt(s, i);
    forall w: Weight | Additive(w)
      ensures PolygonSum(contour, w) == PolygonSum(Without(s, i), w)
    {
      WithoutKeepsSum(s, i, w);
    }
  }

  // The first point is less than all the others.
  predicate LeastFirst(s: seq<Point>) { s != [] && forall j :: 1 <= j < |s| ==> PointLess(s[0], s[j]) }

  // The least point of a polygon is a corner: a point between its neighbours is not the least.
  lemma LeastIsCorner(s: seq<Point>)
    requires LeastFirst(s) && Rectilinear(s) && |s| >= 4
    ensures CornerAt(s, 0)
  {
    assert NoReversalAt(s, 0);
  }

  lemma LeastStaysFirst(s: seq<Point>, i: nat)
    requires LeastFirst(s) && 0 < i < |s|
    ensures LeastFirst(Without(s, i)) && Without(s, i)[0] == s[0]
  {}

  /** Drops collinear points until only corners are left. */
  method Simplify(contour: seq<Point>) returns (simplified: seq<Point>)
    requires contour != [] && Rectilinear(contour)
    ensures |simplified| >= 4 && Rectilinear(simplified) && AllCorners(simplified)
    ensures SameTrace(contour, simplified)
    ensures forall p :: p in simplified ==> p in contour
    ensures LeastFirst(contour) ==> LeastFirst(simplified) && simplified[0] == contour[0]
  {
    simplified := contour;
    var changed := true;
    AtLeastFourPoints(contour);
    while changed && |simplified| > 3
      invariant |simplified| >= 4 && Rectilinear(simplified)
      invariant SameTrace(contour, simplified)
      invariant forall p :: p in simplified ==> p in contour
      invariant LeastFirst(contour) ==> LeastFirst(simplified) && simplified[0] == contour[0]
      invariant !changed ==> AllCorners(simplified)
      decreases |simplified|, changed
    {
      changed := false;
      for index := 0 to |simplified|
        invariant forall i :: 0 <= i < index ==> CornerAt(simplified, i)
      {
        if Collinear(Before(simplified, index), simplified[index], After(simplified, index)) {
          DropPoint(contour, simplified, index);
          if LeastFirst(contour) {
            LeastIsCorner(simplified);
            LeastStaysFirst(simplified, index);
          }
          simplified := Without(simplified, index);
          changed := true;
          break;
        }
      }
    }
  }
}
