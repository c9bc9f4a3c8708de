/** Walks along exposed edges: why they close, and what the contours they leave behind enclose. */
module OutlineWalks {
  import opened FiniteSums
  import opened OutlineGeometry
  import opened OutlinePolygon

  // ----- Walks along the boundary -----

  ghost function EdgeSet(es: seq<Edge>): set<Edge> { set e | e in es }

  function Starts(es: seq<Edge>): seq<Point> { seq(|es|, i requires 0 <= i < |es| => es[i].start) }

  ghost predicate NoDuplicates(es: seq<Edge>) {
    forall i, j :: 0 <= i < j < |es| ==> es[i] != es[j]
  }

  // Distinct exposed edges, each the leftmost continuation of the one before it.
  ghost predicate IsWalk(cells: set<Point>, es: seq<Edge>) {
    && es != []
    && NoDuplicates(es)
    && (forall i :: 0 <= i < |es| ==> IsExposed(cells, es[i]))
    && (forall i :: 0 <= i < |es| - 1 ==> es[i + 1] == Succ(cells, es[i]))
  }

  ghost predicate IsCycle(cells: set<Point>, es: seq<Edge>) {
    IsWalk(cells, es) && Succ(cells, es[|es| - 1]) == es[0]
  }

  // An edge set from which only whole cycles of Succ have been taken away.
  ghost predicate IsClosed(cells: set<Point>, unused: set<Edge>) {
    forall e :: IsExposed(cells, e) ==> (e in unused <==> Succ(cells, e) in unused)
  }

  ghost predicate AllExposed(cells: set<Point>, unused: set<Edge>) {
    forall e :: e in unused ==> IsExposed(cells, e)
  }

  ghost predicate IsLeast(e: Edge, edges: set<Edge>) {
    e in edges && forall d :: d in edges && d != e ==> EdgeLess(e, d)
  }

  lemma ClosedStep(cells: set<Point>, unused: set<Edge>, e: Edge)
    requires AllExposed(cells, unused) && IsClosed(cells, unused) && e in unused
    ensures IsExposed(cells, e)
    ensures Succ(cells, e) in unused && Succ(cells, e).start == e.end
  {
    SuccExposed(cells, e);
  }

  lemma LeastStart(unused: set<Edge>, first: Edge, e: Edge)
    requires IsLeast(first, unused) && e in unused
    ensures !PointLess(e.start, first.start)
  {}

  // Starting from the least unused edge, no other unused edge leaves the same vertex.
  lemma LeastLeavesAlone(cells: set<Point>, unused: set<Edge>, first: Edge, e: Edge)
    requires AllExposed(cells, unused) && IsClosed(cells, unused)
    requires IsLeast(first, unused) && e in unused && e.start == first.start
    ensures e == first
  {
    ClosedStep(cells, unused, e);
    ClosedStep(cells, unused, first);
    LeastStart(unused, first, Succ(cells, e));
    LeastStart(unused, first, Succ(cells, first));
    if e != first {
      TwoWaysOut(cells, e, first);
      assert false;
    }
  }

  // Until it is back, a walk never meets one of its own edges.
  lemma NextIsNew(cells: set<Point>, es: seq<Edge>)
    requires IsWalk(cells, es) && es[|es| - 1].end != es[0].start
    ensures Succ(cells, es[|es| - 1]) !in es
  {
    var last := es[|es| - 1];
    var next := Succ(cells, last);
    SuccExposed(cells, last);
    hide Succ, IsExposed;
    if next in es {
      var j :| 0 <= j < |es| && es[j] == next;
      assert j > 0;
      SuccInjective(cells, es[j - 1], last);
      assert false;
    }
  }

  lemma WalkLengthened(cells: set<Point>, es: seq<Edge>)
    requires IsWalk(cells, es) && Succ(cells, es[|es| - 1]) !in es
    ensures IsWalk(cells, es + [Succ(cells, es[|es| - 1])])
  {
    SuccExposed(cells, es[|es| - 1]);
    hide Succ, IsExposed;
  }

  // A walk that has not come back to its first vertex can go on: the leftmost
  // continuation is still unused.
  lemma WalkGoesOn(cells: set<Point>, unused: set<Edge>, es: seq<Edge>)
    requires IsWalk(cells, es) && IsClosed(cells, unused) && EdgeSet(es) <= unused
    requires es[|es| - 1].end != es[0].start
    ensures var next := Succ(cells, es[|es| - 1]);
            next in unused && next !in es && IsWalk(cells, es + [next])
  {
    hide Succ, IsExposed;
    assert es[|es| - 1] in EdgeSet(es);
    NextIsNew(cells, es);
    WalkLengthened(cells, es);
  }

  // A walk that comes back to the vertex it started from has closed its cycle.
  lemma WalkCloses(cells: set<Point>, unused: set<Edge>, es: seq<Edge>)
    requires AllExposed(cells, unused) && IsClosed(cells, unused)
    requires IsWalk(cells, es) && EdgeSet(es) <= unused && IsLeast(es[0], unused)
    requires es[|es| - 1].end == es[0].start
    ensures IsCycle(cells, es)
  {
    var last := es[|es| - 1];
    assert last in EdgeSet(es);
    SuccExposed(cells, last);
    LeastLeavesAlone(cells, unused, es[0], Succ(cells, last));
  }

  lemma CycleMembers(cells: set<Point>, es: seq<Edge>, e: Edge)
    requires IsCycle(cells, es) && IsExposed(cells, e)
    ensures e in es <==> Succ(cells, e) in es
  {
    if Succ(cells, e) in es {
      var j :| 0 <= j < |es| && es[j] == Succ(cells, e);
      SuccInjective(cells, e, if j == 0 then es[|es| - 1] else es[j - 1]);
    }
    if e in es {
      var j :| 0 <= j < |es| && es[j] == e;
      assert Succ(cells, e) == if j == |es| - 1 then es[0] else es[j + 1];
    }
  }

  lemma CycleRemoved(cells: set<Point>, unused: set<Edge>, es: seq<Edge>)
    requires IsClosed(cells, unused) && IsCycle(cells, es)
    ensures IsClosed(cells, unused - EdgeSet(es))
  {
    forall e | IsExposed(cells, e)
      ensures e in unused - EdgeSet(es) <==> Succ(cells, e) in unused - EdgeSet(es)
    {
      CycleMembers(cells, es, e);
    }
  }

  lemma CycleStep(cells: set<Point>, es: seq<Edge>, i: nat)
    requires IsCycle(cells, es) && i < |es|
    ensures Succ(cells, es[i]) == es[Next(|es|, i)]
    ensures es[i].end == es[Next(|es|, i)].start == After(Starts(es), i)
  {
    SuccExposed(cells, es[i]);
  }

  // No edge is exposed in both directions.
  lemma NoReversalBetween(cells: set<Point>, d: Edge, e: Edge)
    requires IsExposed(cells, d) && IsExposed(cells, e) && d.end == e.start
    ensures AxisParallel(e.start, e.end)
    ensures Collinear(d.start, e.start, e.end) ==> Between(d.start, e.start, e.end)
  {}

  lemma CycleIsRectilinear(cells: set<Point>, es: seq<Edge>)
    requires IsCycle(cells, es)
    ensures Rectilinear(Starts(es))
    ensures forall i :: 0 <= i < |es| ==> es[i].end == After(Starts(es), i)
  {
    var s := Starts(es);
    forall i | 0 <= i < |es| ensures es[i].end == After(s, i) {
      CycleStep(cells, es, i);
    }
    forall i | 0 <= i < |es| ensures NoReversalAt(s, i) {
      CycleStep(cells, es, i);
      CycleStep(cells, es, Prev(|es|, i));
      NoReversalBetween(cells, es[Prev(|es|, i)], es[i]);
    }
  }

  // ----- The partition of the exposed edges into cycles -----

  ghost predicate Partitions(cells: set<Point>, walks: seq<seq<Edge>>, edges: set<Edge>) {
    if walks == [] then edges == {} else
    var es := walks[|walks| - 1];
    IsCycle(cells, es) && EdgeSet(es) <= edges && Partitions(cells, walks[..|walks| - 1], edges - EdgeSet(es))
  }

  ghost predicate IsCornerPolygon(s: seq<Point>) {
    |s| >= 4 && Rectilinear(s) && AllCorners(s)
  }

  // The contours are the walks' vertices with the collinear ones removed.
  ghost predicate Outlines(walks: seq<seq<Edge>>, contours: seq<seq<Point>>) {
    && |walks| == |contours|
    && (forall i :: 0 <= i < |walks| ==> SameTrace(Starts(walks[i]), contours[i]))
    && (forall i :: 0 <= i < |walks| ==> IsCornerPolygon(contours[i]))
  }

  // ----- Weights summed over an outline -----

  ghost function TotalSum(contours: seq<seq<Point>>, w: Weight): int {
    if contours == [] then 0 else
    TotalSum(contours[..|contours| - 1], w) + PolygonSum(contours[|contours| - 1], w)
  }

  lemma EdgeSetOfLast(es: seq<Edge>)
    requires es != [] && NoDuplicates(es)
    ensures var shorter, last := es[..|es| - 1], es[|es| - 1];
            last !in EdgeSet(shorter) && EdgeSet(es) == EdgeSet(shorter) + {last} && NoDuplicates(shorter)
    ensures Starts(es) == Starts(es[..|es| - 1]) + [es[|es| - 1].start]
  {}

  lemma {:induction false} WalkPathSum(es: seq<Edge>, w: Weight)
    requires es != [] && NoDuplicates(es)
    requires forall i :: 0 <= i < |es| - 1 ==> es[i].end == es[i + 1].start
    ensures PathSum(Starts(es), w) + w(es[|es| - 1].start, es[|es| - 1].end) == Sum(EdgeSet(es), EdgeWeight(w))
    decreases |es|
  {
    var shorter, last := es[..|es| - 1], es[|es| - 1];
    EdgeSetOfLast(es);
    SumAdd(EdgeSet(shorter), EdgeWeight(w), last);
    if shorter != [] {
      WalkPathSum(shorter, w);
      assert es[|es| - 2].end == es[|es| - 2 + 1].start;
      assert Starts(es)[..|es| - 1] == Starts(shorter);
    } else {
      assert EdgeSet(shorter) == {};
    }
  }

  lemma CycleSum(cells: set<Point>, es: seq<Edge>, w: Weight)
    requires IsCycle(cells, es)
    ensures PolygonSum(Starts(es), w) == Sum(EdgeSet(es), EdgeWeight(w))
  {
    forall i | 0 <= i < |es| ensures es[i].end == es[Next(|es|, i)].start {
      CycleStep(cells, es, i);
    }
    forall i | 0 <= i < |es| - 1 ensures es[i].end == es[i + 1].start {
      assert es[i].end == es[Next(|es|, i)].start;
    }
    WalkPathSum(es, w);
  }

  lemma {:induction false} SumSubset(s: set<Edge>, t: set<Edge>, f: Edge -> int)
    requires s <= t
    ensures Sum(t, f) == Sum(s, f) + Sum(t - s, f)
    decreases |s|
  {
    if s == {} {
      assert t - s == t;
    } else {
      var x :| x in s;
      SumSubset(s - {x}, t - {x}, f);
      SumSplit(s, f, x);
      SumSplit(t, f, x);
      assert t - {x} - (s - {x}) == t - s;
    }
  }

  // An outline sums an additive weight over the edges it was partitioned into.
  lemma {:induction false} OutlineSum(cells: set<Point>, walks: seq<seq<Edge>>, contours: seq<seq<Point>>, edges: set<Edge>, w: Weight)
    requires Partitions(cells, walks, edges) && Outlines(walks, contours) && Additive(w)
    ensures TotalSum(contours, w) == Sum(edges, EdgeWeight(w))
    decreases |walks|
  {
    if walks != [] {
      var n := |walks| - 1;
      OutlineSum(cells, walks[..n], contours[..n], edges - EdgeSet(walks[n]), w);
      CycleSum(cells, walks[n], w);
      SumSubset(EdgeSet(walks[n]), edges, EdgeWeight(w));
    }
  }

  // ----- Winding number -----

  // Signed crossings of a segment with the ray going right from the centre of pixel c.
  ghost function Crossing(c: Point): Weight {
    (p: Point, q: Point) =>
      if p.x != q.x || p.x <= c.x then 0
      else if p.y <= c.y < q.y then 1
      else if q.y <= c.y < p.y then -1
      else 0
  }

  ghost function Winding(contours: seq<seq<Point>>, c: Point): int { TotalSum(contours, Crossing(c)) }

  lemma CrossingProperties(c: Point)
    ensures Additive(Crossing(c)) && Antisymmetric(Crossing(c))
  {}

  lemma CrossingAround(c: Point, d: Point)
    ensures Around(Crossing(c))(d) == if d == c then 1 else 0
  {
    var f := EdgeWeight(Crossing(c));
    assert f(Side(d, 0)) == f(Side(d, 2)) == 0;
    assert f(Side(d, 1)) == if c.x <= d.x && c.y == d.y then 1 else 0;
    assert f(Side(d, 3)) == if c.x < d.x && c.y == d.y then -1 else 0;
  }

  // The outline is exactly the union of the pixels.
  lemma WindingIsMembership(cells: set<Point>, walks: seq<seq<Edge>>, contours: seq<seq<Point>>, c: Point)
    requires Partitions(cells, walks, Exposed(cells)) && Outlines(walks, contours)
    ensures Winding(contours, c) == if c in cells then 1 else 0
  {
    CrossingProperties(c);
    OutlineSum(cells, walks, contours, Exposed(cells), Crossing(c));
    Green(cells, Crossing(c));
    forall d ensures Around(Crossing(c))(d) == if d == c then 1 else 0 { CrossingAround(c, d); }
    SumIndicator(cells, Around(Crossing(c)), c);
  }

  // ----- Area -----

  ghost function Shoelace(): Weight { (p: Point, q: Point) => p.x * q.y - q.x * p.y }

  ghost function TwiceArea(contours: seq<seq<Point>>): int { TotalSum(contours, Shoelace()) }

  lemma ShoelaceAdditive()
    ensures Additive(Shoelace()) && Antisymmetric(Shoelace())
  {
    var w := Shoelace();
    forall p, q, r | Between(p, q, r) ensures w(p, r) == w(p, q) + w(q, r) {
      if p.x == q.x == r.x {
        assert p.x * r.y - p.x * p.y == (p.x * q.y - p.x * p.y) + (p.x * r.y - p.x * q.y);
      } else {
        assert p.x * p.y - r.x * p.y == (p.x * p.y - q.x * p.y) + (q.x * p.y - r.x * p.y);
      }
    }
  }

  lemma ShoelaceAround(c: Point)
    ensures Around(Shoelace())(c) == 2
  {
    var x, y := c.x, c.y;
    var f := EdgeWeight(Shoelace());
    assert f(Side(c, 0)) == x * y - (x + 1) * y == -y;
    assert f(Side(c, 1)) == (x + 1) * (y + 1) - (x + 1) * y == x + 1;
    assert f(Side(c, 2)) == (x + 1) * (y + 1) - x * (y + 1) == y + 1;
    assert f(Side(c, 3)) == x * y - x * (y + 1) == -x;
  }

  lemma AreaIsPixelCount(cells: set<Point>, walks: seq<seq<Edge>>, contours: seq<seq<Point>>)
    requires Partitions(cells, walks, Exposed(cells)) && Outlines(walks, contours)
    ensures TwiceArea(contours) == 2 * |cells|
  {
    ShoelaceAdditive();
    OutlineSum(cells, walks, contours, Exposed(cells), Shoelace());
    Green(cells, Shoelace());
    forall c | c in cells ensures Around(Shoelace())(c) == 2 { ShoelaceAround(c); }
    SumConstant(cells, Around(Shoelace()), 2);
  }

  // ----- Traced edges -----

  // Unit edge e lies on the segment from p to q and points the same way.
  predicate Covers(p: Point, q: Point, e: Edge) {
    || (p.x == q.x == e.start.x == e.end.x
        && (p.y <= e.start.y == e.end.y - 1 < q.y || q.y < e.start.y == e.end.y + 1 <= p.y))
    || (p.y == q.y == e.start.y == e.end.y
        && (p.x <= e.start.x == e.end.x - 1 < q.x || q.x < e.start.x == e.end.x + 1 <= p.x))
  }

  ghost function Coverage(e: Edge): Weight {
    (p: Point, q: Point) => if Covers(p, q, e) then 1 else 0
  }

  ghost function TimesTraced(contours: seq<seq<Point>>, e: Edge): int { TotalSum(contours, Coverage(e)) }

  lemma CoverageOfEdge(d: Edge, e: Edge)
    requires IsUnit(d)
    ensures EdgeWeight(Coverage(e))(d) == if d == e then 1 else 0
  {}

  lemma CoverageSum(cells: set<Point>, edges: set<Edge>, e: Edge)
    requires forall d :: d in edges ==> IsUnit(d)
    ensures Sum(edges, EdgeWeight(Coverage(e))) == if e in edges then 1 else 0
  {
    var f := EdgeWeight(Coverage(e));
    forall d | d in edges ensures f(d) == if d == e then 1 else 0 { CoverageOfEdge(d, e); }
    if e in edges {
      SumIndicator(edges, f, e);
    } else {
      SumConstant(edges, f, 0);
    }
  }

  // The outline traces every exposed edge once, ink on the left, and nothing else.
  lemma TracedOnce(cells: set<Point>, walks: seq<seq<Edge>>, contours: seq<seq<Point>>, e: Edge)
    requires Partitions(cells, walks, Exposed(cells)) && Outlines(walks, contours)
    ensures TimesTraced(contours, e) == if e in Exposed(cells) then 1 else 0
  {
    OutlineSum(cells, walks, contours, Exposed(cells), Coverage(e));
    forall d | d in Exposed(cells) ensures IsUnit(d) { ExposedIff(cells, d); }
    CoverageSum(cells, Exposed(cells), e);
  }

  // ----- One component to a contour -----

  ghost predicate Traces(s: seq<Point>, e: Edge) {
    exists i :: 0 <= i < |s| && Covers(s[i], After(s, i), e)
  }

  // All ink that a contour borders is four-connected.
  ghost predicate BordersOneComponent(cells: set<Point>, s: seq<Point>) {
    forall d, e :: Traces(s, d) && Traces(s, e) ==>
      LeftCell(d) in cells && LeftCell(e) in cells && Connected(cells, LeftCell(d), LeftCell(e))
  }

  lemma {:induction false} PathCoverage(s: seq<Point>, e: Edge)
    ensures PathSum(s, Coverage(e)) >= 0
    ensures (exists i :: 0 <= i < |s| - 1 && Covers(s[i], s[i + 1], e)) ==> PathSum(s, Coverage(e)) > 0
    decreases |s|
  {
    if |s| >= 2 {
      PathCoverage(s[..|s| - 1], e);
    }
  }

  lemma TracesCounted(s: seq<Point>, e: Edge)
    requires Traces(s, e)
    ensures PolygonSum(s, Coverage(e)) > 0
  {
    PathCoverage(s, e);
    var i :| 0 <= i < |s| && Covers(s[i], After(s, i), e);
  }

  // A contour traces only edges of the walk it came from.
  lemma TracedEdgeWalked(cells: set<Point>, es: seq<Edge>, s: seq<Point>, e: Edge)
    requires IsCycle(cells, es) && SameTrace(Starts(es), s) && Traces(s, e)
    ensures e in es
  {
    TracesCounted(s, e);
    CycleSum(cells, es, Coverage(e));
    CoverageSum(cells, EdgeSet(es), e);
  }

  lemma {:induction false} WalkConnected(cells: set<Point>, es: seq<Edge>, a: Point, i: nat, j: nat)
    requires IsWalk(cells, es) && i <= j < |es| && Connected(cells, a, LeftCell(es[i]))
    ensures Connected(cells, a, LeftCell(es[j]))
    decreases j - i
  {
    if i < j {
      SuccKeepsComponent(cells, a, es[i]);
      WalkConnected(cells, es, a, i + 1, j);
    }
  }

  lemma WalkBordersOneComponent(cells: set<Point>, es: seq<Edge>, i: nat, j: nat)
    requires IsCycle(cells, es) && i < |es| && j < |es|
    ensures Connected(cells, LeftCell(es[i]), LeftCell(es[j]))
  {
    var c := LeftCell(es[i]);
    ConnectedSelf(cells, es[i]);
    if i <= j {
      WalkConnected(cells, es, c, i, j);
    } else {
      WalkConnected(cells, es, c, i, |es| - 1);
      SuccKeepsComponent(cells, c, es[|es| - 1]);
      WalkConnected(cells, es, c, 0, j);
    }
  }

  lemma ConnectedSelf(cells: set<Point>, e: Edge)
    requires IsExposed(cells, e)
    ensures Connected(cells, LeftCell(e), LeftCell(e))
  {
    var path := [LeftCell(e)];
    assert IsInkPath(cells, path) && path[0] == LeftCell(e);
  }

  lemma {:induction false} PartOfPartition(cells: set<Point>, walks: seq<seq<Edge>>, edges: set<Edge>, i: nat)
    requires Partitions(cells, walks, edges) && i < |walks|
    ensures IsCycle(cells, walks[i])
    decreases |walks|
  {
    var n := |walks| - 1;
    if i < n {
      PartOfPartition(cells, walks[..n], edges - EdgeSet(walks[n]), i);
    }
  }

  lemma ContourBordersOneComponent(cells: set<Point>, walks: seq<seq<Edge>>, contours: seq<seq<Point>>, i: nat)
    requires Partitions(cells, walks, Exposed(cells)) && Outlines(walks, contours) && i < |walks|
    ensures BordersOneComponent(cells, contours[i])
  {
    var es, s := walks[i], contours[i];
    PartOfPartition(cells, walks, Exposed(cells), i);
    forall d, e | Traces(s, d) && Traces(s, e)
      ensures LeftCell(d) in cells && LeftCell(e) in cells && Connected(cells, LeftCell(d), LeftCell(e))
    {
      TracedEdgeWalked(cells, es, s, d);
      TracedEdgeWalked(cells, es, s, e);
      var j :| 0 <= j < |es| && es[j] == d;
      var k :| 0 <= k < |es| && es[k] == e;
      WalkBordersOneComponent(cells, es, j, k);
    }
  }
}
