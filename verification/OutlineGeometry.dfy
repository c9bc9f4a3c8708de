/** Pixels, unit edges and the leftmost-turn successor used by the bitmap outline tracer. */
module OutlineGeometry {
  import opened FiniteSums

  datatype Point = Point(x: int, y: int)
  datatype Edge = Edge(start: Point, end: Point)

  // ----- Exposed edges -----

  // The four sides of a pixel, counterclockwise, and the neighbour across each.
  function Side(c: Point, k: nat): Edge
    requires k < 4
  {
    match k
    case 0 => Edge(c, Point(c.x + 1, c.y))
    case 1 => Edge(Point(c.x + 1, c.y), Point(c.x + 1, c.y + 1))
    case 2 => Edge(Point(c.x + 1, c.y + 1), Point(c.x, c.y + 1))
    case _ => Edge(Point(c.x, c.y + 1), c)
  }

  function Neighbor(c: Point, k: nat): Point
    requires k < 4
  {
    match k
    case 0 => Point(c.x, c.y - 1)
    case 1 => Point(c.x + 1, c.y)
    case 2 => Point(c.x, c.y + 1)
    case _ => Point(c.x - 1, c.y)
  }

  ghost function Exposed(cells: set<Point>): set<Edge> {
    set c, k | c in cells && 0 <= k < 4 && Neighbor(c, k) !in cells :: Side(c, k)
  }

  predicate IsUnit(e: Edge) {
    var dx, dy := e.end.x - e.start.x, e.end.y - e.start.y;
    (dx == 0 && (dy == 1 || dy == -1)) || (dy == 0 && (dx == 1 || dx == -1))
  }

  function Reverse(e: Edge): Edge { Edge(e.end, e.start) }

  // The pixels on the left and on the right hand of a walker along a unit edge.
  function LeftCell(e: Edge): Point {
    var dx, dy := e.end.x - e.start.x, e.end.y - e.start.y;
    Point(e.start.x - (if dx == -1 || dy == 1 then 1 else 0),
          e.start.y - (if dx == -1 || dy == -1 then 1 else 0))
  }

  function RightCell(e: Edge): Point { LeftCell(Reverse(e)) }

  // Ink on the left, none on the right.
  predicate IsExposed(cells: set<Point>, e: Edge) {
    IsUnit(e) && LeftCell(e) in cells && RightCell(e) !in cells
  }

  lemma ExposedIff(cells: set<Point>, e: Edge)
    ensures e in Exposed(cells) <==> IsExposed(cells, e)
  {
    if IsExposed(cells, e) {
      var c := LeftCell(e);
      var k := if e == Side(c, 0) then 0 else if e == Side(c, 1) then 1 else if e == Side(c, 2) then 2 else 3;
      assert e == Side(c, k) && Neighbor(c, k) == RightCell(e);
    }
  }

  // ----- Turning -----

  // 3 for a left turn, 2 for straight on, 1 for a right turn, 0 for a reversal.
  function TurnScore(previous: Point, current: Point, candidate: Point): int {
    var ix, iy := current.x - previous.x, current.y - previous.y;
    var ox, oy := candidate.x - current.x, candidate.y - current.y;
    var cross, dot := ix * oy - iy * ox, ix * ox + iy * oy;
    if cross > 0 then 3 else if dot > 0 then 2 else if cross < 0 then 1 else 0
  }

  // Where a left turn, a straight step or a right turn at the end of e leads.
  function Onward(e: Edge, score: int): Edge
    requires 1 <= score <= 3
  {
    var dx, dy := e.end.x - e.start.x, e.end.y - e.start.y;
    Edge(e.end, match score
                case 3 => Point(e.end.x - dy, e.end.y + dx)
                case 2 => Point(e.end.x + dx, e.end.y + dy)
                case _ => Point(e.end.x + dy, e.end.y - dx))
  }

  lemma TurnScoreOfUnit(e: Edge, o: Edge)
    requires IsUnit(e) && IsUnit(o) && e.end == o.start
    ensures var s := TurnScore(e.start, e.end, o.end);
            0 <= s <= 3 && (s == 0 <==> o == Reverse(e)) && (s > 0 ==> o == Onward(e, s))
  {
    var ix, iy := e.end.x - e.start.x, e.end.y - e.start.y;
    var ox, oy := o.end.x - o.start.x, o.end.y - o.start.y;
    if ix == 0 {
      assert iy == 1 || iy == -1;
      assert ox == 0 ==> oy == 1 || oy == -1;
    } else {
      assert ix == 1 || ix == -1;
      assert oy == 0 ==> ox == 1 || ox == -1;
    }
  }

  // The exposed edge that turns as far left as possible at the end of e.
  function Succ(cells: set<Point>, e: Edge): Edge {
    if IsExposed(cells, Onward(e, 3)) then Onward(e, 3)
    else if IsExposed(cells, Onward(e, 2)) then Onward(e, 2)
    else Onward(e, 1)
  }

  // The boundary never ends: the successor of an exposed edge is exposed.
  lemma SuccExposed(cells: set<Point>, e: Edge)
    requires IsExposed(cells, e)
    ensures IsExposed(cells, Succ(cells, e)) && Succ(cells, e).start == e.end
  {}

  lemma SuccInjective(cells: set<Point>, e: Edge, e': Edge)
    requires IsExposed(cells, e) && IsExposed(cells, e')
    requires Succ(cells, e) == Succ(cells, e')
    ensures e == e'
  {}

  // Among all exposed edges leaving the end of e, Succ has the highest score.
  lemma SuccIsLeftmost(cells: set<Point>, e: Edge, o: Edge)
    requires IsExposed(cells, e) && IsExposed(cells, o) && o.start == e.end && o != Succ(cells, e)
    ensures TurnScore(e.start, e.end, o.end) < TurnScore(e.start, e.end, Succ(cells, e).end)
  {
    SuccExposed(cells, e);
    TurnScoreOfUnit(e, o);
    TurnScoreOfUnit(e, Succ(cells, e));
  }

  predicate PointLess(p: Point, q: Point) { p.x < q.x || (p.x == q.x && p.y < q.y) }

  predicate EdgeLess(d: Edge, e: Edge) {
    PointLess(d.start, e.start) || (d.start == e.start && PointLess(d.end, e.end))
  }

  predicate Diagonal(a: Point, b: Point) { (a.x - b.x == 1 || b.x - a.x == 1) && (a.y - b.y == 1 || b.y - a.y == 1) }

  // Two exposed edges leave a vertex only in opposite directions and at a diagonal contact: the ink on their
  // left touches at the corner alone, the other two cells there are blank. One of the edges then points to a
  // lexicographically smaller vertex.
  lemma TwoWaysOut(cells: set<Point>, d: Edge, e: Edge)
    requires IsExposed(cells, d) && IsExposed(cells, e) && d != e && d.start == e.start
    ensures d.end.x + e.end.x == 2 * d.start.x && d.end.y + e.end.y == 2 * d.start.y
    ensures Diagonal(LeftCell(d), LeftCell(e)) && Diagonal(RightCell(d), RightCell(e))
    ensures LeftCell(d) in cells && LeftCell(e) in cells && RightCell(d) !in cells && RightCell(e) !in cells
    ensures PointLess(d.end, d.start) || PointLess(e.end, e.start)
  {}

  // ----- Four-connected ink -----

  predicate Adjacent(a: Point, b: Point) { IsUnit(Edge(a, b)) }

  ghost predicate IsInkPath(cells: set<Point>, path: seq<Point>) {
    && |path| > 0
    && (forall i :: 0 <= i < |path| ==> path[i] in cells)
    && (forall i :: 0 <= i < |path| - 1 ==> Adjacent(path[i], path[i + 1]))
  }

  ghost predicate Connected(cells: set<Point>, a: Point, b: Point) {
    exists path: seq<Point> :: IsInkPath(cells, path) && path[0] == a && path[|path| - 1] == b
  }

  lemma ConnectedStep(cells: set<Point>, a: Point, b: Point, c: Point)
    requires Connected(cells, a, b) && c in cells && (c == b || Adjacent(b, c))
    ensures Connected(cells, a, c)
  {
    if c != b {
      var path: seq<Point> :| IsInkPath(cells, path) && path[0] == a && path[|path| - 1] == b;
      assert IsInkPath(cells, path + [c]);
    }
  }

  // A leftmost turn stays beside the same four-connected ink.
  lemma SuccKeepsComponent(cells: set<Point>, a: Point, e: Edge)
    requires IsExposed(cells, e) && Connected(cells, a, LeftCell(e))
    ensures Connected(cells, a, LeftCell(Succ(cells, e)))
  {
    var b, d := LeftCell(e), LeftCell(Succ(cells, e));
    if Succ(cells, e) == Onward(e, 1) {
      var corner := LeftCell(Onward(e, 2));
      ConnectedStep(cells, a, b, corner);
      ConnectedStep(cells, a, corner, d);
    } else {
      ConnectedStep(cells, a, b, d);
    }
  }

  // ----- A discrete Green theorem -----

  type Weight = (Point, Point) -> int

  ghost predicate Antisymmetric(w: Weight) {
    forall p, q :: w(p, q) == -w(q, p)
  }

  ghost function EdgeWeight(w: Weight): Edge -> int { (e: Edge) => w(e.start, e.end) }

  // What the four sides of one pixel add up to.
  ghost function Around(w: Weight): Point -> int {
    (c: Point) =>
      var f := EdgeWeight(w);
      f(Side(c, 0)) + f(Side(c, 1)) + f(Side(c, 2)) + f(Side(c, 3))
  }

  // The exposed edges after inking c with only its first k sides accounted for.
  ghost function Toggled(cells: set<Point>, c: Point, k: nat): set<Edge>
    requires k <= 4
  {
    if k == 0 then Exposed(cells)
    else if Neighbor(c, k - 1) in cells then Toggled(cells, c, k - 1) - {Reverse(Side(c, k - 1))}
    else Toggled(cells, c, k - 1) + {Side(c, k - 1)}
  }

  lemma {:induction false} ToggledMembers(cells: set<Point>, c: Point, k: nat, e: Edge)
    requires k <= 4 && c !in cells
    ensures e in Toggled(cells, c, k) <==>
            (e in Exposed(cells) && forall j :: 0 <= j < k ==> e != Reverse(Side(c, j)))
            || (exists j :: 0 <= j < k && e == Side(c, j) && Neighbor(c, j) !in cells)
  {
    ExposedIff(cells, e);
    if k > 0 {
      ToggledMembers(cells, c, k - 1, e);
      forall j | 0 <= j < k && e == Reverse(Side(c, j)) && e in Exposed(cells)
        ensures Neighbor(c, j) in cells
      {
        assert LeftCell(e) == Neighbor(c, j);
      }
      forall i, j | 0 <= i < 4 && 0 <= j < 4
        ensures Side(c, i) != Reverse(Side(c, j))
      {}
    }
  }

  // Every unit edge with c on its left is one of the four sides of c.
  lemma SideOf(c: Point, e: Edge) returns (j: nat)
    requires IsUnit(e) && LeftCell(e) == c
    ensures j < 4 && e == Side(c, j) && RightCell(e) == Neighbor(c, j)
  {
    j := if e == Side(c, 0) then 0 else if e == Side(c, 1) then 1 else if e == Side(c, 2) then 2 else 3;
  }

  lemma SideCells(c: Point, j: nat)
    requires j < 4
    ensures IsUnit(Side(c, j)) && LeftCell(Side(c, j)) == c && RightCell(Side(c, j)) == Neighbor(c, j)
    ensures Neighbor(c, j) != c && Reverse(Reverse(Side(c, j))) == Side(c, j)
  {}

  lemma ToggledAllMember(cells: set<Point>, c: Point, e: Edge)
    requires c !in cells
    ensures e in Toggled(cells, c, 4) <==> IsExposed(cells + {c}, e)
  {
    ToggledMembers(cells, c, 4, e);
    ExposedIff(cells, e);
    forall j | 0 <= j < 4
      ensures e == Side(c, j) ==> IsUnit(e) && LeftCell(e) == c && RightCell(e) == Neighbor(c, j)
      ensures e == Reverse(Side(c, j)) ==> RightCell(e) == c
    {
      SideCells(c, j);
    }
    if IsUnit(e) && LeftCell(e) == c {
      var j := SideOf(c, e);
      SideCells(c, j);
    } else if IsUnit(e) && RightCell(e) == c {
      var j := SideOf(c, Reverse(e));
      assert e == Reverse(Side(c, j));
    }
  }

  lemma ToggleSum(cells: set<Point>, c: Point, k: nat, w: Weight)
    requires k < 4 && c !in cells && Antisymmetric(w)
    ensures Sum(Toggled(cells, c, k + 1), EdgeWeight(w)) ==
            Sum(Toggled(cells, c, k), EdgeWeight(w)) + EdgeWeight(w)(Side(c, k))
  {
    var s, t := Toggled(cells, c, k), Side(c, k);
    ToggledMembers(cells, c, k, t);
    ToggledMembers(cells, c, k, Reverse(t));
    ExposedIff(cells, t);
    ExposedIff(cells, Reverse(t));
    if Neighbor(c, k) in cells {
      SumSplit(s, EdgeWeight(w), Reverse(t));
    } else {
      SumAdd(s, EdgeWeight(w), t);
    }
  }

  lemma GreenStep(cells: set<Point>, c: Point, w: Weight)
    requires c !in cells && Antisymmetric(w)
    ensures Sum(Exposed(cells + {c}), EdgeWeight(w)) == Sum(Exposed(cells), EdgeWeight(w)) + Around(w)(c)
  {
    ToggleSum(cells, c, 0, w);
    ToggleSum(cells, c, 1, w);
    ToggleSum(cells, c, 2, w);
    ToggleSum(cells, c, 3, w);
    assert Toggled(cells, c, 4) == Exposed(cells + {c}) by {
      forall e ensures e in Toggled(cells, c, 4) <==> e in Exposed(cells + {c}) {
        ToggledAllMember(cells, c, e);
        ExposedIff(cells + {c}, e);
      }
    }
  }

  // Summed over the exposed edges, an antisymmetric weight is the sum over the pixels
  // of its value around each pixel: the sides between two pixels cancel.
  lemma {:induction false} Green(cells: set<Point>, w: Weight)
    requires Antisymmetric(w)
    ensures Sum(Exposed(cells), EdgeWeight(w)) == Sum(cells, Around(w))
    decreases |cells|
  {
    if cells == {} {
      assert Exposed(cells) == {};
    } else {
      var c :| c in cells;
      Green(cells - {c}, w);
      GreenStep(cells - {c}, c, w);
      assert cells - {c} + {c} == cells;
      SumSplit(cells, Around(w), c);
    }
  }
}
