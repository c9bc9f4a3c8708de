/** The bitmap outline tracer: exposed edges are walked off one closed contour at a time. */
module OutlineTracer {
  import opened OutlineGeometry
  import opened OutlinePolygon
  import opened OutlineWalks

  datatype Outline = Contours(contours: seq<seq<Point>>) | OpenBoundary

  // ----- The algorithm -----

  /** All sides of pixels that no other pixel covers. */
  method CollectEdges(cells: set<Point>) returns (edges: set<Edge>)
    ensures edges == Exposed(cells)
  {
    edges := {};
    var rest := cells;
    while rest != {}
      invariant rest <= cells
      invariant edges == set c, k | c in cells - rest && 0 <= k < 4 && Neighbor(c, k) !in cells :: Side(c, k)
      decreases |rest|
    {
      var c :| c in rest;
      ghost var before := edges;
      for k := 0 to 4
        invariant edges == before + set j | 0 <= j < k && Neighbor(c, j) !in cells :: Side(c, j)
      {
        if Neighbor(c, k) !in cells {
          edges := edges + {Side(c, k)};
        }
      }
      assert cells - (rest - {c}) == (cells - rest) + {c};
      rest := rest - {c};
    }
  }

  ghost predicate Groups(outgoing: map<Point, seq<Point>>, edges: set<Edge>) {
    forall p, q :: Edge(p, q) in edges <==> p in outgoing && q in outgoing[p]
  }

  method GroupByStart(edges: set<Edge>) returns (outgoing: map<Point, seq<Point>>)
    ensures Groups(outgoing, edges)
  {
    outgoing := map[];
    var rest := edges;
    while rest != {}
      invariant rest <= edges
      invariant Groups(outgoing, edges - rest)
      decreases |rest|
    {
      var e :| e in rest;
      var ends := if e.start in outgoing then outgoing[e.start] else [];
      outgoing := outgoing[e.start := ends + [e.end]];
      rest := rest - {e};
    }
  }

  method LeastEdge(edges: set<Edge>) returns (least: Edge)
    requires edges != {}
    ensures IsLeast(least, edges)
  {
    least :| least in edges;
    var rest := edges - {least};
    while rest != {}
      invariant rest <= edges && IsLeast(least, edges - rest)
      decreases |rest|
    {
      var e :| e in rest;
      assert edges - (rest - {e}) == (edges - rest) + {e};
      assert e != least ==> EdgeLess(e, least) || EdgeLess(least, e);
      rest := rest - {e};
      if EdgeLess(e, least) {
        least := e;
      }
    }
  }

  // The order by which the next vertex is chosen: turn score first, then the vertex itself.
  predicate KeyLess(previous: Point, current: Point, p: Point, q: Point) {
    var s, t := TurnScore(previous, current, p), TurnScore(previous, current, q);
    s < t || (s == t && PointLess(p, q))
  }

  method LeftmostOf(previous: Point, current: Point, candidates: seq<Point>) returns (following: Point)
    requires candidates != []
    ensures following in candidates
    ensures forall p :: p in candidates ==> !KeyLess(previous, current, following, p)
  {
    following := candidates[0];
    for i := 1 to |candidates|
      invariant following in candidates
      invariant forall j :: 0 <= j < i ==> !KeyLess(previous, current, following, candidates[j])
    {
      if KeyLess(previous, current, following, candidates[i]) {
        following := candidates[i];
      }
    }
  }

  method UnusedEnds(ends: seq<Point>, current: Point, unused: set<Edge>) returns (candidates: seq<Point>)
    ensures forall p :: p in candidates <==> p in ends && Edge(current, p) in unused
  {
    candidates := [];
    for i := 0 to |ends|
      invariant forall p :: p in candidates <==> p in ends[..i] && Edge(current, p) in unused
    {
      if Edge(current, ends[i]) in unused {
        candidates := candidates + [ends[i]];
      }
    }
  }

  // The chosen continuation is the leftmost one among all exposed edges.
  lemma ChosenIsSucc(cells: set<Point>, e: Edge, candidates: seq<Point>, following: Point)
    requires IsExposed(cells, e)
    requires forall p :: p in candidates ==> IsExposed(cells, Edge(e.end, p))
    requires Succ(cells, e).end in candidates && following in candidates
    requires forall p :: p in candidates ==> !KeyLess(e.start, e.end, following, p)
    ensures Edge(e.end, following) == Succ(cells, e)
  {
    SuccExposed(cells, e);
    if Edge(e.end, following) != Succ(cells, e) {
      SuccIsLeftmost(cells, e, Edge(e.end, following));
      assert false;
    }
  }

  // The state of a walk in progress: es is what has been walked so far.
  ghost predicate Walking(cells: set<Point>, unused: set<Edge>, left: set<Edge>, contour: seq<Point>, es: seq<Edge>) {
    && IsWalk(cells, es)
    && EdgeSet(es) <= unused
    && left == unused - EdgeSet(es)
    && contour == Starts(es)
  }

  // What the candidate list offers: the leftmost continuation is always on it.
  lemma CandidatesOffer(cells: set<Point>, unused: set<Edge>, left: set<Edge>, contour: seq<Point>, es: seq<Edge>,
                        candidates: seq<Point>)
    requires AllExposed(cells, unused) && IsClosed(cells, unused) && Walking(cells, unused, left, contour, es)
    requires var last := es[|es| - 1];
             && last.end != es[0].start
             && (forall p :: p in candidates <==> Edge(last.end, p) in Exposed(cells) && Edge(last.end, p) in left)
    ensures var last := es[|es| - 1];
            && Succ(cells, last).end in candidates
            && Succ(cells, last).start == last.end
            && (forall p :: p in candidates ==> IsExposed(cells, Edge(last.end, p)))
  {
    var last := es[|es| - 1];
    WalkGoesOn(cells, unused, es);
    SuccExposed(cells, last);
    ExposedIff(cells, Succ(cells, last));
  }

  lemma WalkExtended(cells: set<Point>, unused: set<Edge>, left: set<Edge>, contour: seq<Point>, es: seq<Edge>, next: Edge)
    requires IsClosed(cells, unused) && Walking(cells, unused, left, contour, es)
    requires es[|es| - 1].end != es[0].start && next == Succ(cells, es[|es| - 1])
    ensures Walking(cells, unused, left - {next}, contour + [next.start], es + [next])
    ensures |left - {next}| < |left|
    ensures (es + [next])[0] == es[0] && (es + [next])[|es|] == next
  {
    WalkGoesOn(cells, unused, es);
  }

  lemma WalkStarts(cells: set<Point>, unused: set<Edge>, first: Edge)
    requires AllExposed(cells, unused) && first in unused
    ensures Walking(cells, unused, unused - {first}, [first.start], [first])
  {
    assert EdgeSet([first]) == {first};
  }

  /** Chooses where the walk goes from current; nothing is found at an open boundary. */
  method Following(ghost cells: set<Point>, ghost unused: set<Edge>, outgoing: map<Point, seq<Point>>,
                   left: set<Edge>, ghost contour: seq<Point>, ghost es: seq<Edge>, previous: Point, current: Point)
    returns (found: bool, following: Point)
    requires Groups(outgoing, Exposed(cells))
    requires AllExposed(cells, unused) && IsClosed(cells, unused)
    requires Walking(cells, unused, left, contour, es)
    requires es[|es| - 1] == Edge(previous, current) && current != es[0].start
    ensures found && Edge(current, following) == Succ(cells, Edge(previous, current))
  {
    var ends := if current in outgoing then outgoing[current] else [];
    var candidates := UnusedEnds(ends, current, left);
    CandidatesOffer(cells, unused, left, contour, es, candidates);
    if candidates == [] {
      return false, current;
    }
    following := LeftmostOf(previous, current, candidates);
    ChosenIsSucc(cells, Edge(previous, current), candidates, following);
    found := true;
  }

  /** Walks one contour off the unused edges; fails when the boundary is open. */
  method WalkContour(ghost cells: set<Point>, outgoing: map<Point, seq<Point>>, unused: set<Edge>)
    returns (ok: bool, contour: seq<Point>, left: set<Edge>, ghost es: seq<Edge>)
    requires Groups(outgoing, Exposed(cells)) && unused != {}
    requires AllExposed(cells, unused) && IsClosed(cells, unused)
    ensures ok && IsCycle(cells, es) && Walking(cells, unused, left, contour, es) && IsLeast(es[0], unused)
  {
    var first := LeastEdge(unused);
    var start, current := first.start, first.end;
    left := unused - {first};
    contour := [start];
    var previous := start;
    es := [first];
    WalkStarts(cells, unused, first);
    while current != start
      invariant Walking(cells, unused, left, contour, es)
      invariant es[0] == first && es[|es| - 1] == Edge(previous, current)
      decreases |left|
    {
      var found, following := Following(cells, unused, outgoing, left, contour, es, previous, current);
      ghost var walked := contour;
      contour := contour + [current];
      if !found {
        return false, contour, left, es;
      }
      var next := Edge(current, following);
      assert next.start == current;
      WalkExtended(cells, unused, left, walked, es, next);
      es := es + [next];
      left := left - {next};
      previous, current := current, following;
    }
    WalkCloses(cells, unused, es);
    ok := true;
  }

  // The state between two contours.
  ghost predicate Outlining(cells: set<Point>, unused: set<Edge>, walks: seq<seq<Edge>>, contours: seq<seq<Point>>) {
    && unused <= Exposed(cells)
    && IsClosed(cells, unused)
    && Partitions(cells, walks, Exposed(cells) - unused)
    && Outlines(walks, contours)
  }

  lemma OutliningStarts(cells: set<Point>)
    ensures Outlining(cells, Exposed(cells), [], [])
  {
    forall e ensures e in Exposed(cells) <==> IsExposed(cells, e) { ExposedIff(cells, e); }
    forall e | IsExposed(cells, e) ensures IsExposed(cells, Succ(cells, e)) { SuccExposed(cells, e); }
  }

  lemma OutlinesExtended(walks: seq<seq<Edge>>, contours: seq<seq<Point>>, es: seq<Edge>, simplified: seq<Point>)
    requires Outlines(walks, contours) && SameTrace(Starts(es), simplified) && IsCornerPolygon(simplified)
    ensures Outlines(walks + [es], contours + [simplified])
  {
    forall i | 0 <= i < |walks| + 1
      ensures SameTrace(Starts((walks + [es])[i]), (contours + [simplified])[i])
      ensures IsCornerPolygon((contours + [simplified])[i])
    {
      if i < |walks| {
        assert (walks + [es])[i] == walks[i] && (contours + [simplified])[i] == contours[i];
      }
    }
  }

  lemma OutliningContinues(cells: set<Point>, unused: set<Edge>, walks: seq<seq<Edge>>, contours: seq<seq<Point>>,
                           es: seq<Edge>, simplified: seq<Point>)
    requires Outlining(cells, unused, walks, contours)
    requires IsCycle(cells, es) && EdgeSet(es) <= unused
    requires SameTrace(Starts(es), simplified)
    requires IsCornerPolygon(simplified)
    ensures Outlining(cells, unused - EdgeSet(es), walks + [es], contours + [simplified])
  {
    CycleRemoved(cells, unused, es);
    OutlinesExtended(walks, contours, es, simplified);
    var done := Exposed(cells) - (unused - EdgeSet(es));
    assert done - EdgeSet(es) == Exposed(cells) - unused;
    assert (walks + [es])[..|walks|] == walks;
  }

  lemma UnusedExposed(cells: set<Point>, unused: set<Edge>)
    requires unused <= Exposed(cells)
    ensures AllExposed(cells, unused)
  {
    forall e | e in unused ensures IsExposed(cells, e) { ExposedIff(cells, e); }
  }

  lemma CycleNotEmpty(cells: set<Point>, es: seq<Edge>)
    requires IsCycle(cells, es)
    ensures es != [] && Starts(es) != [] && es[0] in EdgeSet(es)
  {}

  // Every finished contour starts before all edges still unused, and after the contours before it.
  ghost predicate InOrder(contours: seq<seq<Point>>, unused: set<Edge>) {
    && (forall i :: 0 <= i < |contours| ==> LeastFirst(contours[i]))
    && (forall i, j :: 0 <= i < j < |contours| ==> contours[i] != [] && contours[j] != [] && PointLess(contours[i][0], contours[j][0]))
    && (forall i, e :: 0 <= i < |contours| && e in unused ==> contours[i] != [] && PointLess(contours[i][0], e.start))
  }

  // No other unused edge starts where the least one does, or before.
  lemma LeastStartsFirst(cells: set<Point>, unused: set<Edge>, first: Edge, e: Edge)
    requires AllExposed(cells, unused) && IsClosed(cells, unused) && IsLeast(first, unused) && e in unused && e != first
    ensures PointLess(first.start, e.start)
  {
    if e.start == first.start {
      LeastLeavesAlone(cells, unused, first, e);
    }
  }

  lemma NothingInOrder()
    ensures forall unused :: InOrder([], unused)
  {}

  lemma WalkStartsLeast(cells: set<Point>, unused: set<Edge>, es: seq<Edge>)
    requires AllExposed(cells, unused) && IsClosed(cells, unused) && IsCycle(cells, es) && EdgeSet(es) <= unused
    requires IsLeast(es[0], unused)
    ensures LeastFirst(Starts(es)) && Starts(es)[0] == es[0].start
  {
    hide IsClosed, AllExposed, IsExposed, Succ;
    forall j | 1 <= j < |es|
      ensures PointLess(es[0].start, es[j].start)
    {
      assert es[j] in EdgeSet(es);
      LeastStartsFirst(cells, unused, es[0], es[j]);
    }
  }

  lemma OrderContinues(cells: set<Point>, unused: set<Edge>, contours: seq<seq<Point>>, es: seq<Edge>, simplified: seq<Point>)
    requires AllExposed(cells, unused) && IsClosed(cells, unused) && IsCycle(cells, es) && EdgeSet(es) <= unused
    requires IsLeast(es[0], unused) && InOrder(contours, unused)
    requires LeastFirst(simplified) && simplified[0] == es[0].start
    ensures InOrder(contours + [simplified], unused - EdgeSet(es))
  {
    hide IsClosed, AllExposed, IsExposed, Succ;
    var all := contours + [simplified];
    assert es[0] in EdgeSet(es);
    forall e | e in unused - EdgeSet(es)
      ensures PointLess(simplified[0], e.start)
    {
      LeastStartsFirst(cells, unused, es[0], e);
    }
    forall i | 0 <= i < |contours|
      ensures contours[i] != [] && PointLess(contours[i][0], simplified[0])
    {
      assert es[0] in unused;
    }
  }

  // What the finished contours are.
  lemma OutliningEnds(cells: set<Point>, walks: seq<seq<Edge>>, contours: seq<seq<Point>>)
    requires Outlining(cells, {}, walks, contours)
    ensures forall i :: 0 <= i < |contours| ==> IsCornerPolygon(contours[i])
    ensures forall c :: Winding(contours, c) == if c in cells then 1 else 0
    ensures forall e :: TimesTraced(contours, e) == if e in Exposed(cells) then 1 else 0
    ensures TwiceArea(contours) == 2 * |cells|
    ensures forall i :: 0 <= i < |contours| ==> BordersOneComponent(cells, contours[i])
  {
    assert Exposed(cells) - {} == Exposed(cells);
    forall c ensures Winding(contours, c) == if c in cells then 1 else 0 {
      WindingIsMembership(cells, walks, contours, c);
    }
    forall e ensures TimesTraced(contours, e) == if e in Exposed(cells) then 1 else 0 {
      TracedOnce(cells, walks, contours, e);
    }
    AreaIsPixelCount(cells, walks, contours);
    forall i | 0 <= i < |contours| ensures BordersOneComponent(cells, contours[i]) {
      ContourBordersOneComponent(cells, walks, contours, i);
    }
  }

  /** The outline of a finite set of pixels. */
  method BitmapUnionContours(cells: set<Point>) returns (outline: Outline)
    ensures outline.Contours?
    ensures forall i :: 0 <= i < |outline.contours| ==> IsCornerPolygon(outline.contours[i])
    ensures forall c :: Winding(outline.contours, c) == if c in cells then 1 else 0
    ensures forall e :: TimesTraced(outline.contours, e) == if e in Exposed(cells) then 1 else 0
    ensures TwiceArea(outline.contours) == 2 * |cells|
    ensures forall i :: 0 <= i < |outline.contours| ==> BordersOneComponent(cells, outline.contours[i])
    ensures InOrder(outline.contours, {})
  {
    hide IsClosed, IsWalk, Partitions, Outlines, SameTrace, IsCornerPolygon, Groups, IsExposed, Succ, Winding, TimesTraced,
      TwiceArea, BordersOneComponent, NoDuplicates, AllExposed, Starts, InOrder, LeastFirst;
    NothingInOrder();
    var edges := CollectEdges(cells);
    var outgoing := GroupByStart(edges);
    var unused := edges;
    var contours: seq<seq<Point>> := [];
    ghost var walks := [];
    OutliningStarts(cells);
    while unused != {}
      invariant Outlining(cells, unused, walks, contours) && InOrder(contours, unused)
      decreases |unused|
    {
      var ok, contour, left;
      ghost var es;
      UnusedExposed(cells, unused);
      ok, contour, left, es := WalkContour(cells, outgoing, unused);
      if !ok {
        return OpenBoundary;
      }
      CycleIsRectilinear(cells, es);
      CycleNotEmpty(cells, es);
      WalkStartsLeast(cells, unused, es);
      var simplified := Simplify(contour);
      OutliningContinues(cells, unused, walks, contours, es, simplified);
      OrderContinues(cells, unused, contours, es, simplified);
      contours := contours + [simplified];
      walks := walks + [es];
      unused := left;
    }
    assert unused == {};
    OutliningEnds(cells, walks, contours);
    return Contours(contours);
  }
}
