/** A sweep through the node tree of the world (Utility/Collision/Collision.cpp). */
module TreeTrace {
  import opened BrushTrace
  import opened Geometry
  import opened LeafListing

  // ---------------------------------------------------------------------------------------------
  // The parts of the way that a node's two sides need

  /** Where a sweep comes past a node: the side to go to first, the end of its part, the beginning of the other's. */
  datatype Crossing = Crossing(backFirst: bool, near: real, far: real)

  function Clamp(f: real): real {
    if f < 0.0 then 0.0 else if f > 1.0 then 1.0 else f
  }

  /** Where the distance has fallen by a, between 0 and 1. */
  function Part(a: real, t1: real, t2: real): real
    requires t1 != t2
  {
    var idist := 1.0 / (t1 - t2);
    Clamp(a * idist)
  }

  function CrossingOf(t1: real, t2: real, offset: real): Crossing {
    if t1 < t2 then Crossing(true, Part(t1 - offset + EPSILON, t1, t2), Part(t1 + offset + EPSILON, t1, t2))
    else if t1 > t2 then Crossing(false, Part(t1 + offset + EPSILON, t1, t2), Part(t1 - offset - EPSILON, t1, t2))
    else Crossing(false, 1.0, 0.0)
  }

  /** Comparing with a quotient that is computed as a product with the inverse. */
  lemma InverseTells(a: real, b: real, u: real, m: real)
    requires b != 0.0 && m == u * b
    ensures b > 0.0 ==> (u <= a * (1.0 / b) <==> m <= a) && (a * (1.0 / b) <= u <==> a <= m)
    ensures b < 0.0 ==> (u <= a * (1.0 / b) <==> a <= m) && (a * (1.0 / b) <= u <==> m <= a)
  {
    var i := 1.0 / b;
    var q := a * i;
    assert i * b == 1.0;
    assert q * b == a * (i * b);
    assert (u - q) * b == m - a;
    Product(u - q, b);
    Product(q - u, b);
    Product(u - q, -b);
    Product(q - u, -b);
  }

  lemma ClampKeeps(u: real, f: real)
    requires 0.0 <= u <= 1.0
    ensures u <= f ==> u <= Clamp(f)
    ensures f <= u ==> Clamp(f) <= u
  {
  }

  /**
   * A point that is shift further along the normal than the position is, at the part u of the stretch: on its
   * side of the plane, it is in the part that the side gets. The exception are the points less than the
   * tolerance behind the plane, when the sweep comes from behind.
   */
  lemma CrossingCovers(t1: real, t2: real, offset: real, u: real, shift: real, m: real)
    requires 0.0 <= u <= 1.0 && -offset <= shift <= offset && m == u * (t1 - t2)
    ensures var d, c := t1 - m + shift, CrossingOf(t1, t2, offset);
            && (d >= 0.0 ==> if c.backFirst then c.far <= u else u <= c.near)
            && (d <= -EPSILON || (d < 0.0 && t1 >= t2) ==> if c.backFirst then u <= c.near else c.far <= u)
  {
    if t1 < t2 {
      PartTells(t1 - offset + EPSILON, t1, t2, u, m);
      PartTells(t1 + offset + EPSILON, t1, t2, u, m);
    } else if t1 > t2 {
      PartTells(t1 + offset + EPSILON, t1, t2, u, m);
      PartTells(t1 - offset - EPSILON, t1, t2, u, m);
    }
  }

  lemma PartTells(a: real, t1: real, t2: real, u: real, m: real)
    requires 0.0 <= u <= 1.0 && t1 != t2 && m == u * (t1 - t2)
    ensures if t1 > t2 then (m <= a ==> u <= Part(a, t1, t2)) && (a <= m ==> Part(a, t1, t2) <= u)
            else (a <= m ==> u <= Part(a, t1, t2)) && (m <= a ==> Part(a, t1, t2) <= u)
  {
    InverseTells(a, t1 - t2, u, m);
    ClampKeeps(u, a * (1.0 / (t1 - t2)));
  }

  lemma InverseExact(a: real, b: real)
    requires b != 0.0
    ensures a * (1.0 / b) * b == a
  {
    var i := 1.0 / b;
    assert i * b == 1.0;
    assert a * i * b == a * (i * b);
  }

  /** A part of the way from t1 to t2: where on it the distance is d, or that it is d only beyond. */
  ghost predicate EndsAt(part: real, t1: real, t2: real, d: real) {
    && (0.0 < part < 1.0 ==> part * (t1 - t2) == t1 - d)
    && (part == 0.0 ==> if t1 > t2 then t1 <= d else t1 >= d)
    && (part == 1.0 ==> if t1 > t2 then t2 >= d else t2 <= d)
  }

  /** The part is where the distance has fallen by a. */
  lemma PartExact(a: real, t1: real, t2: real)
    requires t1 != t2
    ensures EndsAt(Part(a, t1, t2), t1, t2, t1 - a)
  {
    var f := a * (1.0 / (t1 - t2));
    if 0.0 < f < 1.0 {
      InverseExact(a, t1 - t2);
      assert Part(a, t1, t2) == f;
    } else if f <= 0.0 {
      InverseTells(a, t1 - t2, 0.0, 0.0);
    } else {
      InverseTells(a, t1 - t2, 1.0, t1 - t2);
    }
  }

  /**
   * The parts are no larger than needed: the first side's ends where the position is off the plane, on the
   * other side, by the margin and the tolerance, the other's begins where it still is off by as much. For a
   * sweep from behind, the first side's ends the tolerance short of the margin.
   */
  lemma CrossingTight(t1: real, t2: real, offset: real)
    requires t1 != t2
    ensures var c := CrossingOf(t1, t2, offset);
            if t1 < t2 then
              && c.backFirst
              && EndsAt(c.near, t1, t2, offset - EPSILON)
              && EndsAt(c.far, t1, t2, -offset - EPSILON)
            else
              && !c.backFirst
              && EndsAt(c.near, t1, t2, -offset - EPSILON)
              && EndsAt(c.far, t1, t2, offset + EPSILON)
  {
    if t1 < t2 {
      PartExact(t1 - offset + EPSILON, t1, t2);
      PartExact(t1 + offset + EPSILON, t1, t2);
    } else {
      PartExact(t1 + offset + EPSILON, t1, t2);
      PartExact(t1 - offset - EPSILON, t1, t2);
    }
  }

  // ---------------------------------------------------------------------------------------------
  // On the way

  function Between(a: real, b: real, f: real): real {
    a + (b - a) * f
  }

  lemma BetweenStays(a: real, b: real, f: real)
    requires a <= b && 0.0 <= f <= 1.0
    ensures a <= Between(a, b, f) <= b
  {
    var w := b - a;
    Product(w, f);
    Product(w, 1.0 - f);
    assert w * (1.0 - f) == w - w * f;
  }

  lemma CoordinateBetween(x: real, v: real, a: real, b: real, f: real)
    ensures (x + a * v) + f * ((x + b * v) - (x + a * v)) == x + Between(a, b, f) * v
  {
    var w := b - a;
    var g := w * f;
    assert b * v - a * v == w * v;
    assert f * (w * v) == g * v;
    assert (a + g) * v == a * v + g * v;
  }

  lemma MidCoordinate(x: real, y: real, a: real, b: real, f: real)
    ensures Lerp(Lerp(x, y, a), Lerp(x, y, b), f) == Lerp(x, y, Between(a, b, f))
  {
    CoordinateIs(x, y - x, a, b, f, Lerp(x, y, a), Lerp(x, y, b), Lerp(x, y, Between(a, b, f)));
  }

  /** The point between two positions is the position between. */
  lemma PositionBetween(start: Vec, end: Vec, a: real, b: real, f: real, p: Vec, q: Vec)
    requires p == Position(start, end, a) && q == Position(start, end, b)
    ensures Position(p, q, f) == Position(start, end, Between(a, b, f))
  {
    MidCoordinate(start.x, end.x, a, b, f);
    MidCoordinate(start.y, end.y, a, b, f);
    MidCoordinate(start.z, end.z, a, b, f);
  }

  lemma CoordinateIs(x: real, v: real, a: real, b: real, f: real, p: real, q: real, r: real)
    requires p == x + a * v && q == x + b * v && r == x + Between(a, b, f) * v
    ensures p + f * (q - p) == r
  {
    CoordinateBetween(x, v, a, b, f);
  }

  /** A point that is on the way at part s, by what all planes tell. */
  ghost predicate OnTheWay(start: Vec, end: Vec, s: real, p: Vec) {
    forall plane :: Along(plane, p) == Along(plane, start) + s * (Along(plane, end) - Along(plane, start))
  }

  lemma PositionOnTheWay(start: Vec, end: Vec, s: real)
    ensures OnTheWay(start, end, s, Position(start, end, s))
  {
    forall plane
      ensures Along(plane, Position(start, end, s))
           == Along(plane, start) + s * (Along(plane, end) - Along(plane, start))
    {
      AlongTheWay(plane, start, end, s);
    }
  }

  lemma AlongTheWay(plane: Plane, start: Vec, end: Vec, s: real)
    ensures Along(plane, Position(start, end, s))
         == Along(plane, start) + s * (Along(plane, end) - Along(plane, start))
  {
    if plane.kind >= 3 {
      NormalOnTheWay(plane.normal, start, end, s);
    }
  }

  lemma NormalOnTheWay(n: Vec, start: Vec, end: Vec, s: real)
    ensures Dot(n, Position(start, end, s)) == Dot(n, start) + s * (Dot(n, end) - Dot(n, start))
  {
    DotOnTheWay(n, start, end, s);
    DotSwaps(Position(start, end, s), n);
    DotSwaps(start, n);
    DotSwaps(end, n);
  }

  /** The distance of a point of the shape, by the part u of a stretch that the position q is at. */
  lemma DistanceOnStretch(plane: Plane, start: Vec, end: Vec, a: real, b: real, u: real, e: Vec, p1: Vec, p2: Vec,
                          q: Vec)
    requires OnTheWay(start, end, a, p1) && OnTheWay(start, end, b, p2) && OnTheWay(start, end, Between(a, b, u), q)
    ensures Distance(plane, q.Plus(e))
         == Distance(plane, p1) - u * (Distance(plane, p1) - Distance(plane, p2)) + Along(plane, e)
  {
    DistancePlus(plane, q, e);
    PositionOnStretch(plane, start, end, a, b, u, p1, p2, q);
  }

  lemma DistancePlus(plane: Plane, q: Vec, e: Vec)
    ensures Distance(plane, q.Plus(e)) == Distance(plane, q) + Along(plane, e)
  {
    AlongPlus(plane, q, e);
  }

  lemma PositionOnStretch(plane: Plane, start: Vec, end: Vec, a: real, b: real, u: real, p1: Vec, p2: Vec, q: Vec)
    requires OnTheWay(start, end, a, p1) && OnTheWay(start, end, b, p2) && OnTheWay(start, end, Between(a, b, u), q)
    ensures Distance(plane, q) == Distance(plane, p1) - u * (Distance(plane, p1) - Distance(plane, p2))
  {
    DistanceBetween(Along(plane, start), Along(plane, end), Along(plane, p1), Along(plane, p2), Along(plane, q),
                    a, b, u, plane.dist, Distance(plane, p1), Distance(plane, p2));
  }

  lemma DistanceBetween(x: real, y: real, s1: real, s2: real, s: real, a: real, b: real, u: real, dist: real,
                        t1: real, t2: real)
    requires s1 == x + a * (y - x) && s2 == x + b * (y - x) && s == x + Between(a, b, u) * (y - x)
    requires t1 == s1 - dist && t2 == s2 - dist
    ensures s - dist == t1 - u * (t1 - t2)
  {
    CoordinateIs(x, y - x, a, b, u, s1, s2, s);
    assert u * (t1 - t2) == -(u * (s2 - s1));
  }

  /** How far the points of the shape may be from the position, along a node plane. */
  function Offset(extents: Vec, isPoint: bool, plane: Plane): real {
    if plane.kind < 3 then extents.Coordinate(plane.kind) else if isPoint then 0.0 else 2048.0
  }

  /** The part of a stretch that a number is at. */
  lemma PartOfStretch(a: real, b: real, s: real) returns (u: real)
    requires a <= s <= b
    ensures 0.0 <= u <= 1.0 && s == Between(a, b, u)
    ensures a == b || forall f: real :: (u <= f ==> s <= Between(a, b, f)) && (f <= u ==> Between(a, b, f) <= s)
  {
    if a == b {
      u := 0.0;
    } else {
      var w := b - a;
      u := (s - a) / w;
      Quotient(s - a, w, 0.0);
      Quotient(s - a, w, 1.0);
      assert u * w == s - a;
      assert w * u == s - a;
      forall f: real
        ensures (u <= f ==> s <= Between(a, b, f)) && (f <= u ==> Between(a, b, f) <= s)
      {
        Product(w, f - u);
        Product(w, u - f);
        assert w * (f - u) == w * f - w * u && w * (u - f) == w * u - w * f;
      }
    }
  }

  /** A point of the shape is in the part of the stretch that its side of a node plane gets. */
  lemma StretchCovers(t1: real, t2: real, offset: real, a: real, b: real, s: real, u: real, shift: real, d: real)
    requires a <= s <= b && 0.0 <= u <= 1.0 && -offset <= shift <= offset
    requires a == b || forall f: real :: (u <= f ==> s <= Between(a, b, f)) && (f <= u ==> Between(a, b, f) <= s)
    requires d == t1 - u * (t1 - t2) + shift
    ensures var c := CrossingOf(t1, t2, offset);
            var near, far := Between(a, b, c.near), Between(a, b, c.far);
            && (d >= 0.0 ==> if c.backFirst then far <= s else s <= near)
            && (d <= -EPSILON || (d < 0.0 && !c.backFirst) ==> if c.backFirst then s <= near else far <= s)
    ensures t1 >= offset + 1.0 && t2 >= offset + 1.0 ==> d >= 0.0
    ensures t1 < -offset - 1.0 && t2 < -offset - 1.0 ==> d < 0.0
  {
    var c := CrossingOf(t1, t2, offset);
    CrossingCovers(t1, t2, offset, u, shift, u * (t1 - t2));
    if a == b {
      Between0(a, b, c.near);
      Between0(a, b, c.far);
    }
    Mixed(t1, t2, u, offset + 1.0);
    Mixed(-t1, -t2, u, offset + 1.0);
    Turned(t1, t2, u);
  }

  lemma Between0(a: real, b: real, f: real)
    requires a == b
    ensures Between(a, b, f) == a
  {
  }

  lemma Turned(t1: real, t2: real, u: real)
    ensures u * (-t1 - -t2) == -(u * (t1 - t2))
  {
  }

  lemma Mixed(t1: real, t2: real, u: real, low: real)
    requires 0.0 <= u <= 1.0
    ensures t1 >= low && t2 >= low ==> t1 - u * (t1 - t2) >= low
  {
    assert t1 - u * (t1 - t2) - low == (1.0 - u) * (t1 - low) + u * (t2 - low);
    Product(1.0 - u, t1 - low);
    Product(u, t2 - low);
  }

  // ---------------------------------------------------------------------------------------------
  // The leaves that a sweep must visit

  datatype Sweep = Sweep(start: Vec, end: Vec, extents: Vec, isPoint: bool)

  function PointAt(sweep: Sweep, s: real, e: Vec): Vec {
    Position(sweep.start, sweep.end, s).Plus(e)
  }

  /** Steps that the margins around the node planes allow for; for a point, only the step to itself needs be. */
  ghost predicate InReach(nodes: seq<Node>, sweep: Sweep, e: Vec) {
    forall i :: 0 <= i < |nodes| ==> StepFits(nodes[i].plane, sweep, e)
  }

  ghost predicate StepFits(plane: Plane, sweep: Sweep, e: Vec) {
    var offset := Offset(sweep.extents, sweep.isPoint, plane);
    -offset <= Along(plane, e) <= offset
  }

  /** A point less than the tolerance behind a plane that the sweep comes to from behind. */
  ghost predicate JustBehind(plane: Plane, sweep: Sweep, p: Vec) {
    -EPSILON < Distance(plane, p) < 0.0 && Along(plane, sweep.start) < Along(plane, sweep.end)
  }

  /** A point that is not just behind a plane of the nodes above its leaf. */
  ghost predicate ClearOf(nodes: seq<Node>, leafs: nat, rank: seq<nat>, sweep: Sweep, num: int, p: Vec)
    requires IsTree(nodes, leafs, rank) && IsNumber(num, leafs, rank)
    decreases Rank(num, rank)
  {
    num < 0
    || (!JustBehind(nodes[num].plane, sweep, p)
        && ClearOf(nodes, leafs, rank, sweep,
                   if Distance(nodes[num].plane, p) < 0.0 then nodes[num].back else nodes[num].front, p))
  }

  /** The leaves of all clear points of the shape, on a stretch of the way and before a fraction of it. */
  ghost predicate Covered(nodes: seq<Node>, leafs: nat, rank: seq<nat>, sweep: Sweep, num: int, a: real, b: real,
                          visited: set<nat>, fraction: real)
    requires IsTree(nodes, leafs, rank) && IsNumber(num, leafs, rank)
  {
    forall s, e :: a <= s <= b && s < fraction && InReach(nodes, sweep, e)
                   && ClearOf(nodes, leafs, rank, sweep, num, PointAt(sweep, s, e)) ==>
                     LeafOf(nodes, leafs, rank, num, PointAt(sweep, s, e)) in visited
  }

  lemma CoveredBoth(nodes: seq<Node>, leafs: nat, rank: seq<nat>, sweep: Sweep, num: int, a: real, b: real,
                    p1: Vec, p2: Vec, c: Crossing, visited: set<nat>, fraction: real,
                    visited': set<nat>, fraction': real)
    requires IsTree(nodes, leafs, rank) && 0 <= num < |nodes|
    requires OnTheWay(sweep.start, sweep.end, a, p1) && OnTheWay(sweep.start, sweep.end, b, p2)
    requires var plane := nodes[num].plane;
             c == CrossingOf(Distance(plane, p1), Distance(plane, p2), Offset(sweep.extents, sweep.isPoint, plane))
    requires IsNumber(nodes[num].front, leafs, rank) && IsNumber(nodes[num].back, leafs, rank)
    requires visited <= visited' && fraction' <= fraction
    requires var (first, second) := if c.backFirst then (nodes[num].back, nodes[num].front)
                                    else (nodes[num].front, nodes[num].back);
             && Covered(nodes, leafs, rank, sweep, first, a, Between(a, b, c.near), visited, fraction)
             && Covered(nodes, leafs, rank, sweep, second, Between(a, b, c.far), b, visited', fraction')
    ensures Covered(nodes, leafs, rank, sweep, num, a, b, visited', fraction')
  {
    forall s, e | a <= s <= b && s < fraction' && InReach(nodes, sweep, e)
                  && ClearOf(nodes, leafs, rank, sweep, num, PointAt(sweep, s, e))
      ensures LeafOf(nodes, leafs, rank, num, PointAt(sweep, s, e)) in visited'
    {
      PositionOnTheWay(sweep.start, sweep.end, s);
      if Along(nodes[num].plane, sweep.start) >= Along(nodes[num].plane, sweep.end) {
        FrontFirst(nodes[num].plane, sweep, a, b, p1, p2);
      }
      PointsOnTheirSide(nodes[num].plane, sweep, a, b, s, e, p1, p2, Position(sweep.start, sweep.end, s));
    }
  }

  /** A point at a distance d from a node plane is in the part of a stretch that its side gets. */
  ghost predicate OnItsSide(t1: real, t2: real, offset: real, a: real, b: real, s: real, d: real) {
    var c := CrossingOf(t1, t2, offset);
    var near, far := Between(a, b, c.near), Between(a, b, c.far);
    && (d >= 0.0 ==> if c.backFirst then far <= s else s <= near)
    && (d <= -EPSILON || (d < 0.0 && !c.backFirst) ==> if c.backFirst then s <= near else far <= s)
    && (t1 >= offset + 1.0 && t2 >= offset + 1.0 ==> d >= 0.0)
    && (t1 < -offset - 1.0 && t2 < -offset - 1.0 ==> d < 0.0)
  }

  /** A sweep that does not come to a plane from behind goes to the front side first. */
  lemma FrontFirst(plane: Plane, sweep: Sweep, a: real, b: real, p1: Vec, p2: Vec)
    requires a <= b && Along(plane, sweep.start) >= Along(plane, sweep.end)
    requires OnTheWay(sweep.start, sweep.end, a, p1) && OnTheWay(sweep.start, sweep.end, b, p2)
    ensures Distance(plane, p1) >= Distance(plane, p2)
  {
    LaterIsLower(Along(plane, sweep.start), Along(plane, sweep.end), a, b);
  }

  lemma LaterIsLower(x: real, y: real, a: real, b: real)
    requires a <= b && x >= y
    ensures x + a * (y - x) >= x + b * (y - x)
  {
    var w := b - a;
    Product(w, x - y);
    assert w * (x - y) == a * (y - x) - b * (y - x);
  }

  lemma PointsOnTheirSide(plane: Plane, sweep: Sweep, a: real, b: real, s: real, e: Vec, p1: Vec, p2: Vec, q: Vec)
    requires a <= s <= b && StepFits(plane, sweep, e)
    requires OnTheWay(sweep.start, sweep.end, a, p1) && OnTheWay(sweep.start, sweep.end, b, p2)
    requires OnTheWay(sweep.start, sweep.end, s, q)
    ensures OnItsSide(Distance(plane, p1), Distance(plane, p2), Offset(sweep.extents, sweep.isPoint, plane), a, b, s,
                      Distance(plane, q.Plus(e)))
  {
    DistanceAffine(plane, sweep.start, sweep.end, a, b, s, e, p1, p2, q);
    StretchOnSide(Distance(plane, p1), Distance(plane, p2), Offset(sweep.extents, sweep.isPoint, plane), a, b, s,
                  Along(plane, e), Distance(plane, q.Plus(e)));
  }

  /** A distance that changes evenly over a stretch, up to a shift. */
  ghost predicate Affine(t1: real, t2: real, a: real, b: real, s: real, shift: real, d: real) {
    forall u :: s == Between(a, b, u) ==> d == t1 - u * (t1 - t2) + shift
  }

  lemma DistanceAffine(plane: Plane, start: Vec, end: Vec, a: real, b: real, s: real, e: Vec, p1: Vec, p2: Vec, q: Vec)
    requires OnTheWay(start, end, a, p1) && OnTheWay(start, end, b, p2) && OnTheWay(start, end, s, q)
    ensures Affine(Distance(plane, p1), Distance(plane, p2), a, b, s, Along(plane, e), Distance(plane, q.Plus(e)))
  {
    forall u | s == Between(a, b, u)
      ensures Distance(plane, q.Plus(e))
           == Distance(plane, p1) - u * (Distance(plane, p1) - Distance(plane, p2)) + Along(plane, e)
    {
      DistanceOnStretch(plane, start, end, a, b, u, e, p1, p2, q);
    }
  }

  lemma StretchOnSide(t1: real, t2: real, offset: real, a: real, b: real, s: real, shift: real, d: real)
    requires a <= s <= b && -offset <= shift <= offset
    requires Affine(t1, t2, a, b, s, shift, d)
    ensures OnItsSide(t1, t2, offset, a, b, s, d)
  {
    var u := PartOfStretch(a, b, s);
    StretchCovers(t1, t2, offset, a, b, s, u, shift, d);
  }

  lemma CoveredOneSide(nodes: seq<Node>, leafs: nat, rank: seq<nat>, sweep: Sweep, num: int, a: real, b: real,
                       p1: Vec, p2: Vec, visited: set<nat>, fraction: real)
    requires IsTree(nodes, leafs, rank) && 0 <= num < |nodes|
    requires OnTheWay(sweep.start, sweep.end, a, p1) && OnTheWay(sweep.start, sweep.end, b, p2)
    requires IsNumber(nodes[num].front, leafs, rank) && IsNumber(nodes[num].back, leafs, rank)
    requires var plane, offset := nodes[num].plane, Offset(sweep.extents, sweep.isPoint, nodes[num].plane);
             var t1, t2 := Distance(plane, p1), Distance(plane, p2);
             || (t1 >= offset + 1.0 && t2 >= offset + 1.0
                 && Covered(nodes, leafs, rank, sweep, nodes[num].front, a, b, visited, fraction))
             || (t1 < -offset - 1.0 && t2 < -offset - 1.0
                 && Covered(nodes, leafs, rank, sweep, nodes[num].back, a, b, visited, fraction))
    ensures Covered(nodes, leafs, rank, sweep, num, a, b, visited, fraction)
  {
    forall s, e | a <= s <= b && s < fraction && InReach(nodes, sweep, e)
                  && ClearOf(nodes, leafs, rank, sweep, num, PointAt(sweep, s, e))
      ensures LeafOf(nodes, leafs, rank, num, PointAt(sweep, s, e)) in visited
    {
      PositionOnTheWay(sweep.start, sweep.end, s);
      if Along(nodes[num].plane, sweep.start) >= Along(nodes[num].plane, sweep.end) {
        FrontFirst(nodes[num].plane, sweep, a, b, p1, p2);
      }
      PointsOnTheirSide(nodes[num].plane, sweep, a, b, s, e, p1, p2, Position(sweep.start, sweep.end, s));
    }
  }

  // ---------------------------------------------------------------------------------------------
  // The world

  /** A leaf's brushes are a stretch of the list of brush numbers; a count of -1 stands for none. */
  datatype Leaf = Leaf(firstLeafBrush: nat, numLeafBrushes: int)

  /** The brushes that concern a sweep have the normals for which distances are those of points. */
  ghost predicate ExactFor(brushes: seq<Brush>, contents: bv32, shape: Shape) {
    forall b :: 0 <= b < |brushes| && Concerns(contents, brushes[b]) ==> AllExact(shape, brushes[b])
  }

  /** Only brushes that concern a sweep stop it, or make its start or all of it solid. */
  ghost predicate BlamedOn(brushes: seq<Brush>, contents: bv32, now: Trace, start: Vec, end: Vec, shape: Shape) {
    ExactFor(brushes, contents, shape) ==>
      && (now.startsolid ==>
            exists b :: 0 <= b < |brushes| && Concerns(contents, brushes[b]) && SolidAt(shape, brushes[b], start))
      && (now.allsolid ==>
            exists b :: 0 <= b < |brushes| && Concerns(contents, brushes[b])
                        && SolidAt(shape, brushes[b], start) && SolidAt(shape, brushes[b], end))
      && (now.fraction < 1.0 ==>
            exists b :: 0 <= b < |brushes| && Concerns(contents, brushes[b])
                        && StoppedBy(now, start, end, shape, brushes[b]))
  }

  /** Every marked brush that concerns a sweep is clear before the fraction, unless the start is solid. */
  ghost predicate TestedOn(brushes: seq<Brush>, marks: seq<int>, mark: int, contents: bv32, now: Trace,
                           start: Vec, end: Vec, shape: Shape)
    requires |marks| == |brushes|
  {
    forall i :: 0 <= i < |brushes| && marks[i] == mark && Concerns(contents, brushes[i]) ==>
      now.startsolid || OutsideUntil(Passes(start, end, shape, brushes[i]), now.fraction)
  }

  lemma TestedMore(brushes: seq<Brush>, marks: seq<int>, mark: int, contents: bv32, was: Trace, now: Trace,
                   start: Vec, end: Vec, shape: Shape, b: nat)
    requires |marks| == |brushes| && b < |brushes|
    requires TestedOn(brushes, marks, mark, contents, was, start, end, shape)
    requires Traced(was, now, Passes(start, end, shape, brushes[b]), brushes[b])
    ensures TestedOn(brushes, marks[b := mark], mark, contents, now, start, end, shape)
  {
  }

  lemma TestedSkipped(brushes: seq<Brush>, marks: seq<int>, mark: int, contents: bv32, now: Trace,
                      start: Vec, end: Vec, shape: Shape, b: nat)
    requires |marks| == |brushes| && b < |brushes| && !Concerns(contents, brushes[b])
    requires TestedOn(brushes, marks, mark, contents, now, start, end, shape)
    ensures TestedOn(brushes, marks[b := mark], mark, contents, now, start, end, shape)
  {
  }

  lemma BlamedMore(brushes: seq<Brush>, contents: bv32, was: Trace, now: Trace, start: Vec, end: Vec, shape: Shape,
                   b: nat)
    requires b < |brushes| && Concerns(contents, brushes[b])
    requires AllExact(shape, brushes[b]) ==> TracedPoints(was, now, start, end, shape, brushes[b])
    requires now.fraction <= was.fraction && BlamedOn(brushes, contents, was, start, end, shape)
    ensures BlamedOn(brushes, contents, now, start, end, shape)
  {
    if ExactFor(brushes, contents, shape) && now.fraction < 1.0 {
      if now.fraction < was.fraction {
        assert StoppedBy(now, start, end, shape, brushes[b]);
      } else {
        var b0 :| 0 <= b0 < |brushes| && Concerns(contents, brushes[b0])
                  && StoppedBy(was, start, end, shape, brushes[b0]);
        assert StoppedBy(now, start, end, shape, brushes[b0]);
      }
    }
  }

  class CollisionWorld {
    const nodes: seq<Node>
    const leafs: seq<Leaf>
    const leafbrushes: seq<nat>
    const brushes: seq<Brush>
    const checkcounts: array<int>
    var checkcount: int

    /** The ranks that order the nodes. */
    ghost const rank: seq<nat>

    /** The leaves that the running sweep has been passed to. */
    ghost var visited: set<nat>

    constructor (nodes: seq<Node>, leafs: seq<Leaf>, leafbrushes: seq<nat>, brushes: seq<Brush>, ghost rank: seq<nat>)
      requires nodes != [] && IsTree(nodes, |leafs|, rank)
      requires forall i :: 0 <= i < |leafs| ==> LeafFits(leafs[i], leafbrushes)
      requires forall i :: 0 <= i < |leafbrushes| ==> leafbrushes[i] < |brushes|
      ensures Valid() && this.nodes == nodes && this.leafs == leafs && this.leafbrushes == leafbrushes
      ensures this.brushes == brushes && fresh(checkcounts)
    {
      this.nodes, this.leafs, this.leafbrushes, this.brushes, this.rank := nodes, leafs, leafbrushes, brushes, rank;
      checkcounts := new int[|brushes|](_ => 0);
      checkcount := 0;
      visited := {};
    }

    ghost predicate Valid()
      reads this, checkcounts
    {
      && nodes != [] && IsTree(nodes, |leafs|, rank)
      && (forall i :: 0 <= i < |leafs| ==> LeafFits(leafs[i], leafbrushes))
      && (forall i :: 0 <= i < |leafbrushes| ==> leafbrushes[i] < |brushes|)
      && checkcounts.Length == |brushes|
      && (forall i :: 0 <= i < checkcounts.Length ==> checkcounts[i] <= checkcount)
    }

    /** Every marked brush that concerns the sweep is clear before the fraction, unless the start is solid. */
    ghost predicate Tested(tw: TraceWork)
      requires checkcounts.Length == |brushes|
      reads this, checkcounts, tw
    {
      TestedOn(brushes, checkcounts[..], checkcount, tw.contents, tw.Now(), tw.start, tw.end, tw.shape)
    }

    /** Only brushes that concern the sweep stop it, or make its start or all of it solid. */
    ghost predicate Blamed(tw: TraceWork)
      reads tw
    {
      BlamedOn(brushes, tw.contents, tw.Now(), tw.start, tw.end, tw.shape)
    }

    /** All brushes of the leaf have the current mark. */
    ghost predicate Marked(leaf: nat)
      requires Valid() && leaf < |leafs|
      reads this, checkcounts
    {
      forall k :: leafs[leaf].firstLeafBrush <= k < leafs[leaf].firstLeafBrush + leafs[leaf].numLeafBrushes ==>
        checkcounts[leafbrushes[k]] == checkcount
    }

    /** The state of a sweep between two leaves. */
    ghost predicate Sweeping(tw: TraceWork)
      reads this, checkcounts, tw
    {
      && Valid() && Tested(tw) && Blamed(tw)
      && 0.0 <= tw.fraction <= 1.0
      && (forall i :: 0 <= i < |brushes| ==> !brushes[i].fence || !tw.isPoint)
      && (forall leaf :: leaf in visited ==> leaf < |leafs| && (tw.fraction == 0.0 || Marked(leaf)))
    }

    /** TraceToLeaf, for the brushes. */
    method TraceToLeaf(tw: TraceWork, leaf: nat)
      requires Sweeping(tw) && leaf < |leafs|
      modifies this`visited, checkcounts, tw
      ensures Sweeping(tw) && tw.fraction <= old(tw.fraction)
      ensures visited == old(visited) + {leaf}
    {
      var first, count := leafs[leaf].firstLeafBrush, leafs[leaf].numLeafBrushes;
      if count != -1 {
        var k := 0;
        while k < count
          invariant 0 <= k <= count
          invariant Sweeping(tw) && tw.fraction <= old(tw.fraction) && visited == old(visited)
          invariant forall i :: first <= i < first + k ==> checkcounts[leafbrushes[i]] == checkcount
        {
          TraceToLeafBrush(tw, leafbrushes[first + k]);
          if tw.fraction == 0.0 {
            break;
          }
          k := k + 1;
        }
      }
      visited := visited + {leaf};
    }

    /** The body of its loop. */
    method TraceToLeafBrush(tw: TraceWork, b: nat)
      requires Sweeping(tw) && b < |brushes|
      modifies checkcounts, tw
      ensures Sweeping(tw) && tw.fraction <= old(tw.fraction)
      ensures checkcounts[b] == checkcount
      ensures forall i :: 0 <= i < checkcounts.Length && old(checkcounts[i]) == checkcount ==>
                checkcounts[i] == checkcount
    {
      if checkcounts[b] == checkcount {
        return;
      }
      ghost var marks := checkcounts[..];
      checkcounts[b] := checkcount;
      assert checkcounts[..] == marks[b := checkcount];
      if brushes[b].contents & tw.contents == 0 {
        TestedSkipped(brushes, marks, checkcount, tw.contents, tw.Now(), tw.start, tw.end, tw.shape, b);
        return;
      }
      ghost var was := tw.Now();
      ClipAt(tw, b);
      TestedMore(brushes, marks, checkcount, tw.contents, was, tw.Now(), tw.start, tw.end, tw.shape, b);
    }

    /** The call of TraceThroughBrush for a brush that concerns the sweep. */
    method ClipAt(tw: TraceWork, b: nat)
      requires b < |brushes| && brushes[b].contents & tw.contents != 0
      requires 0.0 <= tw.fraction <= 1.0 && (!brushes[b].fence || !tw.isPoint) && Blamed(tw)
      modifies tw
      ensures Traced(old(tw.Now()), tw.Now(), Passes(tw.start, tw.end, tw.shape, brushes[b]), brushes[b])
      ensures Blamed(tw)
    {
      ghost var was := tw.Now();
      tw.TraceThroughBrush(brushes[b]);
      if brushes[b].sides != [] {
        BlamedMore(brushes, tw.contents, was, tw.Now(), tw.start, tw.end, tw.shape, b);
      }
    }

    /** The leaves of the clear points of the shape on a stretch have been visited. */
    ghost predicate CoveredBelow(tw: TraceWork, num: int, a: real, b: real)
      requires Valid() && IsNumber(num, |leafs|, rank)
      reads this, checkcounts, tw
    {
      Covered(nodes, |leafs|, rank, SweepOf(tw), num, a, b, visited, tw.fraction)
    }

    /** TraceThroughTree. */
    method TraceThroughTree(tw: TraceWork, num: int, p1f: real, p2f: real, p1: Vec, p2: Vec)
      requires Sweeping(tw) && IsNumber(num, |leafs|, rank)
      requires 0.0 <= p1f <= p2f
      requires p1 == Position(tw.start, tw.end, p1f) && p2 == Position(tw.start, tw.end, p2f)
      modifies this`visited, checkcounts, tw
      ensures Sweeping(tw) && tw.fraction <= old(tw.fraction) && visited >= old(visited)
      ensures CoveredBelow(tw, num, p1f, p2f)
      decreases Rank(num, rank), 1
    {
      if tw.fraction <= p1f {
        return;
      }
      if num < 0 {
        TraceToLeaf(tw, -1 - num);
        return;
      }
      var node := nodes[num];
      var plane := node.plane;
      PositionOnTheWay(tw.start, tw.end, p1f);
      PositionOnTheWay(tw.start, tw.end, p2f);
      assert ChildOf(node.front, num, |leafs|, rank) && ChildOf(node.back, num, |leafs|, rank);
      var t1, t2, offset := NodeDistances(tw, plane, p1, p2);
      if t1 >= offset + 1.0 && t2 >= offset + 1.0 {
        TraceThroughTree(tw, node.front, p1f, p2f, p1, p2);
        CoveredOneSide(nodes, |leafs|, rank, SweepOf(tw), num, p1f, p2f, p1, p2, visited, tw.fraction);
        return;
      }
      if t1 < -offset - 1.0 && t2 < -offset - 1.0 {
        TraceThroughTree(tw, node.back, p1f, p2f, p1, p2);
        CoveredOneSide(nodes, |leafs|, rank, SweepOf(tw), num, p1f, p2f, p1, p2, visited, tw.fraction);
        return;
      }
      TraceBothSides(tw, num, p1f, p2f, p1, p2, t1, t2, offset);
    }

    /** TraceThroughTree, where a sweep comes past a node. */
    method TraceBothSides(tw: TraceWork, num: int, p1f: real, p2f: real, p1: Vec, p2: Vec, t1: real, t2: real,
                          offset: real)
      requires Sweeping(tw) && 0 <= num < |nodes|
      requires 0.0 <= p1f <= p2f
      requires p1 == Position(tw.start, tw.end, p1f) && p2 == Position(tw.start, tw.end, p2f)
      requires t1 == Distance(nodes[num].plane, p1) && t2 == Distance(nodes[num].plane, p2)
      requires offset == Offset(tw.extents, tw.isPoint, nodes[num].plane)
      modifies this`visited, checkcounts, tw
      ensures Sweeping(tw) && tw.fraction <= old(tw.fraction) && visited >= old(visited)
      ensures CoveredBelow(tw, num, p1f, p2f)
      decreases Rank(num, rank), 0
    {
      var node := nodes[num];
      assert ChildOf(node.front, num, |leafs|, rank) && ChildOf(node.back, num, |leafs|, rank);
      var side, frac, frac2 := Cross(t1, t2, offset);
      var midf, mid := Middle(tw.start, tw.end, p1f, p2f, p1, p2, frac);
      TraceThroughTree(tw, if side == 1 then node.back else node.front, p1f, midf, p1, mid);
      ghost var visited1, fraction1 := visited, tw.fraction;
      midf, mid := Middle(tw.start, tw.end, p1f, p2f, p1, p2, frac2);
      TraceThroughTree(tw, if side == 1 then node.front else node.back, midf, p2f, mid, p2);
      PositionOnTheWay(tw.start, tw.end, p1f);
      PositionOnTheWay(tw.start, tw.end, p2f);
      CoveredBoth(nodes, |leafs|, rank, SweepOf(tw), num, p1f, p2f, p1, p2, CrossingOf(t1, t2, offset),
                  visited1, fraction1, visited, tw.fraction);
    }
  }

  function SweepOf(tw: TraceWork): Sweep {
    Sweep(tw.start, tw.end, tw.extents, tw.isPoint)
  }

  /** The distances of the two ends from a node plane, and the margin. */
  method NodeDistances(tw: TraceWork, plane: Plane, p1: Vec, p2: Vec) returns (t1: real, t2: real, offset: real)
    ensures t1 == Distance(plane, p1) && t2 == Distance(plane, p2)
    ensures offset == Offset(tw.extents, tw.isPoint, plane)
  {
    if plane.kind < 3 {
      t1 := p1.Coordinate(plane.kind) - plane.dist;
      t2 := p2.Coordinate(plane.kind) - plane.dist;
      offset := tw.extents.Coordinate(plane.kind);
    } else {
      t1 := Dot(plane.normal, p1) - plane.dist;
      t2 := Dot(plane.normal, p2) - plane.dist;
      offset := if tw.isPoint then 0.0 else 2048.0;
    }
  }

  /** The side to go to first, and the parts of the stretch where the first side's ends and the other's begins. */
  method Cross(t1: real, t2: real, offset: real) returns (side: nat, frac: real, frac2: real)
    ensures CrossingOf(t1, t2, offset) == Crossing(side == 1, frac, frac2)
    ensures 0.0 <= frac <= 1.0 && 0.0 <= frac2 <= 1.0
  {
    if t1 < t2 {
      var idist := 1.0 / (t1 - t2);
      side := 1;
      frac2 := MoveUp(t1 + offset + EPSILON, idist, t1, t2);
      frac := MoveUp(t1 - offset + EPSILON, idist, t1, t2);
    } else if t1 > t2 {
      var idist := 1.0 / (t1 - t2);
      side := 0;
      frac2 := MoveUp(t1 - offset - EPSILON, idist, t1, t2);
      frac := MoveUp(t1 + offset + EPSILON, idist, t1, t2);
    } else {
      side, frac, frac2 := 0, 1.0, 0.0;
    }
  }

  /** A part, and the two conditional assignments that keep it between 0 and 1. */
  method MoveUp(a: real, idist: real, ghost t1: real, ghost t2: real) returns (frac: real)
    requires t1 != t2 && idist == 1.0 / (t1 - t2)
    ensures frac == Part(a, t1, t2) && 0.0 <= frac <= 1.0
  {
    frac := a * idist;
    if frac < 0.0 {
      frac := 0.0;
    }
    if frac > 1.0 {
      frac := 1.0;
    }
  }

  /** The point at a part of a stretch. */
  method Middle(ghost start: Vec, ghost end: Vec, p1f: real, p2f: real, p1: Vec, p2: Vec, frac: real)
    returns (midf: real, mid: Vec)
    requires p1f <= p2f && 0.0 <= frac <= 1.0
    requires p1 == Position(start, end, p1f) && p2 == Position(start, end, p2f)
    ensures midf == Between(p1f, p2f, frac) && p1f <= midf <= p2f
    ensures mid == Position(start, end, midf)
  {
    midf := p1f + (p2f - p1f) * frac;
    mid := Vec(p1.x + frac * (p2.x - p1.x), p1.y + frac * (p2.y - p1.y), p1.z + frac * (p2.z - p1.z));
    BetweenStays(p1f, p2f, frac);
    PositionBetween(start, end, p1f, p2f, frac, p1, p2);
  }

  predicate LeafFits(leaf: Leaf, leafbrushes: seq<nat>) {
    leaf.numLeafBrushes >= -1 && leaf.firstLeafBrush + leaf.numLeafBrushes <= |leafbrushes|
  }

  predicate Concerns(contents: bv32, brush: Brush) {
    brush.contents & contents != 0 && brush.sides != []
  }

  // ---------------------------------------------------------------------------------------------
  // A whole trace

  /** The world's brushes in a leaf that concern a sweep and have the normals that it counts on. */
  ghost predicate InLeaf(world: CollisionWorld, leaf: nat, contents: bv32, shape: Shape, b: nat)
    requires leaf < |world.leafs| && LeafFits(world.leafs[leaf], world.leafbrushes)
  {
    && b < |world.brushes| && Concerns(contents, world.brushes[b]) && NormalsFit(shape, world.brushes[b])
    && exists k :: world.leafs[leaf].firstLeafBrush <= k
                     < world.leafs[leaf].firstLeafBrush + world.leafs[leaf].numLeafBrushes
                   && world.leafbrushes[k] == b
  }

  /** A point of the shape on the way, within the margins of the node planes and not just behind one of them. */
  ghost predicate Swept(world: CollisionWorld, tw: TraceWork, s: real, e: Vec)
    requires IsTree(world.nodes, |world.leafs|, world.rank) && IsNumber(0, |world.leafs|, world.rank)
    reads tw
  {
    && 0.0 <= s < tw.fraction
    && InShape(tw.shape, e) && InReach(world.nodes, SweepOf(tw), e)
    && ClearOf(world.nodes, |world.leafs|, world.rank, SweepOf(tw), 0, PointAt(SweepOf(tw), s, e))
  }

  /** At the end of a sweep through the whole tree: no swept point is in a brush of its leaf, or the start is solid. */
  lemma NoTunnel(world: CollisionWorld, tw: TraceWork, s: real, e: Vec, b: nat)
    requires world.Sweeping(tw) && IsNumber(0, |world.leafs|, world.rank) && world.CoveredBelow(tw, 0, 0.0, 1.0)
    requires !tw.startsolid && Swept(world, tw, s, e)
    requires InLeaf(world, LeafOf(world.nodes, |world.leafs|, world.rank, 0, PointAt(SweepOf(tw), s, e)),
                    tw.contents, tw.shape, b)
    ensures !DeepInside(world.brushes[b], PointAt(SweepOf(tw), s, e))
  {
    var leaf := LeafOf(world.nodes, |world.leafs|, world.rank, 0, PointAt(SweepOf(tw), s, e));
    assert leaf in world.visited;
    assert world.Marked(leaf);
    assert world.checkcounts[..][b] == world.checkcount;
    var passes := Passes(tw.start, tw.end, tw.shape, world.brushes[b]);
    assert OutsideUntil(passes, tw.fraction);
    assert Outside(passes, s);
    OutsideMeans(tw.start, tw.end, tw.shape, world.brushes[b], s, e);
  }

  /** The shape of a sweep from its half size. */
  function ShapeOf(size: Vec, cylinder: bool): Shape {
    if cylinder then
      var radius := if size.x > size.z then size.z else size.x;
      Capsule(Vec(0.0, 0.0, size.z - radius), radius)
    else Box(size)
  }

  // ---------------------------------------------------------------------------------------------
  // When the margins of the node planes are wide enough for a shape

  /** Half the size of the smallest box around a shape of a sweep. */
  function Hull(shape: Shape): Vec {
    match shape
    case Box(size) => size
    case Capsule(offset, radius) => Vec(radius, radius, offset.z + radius)
  }

  /** How far a box of this half size reaches along a plane's normal. */
  function Width(plane: Plane, size: Vec): real {
    if plane.kind < 3 then size.Coordinate(plane.kind)
    else Abs(plane.normal.x) * size.x + Abs(plane.normal.y) * size.y + Abs(plane.normal.z) * size.z
  }

  /** At every node plane, the margin is as wide as the box around the shape. */
  predicate Roomy(nodes: seq<Node>, sweep: Sweep, shape: Shape) {
    forall i :: 0 <= i < |nodes| ==>
      Width(nodes[i].plane, Hull(shape)) <= Offset(sweep.extents, sweep.isPoint, nodes[i].plane)
  }

  lemma TermBounds(n: real, x: real, size: real)
    requires -size <= x <= size
    ensures -(Abs(n) * size) <= n * x <= Abs(n) * size
  {
    Product(Abs(n), size - x);
    Product(Abs(n), size + x);
    assert Abs(n) * (size - x) == Abs(n) * size - Abs(n) * x;
    assert Abs(n) * (size + x) == Abs(n) * size + Abs(n) * x;
    assert n < 0.0 ==> n * x == -(Abs(n) * x);
  }

  lemma WidthBounds(plane: Plane, size: Vec, e: Vec)
    requires InBox(e, Vec(-size.x, -size.y, -size.z), size)
    ensures -Width(plane, size) <= Along(plane, e) <= Width(plane, size)
  {
    if plane.kind >= 3 {
      DotBounds(plane.normal, size, e);
    }
  }

  lemma DotBounds(n: Vec, size: Vec, e: Vec)
    requires -size.x <= e.x <= size.x && -size.y <= e.y <= size.y && -size.z <= e.z <= size.z
    ensures var width := Abs(n.x) * size.x + Abs(n.y) * size.y + Abs(n.z) * size.z;
            -width <= Dot(n, e) <= width
  {
    TermBounds(n.x, e.x, size.x);
    TermBounds(n.y, e.y, size.y);
    TermBounds(n.z, e.z, size.z);
    SumBounds(n.x * e.x, n.y * e.y, n.z * e.z, Abs(n.x) * size.x, Abs(n.y) * size.y, Abs(n.z) * size.z);
  }

  lemma SumBounds(a: real, b: real, c: real, x: real, y: real, z: real)
    requires -x <= a <= x && -y <= b <= y && -z <= c <= z
    ensures -(x + y + z) <= a + b + c <= x + y + z
  {
  }

  /** A corner of the box reaches as far as that. */
  function FarthestCorner(plane: Plane, size: Vec): (e: Vec)
    requires size.x >= 0.0 && size.y >= 0.0 && size.z >= 0.0
    ensures InBox(e, Vec(-size.x, -size.y, -size.z), size)
    ensures Along(plane, e) == Width(plane, size)
  {
    var n := plane.normal;
    if plane.kind < 3 then size
    else Vec(if n.x < 0.0 then -size.x else size.x, if n.y < 0.0 then -size.y else size.y,
             if n.z < 0.0 then -size.z else size.z)
  }

  lemma OneOfThree(x: real, y: real, z: real, radius: real)
    requires radius >= 0.0 && x * x + y * y + z * z <= radius * radius
    ensures -radius <= x <= radius
  {
    NoNegativeSquare(y);
    NoNegativeSquare(z);
    SquareBounds(x, radius);
  }

  lemma NoNegativeSquare(x: real)
    ensures x * x >= 0.0
  {
    Product(x, x);
    Product(-x, -x);
  }

  lemma CoordinateInBall(r: Vec, radius: real)
    requires radius >= 0.0 && Dot(r, r) <= radius * radius
    ensures InBox(r, Vec(-radius, -radius, -radius), Vec(radius, radius, radius))
  {
    OneOfThree(r.x, r.y, r.z, radius);
    OneOfThree(r.y, r.x, r.z, radius);
    OneOfThree(r.z, r.x, r.y, radius);
  }

  /** A part of a number is not larger. */
  lemma PartBounds(l: real, h: real, part: real)
    requires -1.0 <= l <= 1.0 && h >= 0.0 && part == l * h
    ensures -h <= part <= h
  {
    Product(1.0 - l, h);
    Product(1.0 + l, h);
  }

  /** The shape is in the box around it. */
  lemma ShapeInHull(shape: Shape, e: Vec)
    requires InShape(shape, e)
    requires shape.Capsule? ==> shape.offset.x == 0.0 == shape.offset.y && shape.offset.z >= 0.0
    ensures InBox(e, Vec(-Hull(shape).x, -Hull(shape).y, -Hull(shape).z), Hull(shape))
  {
    if shape.Capsule? {
      var l, r :| InCapsule(shape.offset, shape.radius, l, r, e);
      CapsuleInHull(shape.offset, shape.radius, l, r, e);
    }
  }

  lemma InBoxAround(part: Vec, h: real, r: Vec, radius: real, e: Vec)
    requires part.x == 0.0 == part.y && -h <= part.z <= h && e == part.Plus(r)
    requires InBox(r, Vec(-radius, -radius, -radius), Vec(radius, radius, radius))
    ensures InBox(e, Vec(-radius, -radius, -(h + radius)), Vec(radius, radius, h + radius))
  {
  }

  lemma CapsuleInHull(offset: Vec, radius: real, l: real, r: Vec, e: Vec)
    requires InCapsule(offset, radius, l, r, e) && offset.x == 0.0 == offset.y && offset.z >= 0.0
    ensures InBox(e, Vec(-radius, -radius, -(offset.z + radius)), Vec(radius, radius, offset.z + radius))
  {
    CoordinateInBall(r, radius);
    var part := Times(l, offset);
    PartBounds(l, offset.z, part.z);
    InBoxAround(part, offset.z, r, radius, e);
  }

  /** With that room, every point of the shape is within the margins. */
  lemma RoomyReaches(nodes: seq<Node>, sweep: Sweep, shape: Shape, e: Vec)
    requires Roomy(nodes, sweep, shape) && InShape(shape, e)
    requires shape.Capsule? ==> shape.offset.x == 0.0 == shape.offset.y && shape.offset.z >= 0.0
    ensures InReach(nodes, sweep, e)
  {
    ShapeInHull(shape, e);
    forall i | 0 <= i < |nodes|
      ensures StepFits(nodes[i].plane, sweep, e)
    {
      WidthBounds(nodes[i].plane, Hull(shape), e);
    }
  }

  /** All points of a box are within the margins if and only if there is that room. */
  lemma BoxReachesExactlyWhen(nodes: seq<Node>, sweep: Sweep, size: Vec)
    requires size.x >= 0.0 && size.y >= 0.0 && size.z >= 0.0
    ensures (forall e :: InShape(Box(size), e) ==> InReach(nodes, sweep, e)) <==> Roomy(nodes, sweep, Box(size))
  {
    if Roomy(nodes, sweep, Box(size)) {
      forall e | InShape(Box(size), e)
        ensures InReach(nodes, sweep, e)
      {
        RoomyReaches(nodes, sweep, Box(size), e);
      }
    } else {
      var i :| 0 <= i < |nodes|
               && Width(nodes[i].plane, size) > Offset(sweep.extents, sweep.isPoint, nodes[i].plane);
      var e := FarthestCorner(nodes[i].plane, size);
      assert InShape(Box(size), e) && !StepFits(nodes[i].plane, sweep, e);
    }
  }

  /** A capsule that is wider than the margin of an axial plane has a point beyond it. */
  lemma CapsuleBeyond(nodes: seq<Node>, sweep: Sweep, offset: Vec, radius: real, i: nat) returns (e: Vec)
    requires i < |nodes| && nodes[i].plane.kind < 3 && radius >= 0.0 && offset.x == 0.0 == offset.y
    requires Width(nodes[i].plane, Hull(Capsule(offset, radius)))
           > Offset(sweep.extents, sweep.isPoint, nodes[i].plane)
    ensures InShape(Capsule(offset, radius), e) && !InReach(nodes, sweep, e)
  {
    var kind := nodes[i].plane.kind;
    var r := if kind == 0 then Vec(radius, 0.0, 0.0) else if kind == 1 then Vec(0.0, radius, 0.0)
             else Vec(0.0, 0.0, radius);
    e := Times(1.0, offset).Plus(r);
    assert InCapsule(offset, radius, 1.0, r, e);
    assert !StepFits(nodes[i].plane, sweep, e);
  }

  /**
   * What a caller can check: no other node plane than an axial one is wider than 2048 for the shape, and a
   * capsule's radius, the smaller one of the half sizes along x and z, is not larger than the one along y.
   */
  predicate HasMargins(nodes: seq<Node>, size: Vec, cylinder: bool) {
    && (cylinder ==> (if size.x > size.z then size.z else size.x) <= size.y)
    && forall i :: 0 <= i < |nodes| && nodes[i].plane.kind >= 3 ==>
         Width(nodes[i].plane, Hull(ShapeOf(size, cylinder))) <= 2048.0
  }

  lemma CallersRoom(nodes: seq<Node>, sweep: Sweep, size: Vec, cylinder: bool)
    requires sweep.isPoint <==> size == ORIGIN
    requires sweep.extents == size && HasMargins(nodes, size, cylinder)
    ensures Roomy(nodes, sweep, ShapeOf(size, cylinder))
  {
    if size == ORIGIN {
      forall i | 0 <= i < |nodes|
        ensures Width(nodes[i].plane, Hull(ShapeOf(size, cylinder))) <= 0.0
      {
        NoWidth(nodes[i].plane);
      }
    }
  }

  lemma NoWidth(plane: Plane)
    ensures Width(plane, ORIGIN) == 0.0
  {
  }

  function CenterOf(mins: Vec, maxs: Vec): Vec {
    Vec((mins.x + maxs.x) * 0.5, (mins.y + maxs.y) * 0.5, (mins.z + maxs.z) * 0.5)
  }

  function HalfSize(mins: Vec, maxs: Vec): Vec {
    var center := CenterOf(mins, maxs);
    Vec(maxs.x - center.x, maxs.y - center.y, maxs.z - center.z)
  }

  lemma NoSize(mins: Vec, maxs: Vec, size0: Vec)
    requires var center := CenterOf(mins, maxs);
             size0 == Vec(mins.x - center.x, mins.y - center.y, mins.z - center.z)
    ensures size0 == ORIGIN <==> mins == maxs
    ensures HalfSize(mins, maxs) == ORIGIN <==> mins == maxs
  {
  }

  /**
   * A part of the sweep at which a point of the shape, not just behind a node plane, is in the shrunk part of
   * a brush that its leaf has for the mask.
   */
  ghost predicate Tunnels(world: CollisionWorld, sweep: Sweep, shape: Shape, contents: bv32, s: real, e: Vec, b: nat)
    requires IsTree(world.nodes, |world.leafs|, world.rank) && IsNumber(0, |world.leafs|, world.rank)
    requires forall i :: 0 <= i < |world.leafs| ==> LeafFits(world.leafs[i], world.leafbrushes)
  {
    && InShape(shape, e)
    && ClearOf(world.nodes, |world.leafs|, world.rank, sweep, 0, PointAt(sweep, s, e))
    && InLeaf(world, LeafOf(world.nodes, |world.leafs|, world.rank, 0, PointAt(sweep, s, e)), contents, shape, b)
    && DeepInside(world.brushes[b], PointAt(sweep, s, e))
  }

  /** Where a trace ends. */
  method EndPosition(start: Vec, end: Vec, fraction: real) returns (endpos: Vec)
    ensures endpos == if fraction == 1.0 then end else Position(start, end, fraction)
  {
    if fraction == 1.0 {
      endpos := end;
    } else {
      endpos := Vec(start.x + fraction * (end.x - start.x), start.y + fraction * (end.y - start.y),
                    start.z + fraction * (end.z - start.z));
    }
  }

  /** No swept point is in a brush of its leaf, or the start is solid. */
  ghost predicate Cleared(world: CollisionWorld, tw: TraceWork)
    requires IsTree(world.nodes, |world.leafs|, world.rank) && IsNumber(0, |world.leafs|, world.rank)
    requires forall i :: 0 <= i < |world.leafs| ==> LeafFits(world.leafs[i], world.leafbrushes)
    reads tw
  {
    !tw.startsolid ==>
      forall s, e, b: nat ::
        Swept(world, tw, s, e)
        && InLeaf(world, LeafOf(world.nodes, |world.leafs|, world.rank, 0, PointAt(SweepOf(tw), s, e)),
                  tw.contents, tw.shape, b)
        ==> !DeepInside(world.brushes[b], PointAt(SweepOf(tw), s, e))
  }

  /** The general sweep of BoxTrace through the world. */
  method SweepWorld(world: CollisionWorld, tw: TraceWork)
    requires world.Valid() && tw.fraction == 1.0 && !tw.startsolid && !tw.allsolid
    requires forall i :: 0 <= i < |world.brushes| ==> !world.brushes[i].fence || !tw.isPoint
    modifies world, world.checkcounts, tw
    ensures world.Valid() && 0.0 <= tw.fraction <= 1.0 && world.Blamed(tw) && Cleared(world, tw)
  {
    world.checkcount := world.checkcount + 1;
    world.visited := {};
    Ends(tw.start, tw.end);
    assert IsNumber(0, |world.leafs|, world.rank);
    world.TraceThroughTree(tw, 0, 0.0, 1.0, tw.start, tw.end);
    if !tw.startsolid {
      forall s, e, b: nat
        | Swept(world, tw, s, e)
          && InLeaf(world, LeafOf(world.nodes, |world.leafs|, world.rank, 0, PointAt(SweepOf(tw), s, e)),
                    tw.contents, tw.shape, b)
        ensures !DeepInside(world.brushes[b], PointAt(SweepOf(tw), s, e))
      {
        NoTunnel(world, tw, s, e, b);
      }
    }
  }

  /** With the margins that a caller can check, no point of the shape tunnels before the fraction. */
  lemma NothingTunnels(world: CollisionWorld, tw: TraceWork, size: Vec, cylinder: bool, s: real, e: Vec, b: nat)
    requires world.Valid() && IsNumber(0, |world.leafs|, world.rank) && Cleared(world, tw) && !tw.startsolid
    requires tw.shape == ShapeOf(size, cylinder) && tw.extents == size && (tw.isPoint <==> size == ORIGIN)
    requires HasMargins(world.nodes, size, cylinder) && 0.0 <= s < tw.fraction
    ensures !Tunnels(world, SweepOf(tw), tw.shape, tw.contents, s, e, b)
  {
    CallersRoom(world.nodes, SweepOf(tw), size, cylinder);
    if InShape(tw.shape, e)
       && ClearOf(world.nodes, |world.leafs|, world.rank, SweepOf(tw), 0, PointAt(SweepOf(tw), s, e)) {
      RoomyReaches(world.nodes, SweepOf(tw), tw.shape, e);
      assert Swept(world, tw, s, e);
    }
  }

  /**
   * BoxTrace through the world, between two different positions. With the margins that a caller can check,
   * nothing of the box or capsule tunnels before the fraction, unless the start is solid; and only a brush
   * that concerns the trace and touches the shape stops it.
   */
  method BoxTrace(world: CollisionWorld, start: Vec, end: Vec, mins: Vec, maxs: Vec, brushmask: bv32, cylinder: bool)
    returns (tw: TraceWork, endpos: Vec)
    requires world.Valid() && start != end
    requires forall i :: 0 <= i < |world.brushes| ==> !world.brushes[i].fence || mins != maxs
    modifies world, world.checkcounts
    ensures fresh(tw) && world.Valid() && 0.0 <= tw.fraction <= 1.0
    ensures var center, size := CenterOf(mins, maxs), HalfSize(mins, maxs);
            && tw.start == start.Plus(center) && tw.end == end.Plus(center) && tw.contents == brushmask
            && tw.shape == ShapeOf(size, cylinder) && tw.extents == size
    ensures tw.isPoint <==> mins == maxs
    ensures var center, size := CenterOf(mins, maxs), HalfSize(mins, maxs);
            var sweep := Sweep(start.Plus(center), end.Plus(center), size, mins == maxs);
            HasMargins(world.nodes, size, cylinder) && !tw.startsolid ==>
              forall s, e, b: nat :: 0.0 <= s < tw.fraction ==>
                !Tunnels(world, sweep, ShapeOf(size, cylinder), brushmask, s, e, b)
    ensures world.Blamed(tw) && Cleared(world, tw)
    ensures endpos == if tw.fraction == 1.0 then end else Position(start, end, tw.fraction)
  {
    var offset := Vec((mins.x + maxs.x) * 0.5, (mins.y + maxs.y) * 0.5, (mins.z + maxs.z) * 0.5);
    var size0 := Vec(mins.x - offset.x, mins.y - offset.y, mins.z - offset.z);
    var size1 := Vec(maxs.x - offset.x, maxs.y - offset.y, maxs.z - offset.z);
    var isPoint := size0.x == 0.0 && size0.y == 0.0 && size0.z == 0.0;
    NoSize(mins, maxs, size0);
    tw := new TraceWork(start.Plus(offset), end.Plus(offset), ShapeOf(size1, cylinder),
                        if isPoint then ORIGIN else size1, isPoint, brushmask);
    SweepWorld(world, tw);
    assert SweepOf(tw) == Sweep(start.Plus(offset), end.Plus(offset), size1, mins == maxs);
    if HasMargins(world.nodes, size1, cylinder) && !tw.startsolid {
      forall s, e, b: nat | 0.0 <= s < tw.fraction
        ensures !Tunnels(world, SweepOf(tw), tw.shape, brushmask, s, e, b)
      {
        NothingTunnels(world, tw, size1, cylinder, s, e, b);
      }
    }
    endpos := EndPosition(start, end, tw.fraction);
  }

  lemma Ends(start: Vec, end: Vec)
    ensures Position(start, end, 0.0) == start && Position(start, end, 1.0) == end
  {
    EndOf(start.x, end.x);
    EndOf(start.y, end.y);
    EndOf(start.z, end.z);
  }

  lemma EndOf(x: real, y: real)
    ensures x + 0.0 * (y - x) == x && x + 1.0 * (y - x) == y
  {
  }
}
