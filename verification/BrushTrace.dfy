/** A sweep clipped against one convex brush (Utility/Collision/Collision.cpp). */
module BrushTrace {
  import opened Geometry
  import opened LeafListing

  const EPSILON: real := 0.125

  // ---------------------------------------------------------------------------------------------
  // One side

  /** How far in front of a side's plane a sweep is at its start and at its end. */
  datatype Pass = Pass(d1: real, d2: real)
  {
    /** The distance at a part of the way. */
    function At(s: real): real {
      d1 + s * (d2 - d1)
    }

    predicate Inside() {
      d1 <= 0.0 && d2 <= 0.0
    }

    /** In front of the plane, or leaving it, all the way. */
    predicate InFront() {
      d1 > 0.0 && (d2 >= EPSILON || d2 >= d1)
    }

    predicate Enters() {
      !Inside() && !InFront() && d1 > d2
    }

    predicate Leaves() {
      !Inside() && !InFront() && d1 <= d2
    }

    /** Where the sweep comes within the tolerance of the plane. */
    function EnterAt(): real
      requires Enters()
    {
      var f := (d1 - EPSILON) / (d1 - d2);
      if f < 0.0 then 0.0 else f
    }

    /** Where it comes out, up to the tolerance. */
    function LeaveAt(): real
      requires Leaves()
    {
      var f := (d1 + EPSILON) / (d1 - d2);
      if f > 1.0 then 1.0 else f
    }
  }

  lemma Quotient(a: real, b: real, s: real)
    requires b > 0.0
    ensures s < a / b <==> s * b < a
    ensures s == a / b <==> s * b == a
  {
    var q := a / b;
    assert q * b == a;
    if s < q {
      assert (q - s) * b > 0.0;
    } else if s > q {
      assert (s - q) * b > 0.0;
    }
  }

  lemma NegativeQuotient(a: real, b: real, s: real)
    requires b < 0.0
    ensures a / b < s <==> s * b < a
  {
    var q := a / b;
    assert q * b == a;
    if q < s {
      assert (s - q) * b < 0.0;
    } else if s < q {
      assert (q - s) * b < 0.0;
    }
  }

  lemma AtFalls(p: Pass, s: real, b: real)
    requires b == p.d1 - p.d2
    ensures p.At(s) == p.d1 - s * b
  {
  }

  lemma EnterTells(p: Pass, s: real)
    requires p.Enters()
    ensures 0.0 <= p.EnterAt() < 1.0
    ensures 0.0 <= s < p.EnterAt() ==> p.At(s) > EPSILON
    ensures s >= p.EnterAt() ==> p.At(s) <= EPSILON
    ensures s == p.EnterAt() && s > 0.0 ==> p.At(s) == EPSILON
  {
    var a, b := p.d1 - EPSILON, p.d1 - p.d2;
    AtFalls(p, s, b);
    Quotient(a, b, s);
    Quotient(a, b, 1.0);
    Quotient(a, b, 0.0);
  }

  lemma LeaveTells(p: Pass, s: real)
    requires p.Leaves()
    ensures p.d1 <= 0.0 < p.d2
    ensures p.LeaveAt() < s <= 1.0 ==> p.At(s) > -EPSILON
    ensures s <= p.LeaveAt() ==> p.At(s) <= -EPSILON
  {
    var a, b := p.d1 + EPSILON, p.d1 - p.d2;
    AtFalls(p, s, b);
    NegativeQuotient(a, b, s);
  }

  lemma Product(a: real, b: real)
    ensures a >= 0.0 && b >= 0.0 ==> a * b >= 0.0
    ensures a > 0.0 && b > 0.0 ==> a * b > 0.0
    ensures a * -b == -(a * b)
  {
  }

  lemma InFrontTells(p: Pass, s: real)
    requires p.InFront() && 0.0 <= s <= 1.0
    ensures p.At(s) > 0.0
  {
    assert p.At(s) == (1.0 - s) * p.d1 + s * p.d2;
    Product(1.0 - s, p.d1);
    Product(s, p.d2);
  }

  lemma InsideTells(p: Pass, s: real)
    requires p.Inside() && 0.0 <= s <= 1.0
    ensures p.At(s) <= 0.0
  {
    assert p.At(s) == (1.0 - s) * p.d1 + s * p.d2;
    Product(1.0 - s, -p.d1);
    Product(s, -p.d2);
  }

  // ---------------------------------------------------------------------------------------------
  // All sides

  /** The start is inside the brush. */
  predicate StartsInside(passes: seq<Pass>) {
    passes != [] && forall k :: 0 <= k < |passes| ==> passes[k].d1 <= 0.0
  }

  predicate EndsInside(passes: seq<Pass>) {
    forall k :: 0 <= k < |passes| ==> passes[k].d2 <= 0.0
  }

  /** Not inside the brush made smaller by the tolerance. */
  ghost predicate Outside(passes: seq<Pass>, s: real) {
    exists k :: 0 <= k < |passes| && passes[k].At(s) > -EPSILON
  }

  ghost predicate OutsideUntil(passes: seq<Pass>, fraction: real) {
    forall s :: 0.0 <= s < fraction ==> Outside(passes, s)
  }

  /** Inside the brush made larger by the tolerance. */
  ghost predicate Touches(passes: seq<Pass>, s: real) {
    forall k :: 0 <= k < |passes| ==> passes[k].At(s) <= EPSILON
  }

  /** What the loop over the sides has found. */
  datatype Clip = Missed | Clip(startout: bool, getout: bool, enterFrac: real, leaveFrac: real, lead: int)

  ghost predicate Clipped(passes: seq<Pass>, clip: Clip) {
    match clip
    case Missed => exists k :: 0 <= k < |passes| && passes[k].InFront()
    case Clip(startout, getout, enterFrac, leaveFrac, lead) =>
      && (forall k :: 0 <= k < |passes| ==> !passes[k].InFront())
      && (startout <==> exists k :: 0 <= k < |passes| && passes[k].d1 > 0.0)
      && (getout <==> exists k :: 0 <= k < |passes| && passes[k].d2 > 0.0)
      && (forall k :: 0 <= k < |passes| && passes[k].Enters() ==> lead >= 0 && passes[k].EnterAt() <= enterFrac)
      && (if lead < 0 then enterFrac == -1.0
          else lead < |passes| && passes[lead].Enters() && enterFrac == passes[lead].EnterAt())
      && (forall k :: 0 <= k < |passes| && passes[k].Leaves() ==> leaveFrac <= passes[k].LeaveAt())
      && (leaveFrac == 1.0
          || (leaveFrac < 1.0
              && exists k :: 0 <= k < |passes| && passes[k].Leaves() && leaveFrac == passes[k].LeaveAt()))
  }

  /** One more side. */
  function NextClip(clip: Clip, pass: Pass, i: nat): Clip
    requires clip.Clip?
  {
    var getout, startout := clip.getout || pass.d2 > 0.0, clip.startout || pass.d1 > 0.0;
    if pass.Inside() then clip
    else if pass.InFront() then Missed
    else if pass.Enters() then
      if pass.EnterAt() > clip.enterFrac then Clip(startout, getout, pass.EnterAt(), clip.leaveFrac, i)
      else Clip(startout, getout, clip.enterFrac, clip.leaveFrac, clip.lead)
    else
      Clip(startout, getout, clip.enterFrac, if pass.LeaveAt() < clip.leaveFrac then pass.LeaveAt() else clip.leaveFrac,
           clip.lead)
  }

  lemma ClippedMore(passes: seq<Pass>, clip: Clip, pass: Pass)
    requires clip.Clip? && Clipped(passes, clip)
    ensures Clipped(passes + [pass], NextClip(clip, pass, |passes|))
  {
    var more, next := passes + [pass], NextClip(clip, pass, |passes|);
    assert forall k :: 0 <= k < |passes| ==> more[k] == passes[k];
    assert more[|passes|] == pass;
    if next.Clip? {
      if clip.leaveFrac != 1.0 {
        var k :| 0 <= k < |passes| && passes[k].Leaves() && clip.leaveFrac == passes[k].LeaveAt();
        assert more[k] == passes[k];
      }
      StartsMore(passes, clip, pass);
    }
  }

  lemma StartsMore(passes: seq<Pass>, clip: Clip, pass: Pass)
    requires clip.Clip? && Clipped(passes, clip)
    ensures var more := passes + [pass];
            && (clip.startout || pass.d1 > 0.0 <==> exists k :: 0 <= k < |more| && more[k].d1 > 0.0)
            && (clip.getout || pass.d2 > 0.0 <==> exists k :: 0 <= k < |more| && more[k].d2 > 0.0)
  {
    var more := passes + [pass];
    assert forall k :: 0 <= k < |passes| ==> more[k] == passes[k];
    assert more[|passes|] == pass;
  }

  /** A sweep that misses, or that does not start inside, is clear up to where it enters all the sides. */
  lemma ClippedClear(passes: seq<Pass>, clip: Clip, s: real)
    requires Clipped(passes, clip) && 0.0 <= s <= 1.0
    requires clip.Clip? ==> clip.startout && (s < clip.enterFrac || clip.enterFrac > clip.leaveFrac)
    ensures Outside(passes, s)
  {
    if clip.Missed? {
      var k :| 0 <= k < |passes| && passes[k].InFront();
      InFrontTells(passes[k], s);
    } else {
      var k :| 0 <= k < |passes| && passes[k].d1 > 0.0;
      assert passes[k].Enters();
      EnterTells(passes[clip.lead], s);
      if s >= clip.enterFrac {
        var j :| 0 <= j < |passes| && passes[j].Leaves() && clip.leaveFrac == passes[j].LeaveAt();
        LeaveTells(passes[j], s);
      }
    }
  }

  /** Where the sweep enters the last of the sides and has not left any, it touches the brush. */
  lemma ClippedTouches(passes: seq<Pass>, clip: Clip)
    requires Clipped(passes, clip) && clip.Clip? && clip.startout && clip.enterFrac <= clip.leaveFrac
    ensures clip.lead >= 0 && 0.0 <= clip.enterFrac < 1.0
    ensures Touches(passes, clip.enterFrac)
    ensures clip.enterFrac == 0.0 || passes[clip.lead].At(clip.enterFrac) == EPSILON
  {
    var k :| 0 <= k < |passes| && passes[k].d1 > 0.0;
    assert passes[k].Enters();
    EnterTells(passes[clip.lead], clip.enterFrac);
    forall k | 0 <= k < |passes|
      ensures passes[k].At(clip.enterFrac) <= EPSILON
    {
      if passes[k].Inside() {
        InsideTells(passes[k], clip.enterFrac);
      } else if passes[k].Enters() {
        EnterTells(passes[k], clip.enterFrac);
      } else {
        assert passes[k].Leaves();
        LeaveTells(passes[k], clip.enterFrac);
      }
    }
  }

  // ---------------------------------------------------------------------------------------------
  // The sweep of a box or a capsule

  datatype Side = Side(plane: Plane, surface: int)

  datatype Brush = Brush(sides: seq<Side>, contents: bv32, fence: bool)

  /** What is swept: a box around the position, from -size to size, or a capsule of two balls. */
  datatype Shape = Box(size: Vec) | Capsule(offset: Vec, radius: real)

  /** The plane's distance for the position of the shape instead of its nearest point. */
  function Reach(shape: Shape, plane: Plane): real {
    match shape
    case Box(size) => plane.dist - Dot(Nearest(size, plane.signbits), plane.normal)
    case Capsule(offset, radius) => Abs(Dot(plane.normal, offset)) + plane.dist + radius
  }

  /** The corner of the box that is nearest to a plane with these signs. */
  function Nearest(size: Vec, signbits: nat): Vec {
    Vec(if signbits % 2 == 1 then size.x else -size.x,
        if signbits / 2 % 2 == 1 then size.y else -size.y,
        if signbits / 4 % 2 == 1 then size.z else -size.z)
  }

  function PassOf(start: Vec, end: Vec, shape: Shape, side: Side): Pass {
    var dist := Reach(shape, side.plane);
    Pass(Dot(start, side.plane.normal) - dist, Dot(end, side.plane.normal) - dist)
  }

  function Passes(start: Vec, end: Vec, shape: Shape, brush: Brush): (r: seq<Pass>)
    ensures |r| == |brush.sides|
  {
    seq(|brush.sides|, k requires 0 <= k < |brush.sides| => PassOf(start, end, shape, brush.sides[k]))
  }

  /** What a trace has found so far; the surface stands for its flags and shader. */
  datatype Trace = Trace(fraction: real, startsolid: bool, allsolid: bool, plane: Plane, surface: int, contents: bv32)

  /** What a brush does to a trace, by the distances of its sides. */
  ghost predicate Traced(was: Trace, now: Trace, passes: seq<Pass>, brush: Brush)
    requires |passes| == |brush.sides|
  {
    && 0.0 <= now.fraction <= was.fraction
    && now.startsolid == (was.startsolid || StartsInside(passes))
    && now.allsolid == (was.allsolid || (StartsInside(passes) && EndsInside(passes)))
    && (passes != [] && !StartsInside(passes) ==> OutsideUntil(passes, now.fraction))
    && (now.fraction < was.fraction ==>
          if StartsInside(passes) then EndsInside(passes) && now.fraction == 0.0
          else Touches(passes, now.fraction) && now.contents == brush.contents
               && exists k :: 0 <= k < |passes| && now.plane == brush.sides[k].plane
                              && now.surface == brush.sides[k].surface
                              && (now.fraction == 0.0 || passes[k].At(now.fraction) == EPSILON))
    && (now.fraction == was.fraction || StartsInside(passes) ==>
          now.plane == was.plane && now.surface == was.surface && now.contents == was.contents)
  }

  /** The same by the points of the shape: a start inside, or a hit at a side. */
  ghost predicate TracedPoints(was: Trace, now: Trace, start: Vec, end: Vec, shape: Shape, brush: Brush) {
    && now.startsolid == (was.startsolid || SolidAt(shape, brush, start))
    && now.allsolid == (was.allsolid || (SolidAt(shape, brush, start) && SolidAt(shape, brush, end)))
    && (now.fraction < was.fraction ==> StoppedBy(now, start, end, shape, brush))
    && (now.fraction == was.fraction ==>
          now.plane == was.plane && now.surface == was.surface && now.contents == was.contents)
  }

  /** The brush has brought the trace to its fraction: by being around all of it, or hit at a side. */
  ghost predicate StoppedBy(now: Trace, start: Vec, end: Vec, shape: Shape, brush: Brush) {
    || (SolidAt(shape, brush, start) && SolidAt(shape, brush, end) && now.fraction == 0.0)
    || (Hit(start, end, shape, brush, now.fraction, now.plane, now.surface) && now.contents == brush.contents)
  }

  /** The part of traceWork_t that a sweep works with. */
  class TraceWork {
    const start: Vec
    const end: Vec
    const shape: Shape
    const extents: Vec
    const isPoint: bool
    const contents: bv32
    var fraction: real
    var startsolid: bool
    var allsolid: bool
    var plane: Plane
    var surface: int
    var hitContents: bv32

    constructor (start: Vec, end: Vec, shape: Shape, extents: Vec, isPoint: bool, contents: bv32)
      ensures this.start == start && this.end == end && this.shape == shape
      ensures this.extents == extents && this.isPoint == isPoint && this.contents == contents
      ensures fraction == 1.0 && !startsolid && !allsolid
    {
      this.start, this.end, this.shape, this.extents := start, end, shape, extents;
      this.isPoint, this.contents := isPoint, contents;
      fraction, startsolid, allsolid := 1.0, false, false;
      plane, surface, hitContents := Plane(ORIGIN, 0.0, 0, 0), 0, 0;
    }

    function Now(): Trace
      reads this
    {
      Trace(fraction, startsolid, allsolid, plane, surface, hitContents)
    }

    /** The loop over the sides of a brush. */
    method ClipSides(brush: Brush) returns (clip: Clip)
      ensures Clipped(Passes(start, end, shape, brush), clip)
    {
      ghost var passes := Passes(start, end, shape, brush);
      clip := Clip(false, false, -1.0, 1.0, -1);
      for i := 0 to |brush.sides|
        invariant clip.Clip? && Clipped(passes[..i], clip)
      {
        ClippedMore(passes[..i], clip, passes[i]);
        assert passes[..i + 1] == passes[..i] + [passes[i]];
        clip := ClipSide(brush.sides[i], clip, i);
        if clip.Missed? {
          MissedSoFar(passes, i + 1);
          return;
        }
      }
      assert passes[..|brush.sides|] == passes;
    }

    /** The body of that loop. */
    method ClipSide(side: Side, clip: Clip, i: nat) returns (next: Clip)
      requires clip.Clip?
      ensures next == NextClip(clip, PassOf(start, end, shape, side), i)
    {
      var Clip(startout, getout, enterFrac, leaveFrac, lead) := clip;
      var plane := side.plane;
      var dist := Reach(shape, plane);
      var d1, d2 := Dot(start, plane.normal) - dist, Dot(end, plane.normal) - dist;
      if d1 <= 0.0 && d2 <= 0.0 {
        return clip;
      }
      if d2 > 0.0 {
        getout := true;
      }
      if d1 > 0.0 {
        startout := true;
        if d2 >= EPSILON || d2 >= d1 {
          return Missed;
        }
      }
      if d1 > d2 {
        var f := (d1 - EPSILON) / (d1 - d2);
        if f < 0.0 {
          f := 0.0;
        }
        if f > enterFrac {
          enterFrac, lead := f, i;
        }
      } else {
        var f := (d1 + EPSILON) / (d1 - d2);
        if f > 1.0 {
          f := 1.0;
        }
        if f < leaveFrac {
          leaveFrac := f;
        }
      }
      return Clip(startout, getout, enterFrac, leaveFrac, lead);
    }

    /** TraceThroughBrush, behind the loop. */
    method TakeClip(brush: Brush, clip: Clip)
      requires brush.sides != [] && Clipped(Passes(start, end, shape, brush), clip)
      requires 0.0 <= fraction <= 1.0
      modifies this
      ensures Traced(old(Now()), Now(), Passes(start, end, shape, brush), brush)
    {
      ghost var passes := Passes(start, end, shape, brush);
      ClipTells(passes, clip);
      if clip.Missed? {
        return;
      }
      if !clip.startout {
        startsolid := true;
        if !clip.getout {
          fraction := 0.0;
          allsolid := true;
        }
        return;
      }
      if clip.enterFrac <= clip.leaveFrac {
        ClippedTouches(passes, clip);
        if clip.enterFrac > -1.0 && clip.enterFrac < fraction {
          fraction := if clip.enterFrac < 0.0 then 0.0 else clip.enterFrac;
          plane := brush.sides[clip.lead].plane;
          surface := brush.sides[clip.lead].surface;
          hitContents := brush.contents;
        }
      }
    }

    /** TraceThroughBrush. */
    method TraceThroughBrush(brush: Brush)
      requires !brush.fence || !isPoint
      requires 0.0 <= fraction <= 1.0
      modifies this
      ensures Traced(old(Now()), Now(), Passes(start, end, shape, brush), brush)
      ensures AllExact(shape, brush) ==> TracedPoints(old(Now()), Now(), start, end, shape, brush)
    {
      if |brush.sides| == 0 {
        return;
      }
      var clip := ClipSides(brush);
      TakeClip(brush, clip);
      if AllExact(shape, brush) {
        TracedMeans(old(Now()), Now(), start, end, shape, brush);
      }
    }
  }

  lemma MissedSoFar(passes: seq<Pass>, n: nat)
    requires n <= |passes| && Clipped(passes[..n], Missed)
    ensures Clipped(passes, Missed)
  {
    var k :| 0 <= k < n && passes[..n][k].InFront();
    assert passes[k] == passes[..n][k];
  }

  lemma ClipTells(passes: seq<Pass>, clip: Clip)
    requires Clipped(passes, clip) && passes != []
    ensures StartsInside(passes) <==> clip.Clip? && !clip.startout
    ensures clip.Clip? ==> (EndsInside(passes) <==> !clip.getout)
    ensures clip.Missed? ==> OutsideUntil(passes, 1.0)
    ensures clip.Clip? && clip.startout ==>
              OutsideUntil(passes, if clip.enterFrac <= clip.leaveFrac then clip.enterFrac else 1.0)
  {
    if clip.Missed? || clip.startout {
      if clip.Clip? && clip.enterFrac <= clip.leaveFrac {
        ClippedTouches(passes, clip);
      }
      forall s | 0.0 <= s < (if clip.Clip? && clip.enterFrac <= clip.leaveFrac then clip.enterFrac else 1.0)
        ensures Outside(passes, s)
      {
        ClippedClear(passes, clip, s);
      }
    }
  }

  // ---------------------------------------------------------------------------------------------
  // What being outside means for the points of the shape

  function Times(l: real, v: Vec): Vec {
    Vec(l * v.x, l * v.y, l * v.z)
  }

  /** A part of the way from one number to another. */
  function Lerp(x: real, y: real, s: real): real {
    x + s * (y - x)
  }

  function Position(start: Vec, end: Vec, s: real): Vec {
    Vec(Lerp(start.x, end.x, s), Lerp(start.y, end.y, s), Lerp(start.z, end.z, s))
  }

  /** A point of the shape, from its position. */
  ghost predicate InShape(shape: Shape, e: Vec) {
    match shape
    case Box(size) => InBox(e, Vec(-size.x, -size.y, -size.z), size)
    case Capsule(offset, radius) => exists l, r :: InCapsule(offset, radius, l, r, e)
  }

  /** In a ball around a point between the two ends. */
  ghost predicate InCapsule(offset: Vec, radius: real, l: real, r: Vec, e: Vec) {
    -1.0 <= l <= 1.0 && radius >= 0.0 && Dot(r, r) <= radius * radius && e == Times(l, offset).Plus(r)
  }

  /** The normals that the arithmetic of the source counts on. */
  ghost predicate NormalsFit(shape: Shape, brush: Brush) {
    forall k :: 0 <= k < |brush.sides| ==> NormalFits(shape, brush.sides[k].plane)
  }

  ghost predicate NormalFits(shape: Shape, plane: Plane) {
    if shape.Box? then plane.signbits == SignBits(plane.normal) else Dot(plane.normal, plane.normal) <= 1.0
  }

  /** In the brush made smaller by the tolerance on every side. */
  ghost predicate DeepInside(brush: Brush, p: Vec) {
    forall k :: 0 <= k < |brush.sides| ==> Dot(p, brush.sides[k].plane.normal) - brush.sides[k].plane.dist <= -EPSILON
  }

  lemma DotOnTheWay(n: Vec, start: Vec, end: Vec, s: real)
    ensures Dot(Position(start, end, s), n) == Dot(start, n) + s * (Dot(end, n) - Dot(start, n))
  {
    assert (start.x + s * (end.x - start.x)) * n.x == start.x * n.x + s * (end.x * n.x - start.x * n.x);
    assert (start.y + s * (end.y - start.y)) * n.y == start.y * n.y + s * (end.y * n.y - start.y * n.y);
    assert (start.z + s * (end.z - start.z)) * n.z == start.z * n.z + s * (end.z * n.z - start.z * n.z);
  }

  lemma NearestBounds(size: Vec, n: Vec, e: Vec)
    requires InBox(e, Vec(-size.x, -size.y, -size.z), size)
    ensures Dot(e, n) >= Dot(Nearest(size, SignBits(n)), n)
  {
    var mins := Vec(-size.x, -size.y, -size.z);
    CornersBound(n, e, mins, size);
    FarCorner(n, mins, size);
    assert Nearest(size, SignBits(n)) == Corner(7 - SignBits(n), mins, size);
  }

  lemma SquareGrows(b: real, c: real)
    requires b >= 0.0 && c > 0.0
    ensures (b + c) * (b + c) > b * b
  {
    Product(b, c);
    Product(c, c);
    assert (b + c) * (b + c) == b * b + b * c + c * b + c * c;
  }

  lemma SquareBounds(d: real, radius: real)
    requires radius >= 0.0 && d * d <= radius * radius
    ensures -radius <= d <= radius
  {
    Product(d, d);
    Product(-d, d);
    if d > radius {
      SquareGrows(radius, d - radius);
    } else if d < -radius {
      SquareGrows(radius, -d - radius);
    }
  }

  lemma DotTimes(l: real, v: Vec, n: Vec)
    ensures Dot(Times(l, v), n) == l * Dot(n, v)
  {
    assert l * (n.x * v.x + n.y * v.y + n.z * v.z) == l * v.x * n.x + l * v.y * n.y + l * v.z * n.z;
  }

  lemma Fraction(l: real, d: real)
    requires -1.0 <= l <= 1.0
    ensures l * d >= -Abs(d)
  {
    Product(1.0 - l, d);
    Product(1.0 + l, d);
    Product(1.0 - l, -d);
    Product(1.0 + l, -d);
    assert (1.0 - l) * d == d - l * d && (1.0 + l) * d == d + l * d;
  }

  lemma DotSwaps(a: Vec, b: Vec)
    ensures Dot(a, b) == Dot(b, a)
  {
  }

  lemma Lagrange(a: Vec, b: Vec)
    ensures var d, x, y, z := Dot(a, b), a.y * b.z - a.z * b.y, a.z * b.x - a.x * b.z, a.x * b.y - a.y * b.x;
            d * d + (x * x + y * y + z * z) == Dot(a, a) * Dot(b, b)
  {
  }

  lemma NoNegativeSquares(x: real, y: real, z: real)
    ensures x * x >= 0.0 && y * y >= 0.0 && z * z >= 0.0
  {
    Product(x, x);
    Product(-x, -x);
    Product(y, y);
    Product(-y, -y);
    Product(z, z);
    Product(-z, -z);
  }

  lemma Scaled(a: real, b: real)
    requires a <= 1.0 && b >= 0.0
    ensures a * b <= b
  {
    Product(1.0 - a, b);
    assert (1.0 - a) * b == b - a * b;
  }

  /** Two vectors' product is at most the product of their lengths. */
  lemma CauchySchwarz(a: Vec, b: Vec, radius: real)
    requires radius >= 0.0 && Dot(a, a) <= 1.0 && Dot(b, b) <= radius * radius
    ensures -radius <= Dot(a, b) <= radius
  {
    var d, x, y, z := Dot(a, b), a.y * b.z - a.z * b.y, a.z * b.x - a.x * b.z, a.x * b.y - a.y * b.x;
    Lagrange(a, b);
    NoNegativeSquares(x, y, z);
    NoNegativeSquares(b.x, b.y, b.z);
    Scaled(Dot(a, a), Dot(b, b));
    SquareBounds(d, radius);
  }

  lemma BallBounds(radius: real, n: Vec, r: Vec)
    requires radius >= 0.0 && Dot(r, r) <= radius * radius && Dot(n, n) <= 1.0
    ensures Dot(r, n) >= -radius
  {
    CauchySchwarz(n, r, radius);
    DotSwaps(r, n);
  }

  lemma AxisBounds(offset: Vec, n: Vec, l: real)
    requires -1.0 <= l <= 1.0
    ensures Dot(Times(l, offset), n) >= -Abs(Dot(n, offset))
  {
    DotTimes(l, offset, n);
    Fraction(l, Dot(n, offset));
  }

  lemma CapsuleBounds(offset: Vec, radius: real, n: Vec, l: real, r: Vec, e: Vec)
    requires InCapsule(offset, radius, l, r, e) && Dot(n, n) <= 1.0
    ensures Dot(e, n) >= -Abs(Dot(n, offset)) - radius
  {
    BallBounds(radius, n, r);
    AxisBounds(offset, n, l);
    DotFlips(Times(l, offset), r, n);
  }

  /** Every point of the shape is as far in front of a plane as the position is, by the adjusted distance. */
  lemma ReachBounds(shape: Shape, plane: Plane, e: Vec)
    requires InShape(shape, e) && NormalFits(shape, plane)
    ensures Dot(e, plane.normal) - plane.dist >= -Reach(shape, plane)
  {
    match shape
    case Box(size) => NearestBounds(size, plane.normal, e);
    case Capsule(offset, radius) =>
      var l, r :| InCapsule(offset, radius, l, r, e);
      CapsuleBounds(offset, radius, plane.normal, l, r, e);
  }

  /** A point of the moving shape is at least as far in front of a side's plane as the pass says. */
  lemma PassBounds(start: Vec, end: Vec, shape: Shape, side: Side, s: real, e: Vec)
    requires InShape(shape, e) && NormalFits(shape, side.plane)
    ensures Dot(Position(start, end, s).Plus(e), side.plane.normal) - side.plane.dist
         >= PassOf(start, end, shape, side).At(s)
  {
    var n, dist := side.plane.normal, Reach(shape, side.plane);
    var position := Position(start, end, s);
    assert PassOf(start, end, shape, side).At(s) == Dot(position, n) - dist by {
      DotOnTheWay(n, start, end, s);
      AtOnTheWay(PassOf(start, end, shape, side), Dot(start, n), Dot(end, n), dist, s);
    }
    ReachBounds(shape, side.plane, e);
    DotFlips(position, e, n);
  }

  /** Where the sweep is outside, no point of the shape is in the brush made smaller by the tolerance. */
  lemma OutsideMeans(start: Vec, end: Vec, shape: Shape, brush: Brush, s: real, e: Vec)
    requires Outside(Passes(start, end, shape, brush), s)
    requires InShape(shape, e) && NormalsFit(shape, brush)
    ensures !DeepInside(brush, Position(start, end, s).Plus(e))
  {
    var passes := Passes(start, end, shape, brush);
    var k :| 0 <= k < |passes| && passes[k].At(s) > -EPSILON;
    PassBounds(start, end, shape, brush.sides[k], s, e);
  }

  // ---------------------------------------------------------------------------------------------
  // What the distances mean, exactly

  /** Normals and sizes for which the adjusted distance is that of a point of the shape. */
  ghost predicate Exact(shape: Shape, plane: Plane) {
    match shape
    case Box(size) => size.x >= 0.0 && size.y >= 0.0 && size.z >= 0.0 && plane.signbits == SignBits(plane.normal)
    case Capsule(_, radius) => radius >= 0.0 && Dot(plane.normal, plane.normal) == 1.0
  }

  ghost predicate AllExact(shape: Shape, brush: Brush) {
    forall k :: 0 <= k < |brush.sides| ==> Exact(shape, brush.sides[k].plane)
  }

  /** How far a point of the shape is in front of a plane. */
  function Before(plane: Plane, position: Vec, e: Vec): real {
    Dot(position.Plus(e), plane.normal) - plane.dist
  }

  /** Some point of the shape at a position is at most that far in front of a plane. */
  ghost predicate Near(shape: Shape, plane: Plane, position: Vec, most: real) {
    exists e :: InShape(shape, e) && Before(plane, position, e) <= most
  }

  /** The point of the shape that is farthest behind a plane. */
  lemma ReachTight(shape: Shape, plane: Plane) returns (e: Vec)
    requires Exact(shape, plane)
    ensures InShape(shape, e) && Dot(e, plane.normal) - plane.dist == -Reach(shape, plane)
  {
    match shape
    case Box(size) => e := Nearest(size, plane.signbits);
    case Capsule(offset, radius) => e := FarthestBack(offset, radius, plane.normal);
  }

  lemma FarthestBack(offset: Vec, radius: real, n: Vec) returns (e: Vec)
    requires radius >= 0.0 && Dot(n, n) == 1.0
    ensures InShape(Capsule(offset, radius), e) && Dot(e, n) == -Abs(Dot(n, offset)) - radius
  {
    var l := if Dot(n, offset) < 0.0 then 1.0 else -1.0;
    var r := Times(-radius, n);
    e := Times(l, offset).Plus(r);
    ScaledSquare(-radius, n);
    DotTimes(-radius, n, n);
    DotTimes(l, offset, n);
    DotFlips(Times(l, offset), r, n);
    assert InCapsule(offset, radius, l, r, e);
  }

  lemma ScaledSquare(c: real, n: Vec)
    requires Dot(n, n) == 1.0
    ensures Dot(Times(c, n), Times(c, n)) == c * c
  {
    DotTimes(c, n, Times(c, n));
    DotTimes(c, n, n);
    DotSwaps(Times(c, n), n);
  }

  /** The distance of a pass is that of the shape's nearest point. */
  lemma PassMeans(start: Vec, end: Vec, shape: Shape, side: Side, s: real, most: real)
    requires Exact(shape, side.plane)
    ensures PassOf(start, end, shape, side).At(s) <= most
       <==> Near(shape, side.plane, Position(start, end, s), most)
  {
    var position, at := Position(start, end, s), PassOf(start, end, shape, side).At(s);
    var tight := ReachTight(shape, side.plane);
    PassAtPosition(start, end, shape, side, s);
    DotFlips(position, tight, side.plane.normal);
    assert Before(side.plane, position, tight) == at;
    if Near(shape, side.plane, position, most) {
      var e :| InShape(shape, e) && Before(side.plane, position, e) <= most;
      PassBounds(start, end, shape, side, s, e);
    }
  }

  lemma PassAtPosition(start: Vec, end: Vec, shape: Shape, side: Side, s: real)
    ensures PassOf(start, end, shape, side).At(s)
         == Dot(Position(start, end, s), side.plane.normal) - Reach(shape, side.plane)
  {
    var n := side.plane.normal;
    DotOnTheWay(n, start, end, s);
    AtOnTheWay(PassOf(start, end, shape, side), Dot(start, n), Dot(end, n), Reach(shape, side.plane), s);
  }

  /** The shape at a position has for every side of the brush a point that is at most that far in front of it. */
  ghost predicate NearAll(shape: Shape, brush: Brush, position: Vec, most: real) {
    forall k :: 0 <= k < |brush.sides| ==> Near(shape, brush.sides[k].plane, position, most)
  }

  /** The nearest points of the shape are just at a distance in front of a plane. */
  ghost predicate JustAt(shape: Shape, plane: Plane, position: Vec, distance: real) {
    && Near(shape, plane, position, distance)
    && forall e :: InShape(shape, e) ==> Before(plane, position, e) >= distance
  }

  lemma AllNear(start: Vec, end: Vec, shape: Shape, brush: Brush, s: real, most: real)
    requires AllExact(shape, brush)
    ensures (forall k :: 0 <= k < |brush.sides| ==> Passes(start, end, shape, brush)[k].At(s) <= most)
       <==> NearAll(shape, brush, Position(start, end, s), most)
  {
    var passes := Passes(start, end, shape, brush);
    forall k | 0 <= k < |brush.sides|
      ensures passes[k].At(s) <= most <==> Near(shape, brush.sides[k].plane, Position(start, end, s), most)
    {
      PassMeans(start, end, shape, brush.sides[k], s, most);
    }
  }

  lemma JustThere(start: Vec, end: Vec, shape: Shape, side: Side, s: real, distance: real)
    requires Exact(shape, side.plane) && PassOf(start, end, shape, side).At(s) == distance
    ensures JustAt(shape, side.plane, Position(start, end, s), distance)
  {
    PassMeans(start, end, shape, side, s, distance);
    forall e | InShape(shape, e)
      ensures Before(side.plane, Position(start, end, s), e) >= distance
    {
      PassBounds(start, end, shape, side, s, e);
    }
  }

  /** The shape overlaps every side's half space. */
  ghost predicate SolidAt(shape: Shape, brush: Brush, position: Vec) {
    brush.sides != [] && NearAll(shape, brush, position, 0.0)
  }

  /** Starting and ending inside, by the points of the shape. */
  lemma InsideMeans(start: Vec, end: Vec, shape: Shape, brush: Brush)
    requires AllExact(shape, brush)
    ensures var passes := Passes(start, end, shape, brush);
            && (StartsInside(passes) <==> SolidAt(shape, brush, start))
            && (passes != [] ==> (EndsInside(passes) <==> SolidAt(shape, brush, end)))
  {
    var passes := Passes(start, end, shape, brush);
    AtEnds(start, end);
    AllNear(start, end, shape, brush, 0.0, 0.0);
    AllNear(start, end, shape, brush, 1.0, 0.0);
    assert forall k :: 0 <= k < |passes| ==> passes[k].At(0.0) == passes[k].d1 && passes[k].At(1.0) == passes[k].d2;
  }

  lemma AtEnds(start: Vec, end: Vec)
    ensures Position(start, end, 0.0) == start && Position(start, end, 1.0) == end
  {
    LerpEnds(start.x, end.x);
    LerpEnds(start.y, end.y);
    LerpEnds(start.z, end.z);
  }

  lemma LerpEnds(x: real, y: real)
    ensures Lerp(x, y, 0.0) == x && Lerp(x, y, 1.0) == y
  {
  }

  /** What a brush does to a trace, by the points of the shape: a start inside, or a hit at a side of the brush. */
  ghost predicate Hit(start: Vec, end: Vec, shape: Shape, brush: Brush, fraction: real, plane: Plane, surface: int) {
    var position := Position(start, end, fraction);
    && !SolidAt(shape, brush, start) && NearAll(shape, brush, position, EPSILON)
    && exists k :: 0 <= k < |brush.sides| && plane == brush.sides[k].plane && surface == brush.sides[k].surface
                   && (fraction == 0.0 || JustAt(shape, plane, position, EPSILON))
  }

  lemma HitMeans(start: Vec, end: Vec, shape: Shape, brush: Brush, fraction: real, k: nat)
    requires AllExact(shape, brush) && k < |brush.sides|
    requires var passes := Passes(start, end, shape, brush);
             && !StartsInside(passes) && Touches(passes, fraction)
             && (fraction == 0.0 || passes[k].At(fraction) == EPSILON)
    ensures Hit(start, end, shape, brush, fraction, brush.sides[k].plane, brush.sides[k].surface)
  {
    InsideMeans(start, end, shape, brush);
    AllNear(start, end, shape, brush, fraction, EPSILON);
    if fraction != 0.0 {
      JustThere(start, end, shape, brush.sides[k], fraction, EPSILON);
    }
  }

  /** What the distances say is what the points say. */
  lemma TracedMeans(was: Trace, now: Trace, start: Vec, end: Vec, shape: Shape, brush: Brush)
    requires AllExact(shape, brush) && brush.sides != []
    requires Traced(was, now, Passes(start, end, shape, brush), brush)
    ensures TracedPoints(was, now, start, end, shape, brush)
  {
    var passes := Passes(start, end, shape, brush);
    InsideMeans(start, end, shape, brush);
    if now.fraction < was.fraction && !StartsInside(passes) {
      var k :| 0 <= k < |passes| && now.plane == brush.sides[k].plane && now.surface == brush.sides[k].surface
               && (now.fraction == 0.0 || passes[k].At(now.fraction) == EPSILON);
      HitMeans(start, end, shape, brush, now.fraction, k);
    }
  }

  lemma AtOnTheWay(p: Pass, a: real, b: real, dist: real, s: real)
    requires p.d1 == a - dist && p.d2 == b - dist
    ensures p.At(s) == a + s * (b - a) - dist
  {
  }

  lemma DotFlips(p: Vec, e: Vec, n: Vec)
    ensures Dot(p.Plus(e), n) == Dot(p, n) + Dot(e, n)
  {
  }
}
