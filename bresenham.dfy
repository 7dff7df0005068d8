/** Model of bresenham_line.py: Bresenham's integer line rasterizer and the
    collection of rasterized lines (BresenhamPoints). */
module Bresenham {

  /** A grid cell, the tuple (x, y) the rasterizer emits. */
  datatype Point = Point(x: int, y: int)

  function Abs(n: int): nat { if n < 0 then -n else n }
  function Min(a: int, b: int): int { if a <= b then a else b }
  function Max(a: int, b: int): int { if a <= b then b else a }

  /** `1 if a < b else -1`: the unit step the general loop takes from a towards b. */
  function StepToward(a: int, b: int): int { if a < b then 1 else -1 }

  // ---------------------------------------------------------------------------
  // Reference definition of the rasterizer
  // ---------------------------------------------------------------------------

  /** The vertical branch: (x, lo), (x, lo + 1), ..., (x, hi). */
  function Column(x: int, lo: int, hi: int): seq<Point>
    requires lo <= hi + 1
  {
    seq(hi - lo + 1, i => Point(x, lo + i))
  }

  /** The horizontal branch: (lo, y), (lo + 1, y), ..., (hi, y). */
  function Row(lo: int, hi: int, y: int): seq<Point>
    requires lo <= hi + 1
  {
    seq(hi - lo + 1, i => Point(lo + i, y))
  }

  /** What the general loop fixes before it starts: the target (x1, y1), the
      distances dx, dy and the unit steps sx, sy. */
  datatype Setup = Setup(x1: int, y1: int, dx: int, dy: int, sx: int, sy: int)

  /** The variables the general loop updates: the current cell and err. */
  datatype State = State(x: int, y: int, err: int) {
    function Cell(): Point { Point(x, y) }
  }

  /** Distance still to go from a to b when walking in direction s. */
  function Ahead(s: int, a: int, b: int): int { if s == 1 then b - a else a - b }

  /** Remaining distance from p to the target, summed over both axes. */
  function Remaining(s: Setup, p: Point): int {
    Ahead(s.sx, p.x, s.x1) + Ahead(s.sy, p.y, s.y1)
  }

  /** The loop heads for the target: both distances positive, unit steps, and
      neither coordinate of p past its target. */
  predicate Admissible(s: Setup, p: Point) {
    && s.dx > 0 && s.dy > 0
    && (s.sx == 1 || s.sx == -1) && (s.sy == 1 || s.sy == -1)
    && Ahead(s.sx, p.x, s.x1) >= 0 && Ahead(s.sy, p.y, s.y1) >= 0
  }

  /** The error term of the general loop. With X = dx - ax and Y = dy - ay
      the steps already taken in x and in y, this is err == dx - dy - dy*X + dx*Y. */
  predicate ErrorTerm(s: Setup, st: State) {
    st.err == s.dx - s.dy + s.dy * Ahead(s.sx, st.x, s.x1) - s.dx * Ahead(s.sy, st.y, s.y1)
  }

  /** The loop ends after emitting st's cell: at the target, or at one of the
      two defensive breaks. */
  predicate Stops(s: Setup, st: State) {
    var e2 := 2 * st.err;
    || (st.x == s.x1 && st.y == s.y1)
    || (e2 > -s.dy && st.x == s.x1)
    || (e2 < s.dx && st.y == s.y1)
  }

  /** One iteration of the general loop that does not stop: x moves by sx and
      err drops by dy when 2*err > -dy; y moves by sy and err grows by dx when
      2*err < dx (both tests read the same 2*err). */
  function Step(s: Setup, st: State): State {
    var e2 := 2 * st.err;
    var x := if e2 > -s.dy then st.x + s.sx else st.x;
    var err := if e2 > -s.dy then st.err - s.dy else st.err;
    var y := if e2 < s.dx then st.y + s.sy else st.y;
    State(x, y, if e2 < s.dx then err + s.dx else err)
  }

  /** q follows p by one step of the general loop: x by 0 or sx, y by 0 or sy,
      and at least one of them moves. */
  predicate UnitStep(s: Setup, p: Point, q: Point) {
    && (q.x == p.x || q.x == p.x + s.sx)
    && (q.y == p.y || q.y == p.y + s.sy)
    && p != q
  }

  /** An iteration that does not stop is a unit step that stays admissible. */
  lemma StepAdvances(s: Setup, st: State)
    requires Admissible(s, st.Cell()) && !Stops(s, st)
    ensures Admissible(s, Step(s, st).Cell())
    ensures UnitStep(s, st.Cell(), Step(s, st).Cell())
    ensures Ahead(s.sx, Step(s, st).x, s.x1) <= Ahead(s.sx, st.x, s.x1)
    ensures Ahead(s.sy, Step(s, st).y, s.y1) <= Ahead(s.sy, st.y, s.y1)
    ensures Remaining(s, Step(s, st).Cell()) < Remaining(s, st.Cell())
  {
  }

  /** The cells the general loop emits from state st, one per iteration. */
  function Trace(s: Setup, st: State): seq<Point>
    requires Admissible(s, st.Cell())
    decreases Remaining(s, st.Cell())
  {
    if Stops(s, st) then [st.Cell()]
    else
      StepAdvances(s, st);
      [st.Cell()] + Trace(s, Step(s, st))
  }

  function Start(x0: int, y0: int, x1: int, y1: int): Setup {
    Setup(x1, y1, Abs(x1 - x0), Abs(y1 - y0), StepToward(x0, x1), StepToward(y0, y1))
  }

  /** The cells bresenham_line(x0, y0, x1, y1) returns, in order. */
  function Rasterize(x0: int, y0: int, x1: int, y1: int): seq<Point> {
    if x0 == x1 then Column(x0, Min(y0, y1), Max(y0, y1))
    else if y0 == y1 then Row(Min(x0, x1), Max(x0, x1), y0)
    else Trace(Start(x0, y0, x1, y1), State(x0, y0, Abs(x1 - x0) - Abs(y1 - y0)))
  }

  // ---------------------------------------------------------------------------
  // The rasterizer as the source writes it
  // ---------------------------------------------------------------------------

  method BresenhamLine(x0: int, y0: int, x1: int, y1: int) returns (points: seq<Point>)
    ensures points == Rasterize(x0, y0, x1, y1)
  {
    points := [];

    if x0 == x1 {
      var startY, endY := Min(y0, y1), Max(y0, y1);
      assert Rasterize(x0, y0, x1, y1) == Column(x0, startY, endY);
      for y := startY to endY + 1
        invariant points == Column(x0, startY, y - 1)
      {
        points := points + [Point(x0, y)];
      }
      return;
    }

    if y0 == y1 {
      var startX, endX := Min(x0, x1), Max(x0, x1);
      assert Rasterize(x0, y0, x1, y1) == Row(startX, endX, y0);
      for x := startX to endX + 1
        invariant points == Row(startX, x - 1, y0)
      {
        points := points + [Point(x, y0)];
      }
      return;
    }

    var dx: int, dy: int := Abs(x1 - x0), Abs(y1 - y0);
    var sx, sy := StepToward(x0, x1), StepToward(y0, y1);
    var err: int := dx - dy;
    ghost var setup := Setup(x1, y1, dx, dy, sx, sy);
    StartState(x0, y0, x1, y1);
    ghost var whole := Trace(setup, State(x0, y0, err));
    assert whole == Rasterize(x0, y0, x1, y1);
    var x, y := x0, y0;

    while true
      invariant Admissible(setup, Point(x, y))
      invariant points + Trace(setup, State(x, y, err)) == whole
      decreases Remaining(setup, Point(x, y))
    {
      ghost var before, st := points, State(x, y, err);
      TraceUnfolds(setup, st);
      points := points + [Point(x, y)];
      if x == x1 && y == y1 {
        break;
      }
      var e2 := 2 * err;
      if e2 > -dy {
        if x == x1 {
          break;
        }
        err := err - dy;
        x := x + sx;
      }
      if e2 < dx {
        if y == y1 {
          break;
        }
        err := err + dx;
        y := y + sy;
      }
      assert !Stops(setup, st);
      assert State(x, y, err) == Step(setup, st);
      StepAdvances(setup, st);
      assert points + Trace(setup, State(x, y, err)) == before + Trace(setup, st);
    }
  }

  // ---------------------------------------------------------------------------
  // What the rasterizer promises
  // ---------------------------------------------------------------------------

  /** p lies between the start and the target: no coordinate has passed its
      target, and none is behind the start. */
  predicate Between(s: Setup, start: Point, p: Point) {
    && 0 <= Ahead(s.sx, p.x, s.x1) <= Ahead(s.sx, start.x, s.x1)
    && 0 <= Ahead(s.sy, p.y, s.y1) <= Ahead(s.sy, start.y, s.y1)
  }

  /** a * (b - 1) == a * b - a, the one piece of arithmetic a step needs. */
  lemma MulPred(a: int, b: int)
    ensures a * (b - 1) == a * b - a
  {
  }

  /** Short of the target and keeping the error term, the loop does not stop:
      when x is on target and y is not, err <= -dy, so the x test fails; when y
      is on target and x is not, err >= dx, so the y test fails. */
  lemma NoBreak(s: Setup, st: State)
    requires Admissible(s, st.Cell()) && ErrorTerm(s, st)
    requires st.x != s.x1 || st.y != s.y1
    ensures !Stops(s, st)
  {
    var ax, ay := Ahead(s.sx, st.x, s.x1), Ahead(s.sy, st.y, s.y1);
    MulPred(s.dx, ay);
    MulPred(s.dy, ax);
    if ay >= 1 {
      assert s.dx * (ay - 1) >= 0;
    }
    if ax >= 1 {
      assert s.dy * (ax - 1) >= 0;
    }
  }

  /** An iteration that does not stop keeps the error term. */
  lemma StepKeepsErrorTerm(s: Setup, st: State)
    requires Admissible(s, st.Cell()) && ErrorTerm(s, st) && !Stops(s, st)
    ensures ErrorTerm(s, Step(s, st))
  {
    var ax, ay := Ahead(s.sx, st.x, s.x1), Ahead(s.sy, st.y, s.y1);
    var e2 := 2 * st.err;
    var next := Step(s, st);
    if e2 > -s.dy {
      assert Ahead(s.sx, next.x, s.x1) == ax - 1;
      MulPred(s.dy, ax);
    }
    if e2 < s.dx {
      assert Ahead(s.sy, next.y, s.y1) == ay - 1;
      MulPred(s.dx, ay);
    }
  }

  /** The loop emits st's cell, then stops or goes on from the next state. */
  lemma TraceUnfolds(s: Setup, st: State)
    requires Admissible(s, st.Cell())
    ensures Stops(s, st) ==> Trace(s, st) == [st.Cell()]
    ensures !Stops(s, st) ==>
      (Admissible(s, Step(s, st).Cell()) && Trace(s, st) == [st.Cell()] + Trace(s, Step(s, st)))
  {
  }

  /** The loop emits st's cell first. */
  lemma TraceFirst(s: Setup, st: State)
    requires Admissible(s, st.Cell())
    ensures |Trace(s, st)| >= 1 && Trace(s, st)[0] == st.Cell()
  {
  }

  /** Keeping the error term, the loop never stops at a defensive break: its
      last cell is the target. */
  lemma {:induction false} TraceReachesTarget(s: Setup, st: State)
    requires Admissible(s, st.Cell()) && ErrorTerm(s, st)
    ensures Trace(s, st)[|Trace(s, st)| - 1] == Point(s.x1, s.y1)
    decreases Remaining(s, st.Cell())
  {
    if st.x != s.x1 || st.y != s.y1 {
      NoBreak(s, st);
      StepAdvances(s, st);
      StepKeepsErrorTerm(s, st);
      TraceReachesTarget(s, Step(s, st));
    }
  }

  /** Consecutive cells of the loop are unit steps, and every cell lies
      between st's cell and the target. */
  lemma {:induction false} TraceSteps(s: Setup, st: State)
    requires Admissible(s, st.Cell())
    ensures var t := Trace(s, st);
      && (forall i | 0 <= i < |t| - 1 :: UnitStep(s, t[i], t[i + 1]))
      && (forall i | 0 <= i < |t| :: Between(s, st.Cell(), t[i]))
    decreases Remaining(s, st.Cell())
  {
    var t := Trace(s, st);
    if !Stops(s, st) {
      var next := Step(s, st);
      StepAdvances(s, st);
      TraceSteps(s, next);
      TraceFirst(s, next);
      var rest := Trace(s, next);
      assert t == [st.Cell()] + rest;
      forall i | 0 <= i < |t| - 1
        ensures UnitStep(s, t[i], t[i + 1])
      {
        if i > 0 {
          assert t[i] == rest[i - 1] && t[i + 1] == rest[i];
        }
      }
      forall i | 0 <= i < |t|
        ensures Between(s, st.Cell(), t[i])
      {
        if i > 0 {
          assert Between(s, next.Cell(), rest[i - 1]);
        }
      }
    }
  }

  /** A chain of unit steps gets strictly closer to the target, so it never
      returns to a cell. */
  lemma {:induction false} StepsApproach(s: Setup, ps: seq<Point>)
    requires (s.sx == 1 || s.sx == -1) && (s.sy == 1 || s.sy == -1)
    requires forall i | 0 <= i < |ps| - 1 :: UnitStep(s, ps[i], ps[i + 1])
    ensures forall i, j | 0 <= i < j < |ps| :: Remaining(s, ps[j]) < Remaining(s, ps[i])
    decreases |ps|
  {
    if |ps| > 1 {
      var init := ps[..|ps| - 1];
      StepsApproach(s, init);
      var last := |ps| - 1;
      assert UnitStep(s, ps[last - 1], ps[last]);
      forall i, j | 0 <= i < j < |ps|
        ensures Remaining(s, ps[j]) < Remaining(s, ps[i])
      {
        if j < last {
          assert ps[i] == init[i] && ps[j] == init[j];
        } else if i < last - 1 {
          assert ps[i] == init[i] && ps[last - 1] == init[last - 1];
        }
      }
    }
  }

  /** The error term never strays more than half the longer distance from its
      start value dx - dy. Together with the error term this keeps every
      emitted cell near the ideal line (TraceNearLine, RasterizeNearLine). */
  predicate Band(s: Setup, err: int) {
    var m := Max(s.dx, s.dy);
    -m <= 2 * (err - s.dx + s.dy) <= m
  }

  lemma StepKeepsBand(s: Setup, st: State)
    requires Admissible(s, st.Cell()) && Band(s, st.err)
    ensures Band(s, Step(s, st).err)
  {
  }

  /** d * k is never half of d, for d > 0. */
  lemma NotHalf(d: int, k: int)
    requires d > 0
    ensures 2 * (d * k) != d && 2 * (d * k) != -d
  {
    if k >= 1 {
      assert d * k >= d by { MulPred(d, k); assert d * (k - 1) >= 0; }
    } else if k <= -1 {
      assert d * k <= -d by { MulPred(d, k + 1); assert d * (k + 1) <= 0; }
    } else {
      assert d * k == 0;
    }
  }

  lemma MulSub(a: int, b: int, c: int)
    ensures a * b - a * c == a * (b - c)
  {
  }

  /** The arithmetic behind LongerXMoves, with ax, ay the distances still to go. */
  lemma LongerAxisArith(dx: int, dy: int, ax: int, ay: int, err: int)
    requires dx >= dy > 0 && ax >= 0 && ay >= 0 && ax + ay > 0
    requires err == dx - dy + dy * ax - dx * ay
    requires -dx <= 2 * (err - dx + dy) <= dx
    ensures ax >= 1 && 2 * err > -dy
  {
    MulPred(dx, ay);
    if ay >= 1 {
      assert dx * (ay - 1) >= 0;
    }
    if dx == dy {
      MulSub(dx, ax, ay);
      NotHalf(dx, ax - ay);
    }
  }

  /** When x is the longer axis, every iteration short of the target moves x. */
  lemma LongerXMoves(s: Setup, st: State)
    requires Admissible(s, st.Cell()) && ErrorTerm(s, st) && Band(s, st.err)
    requires s.dx >= s.dy && (st.x != s.x1 || st.y != s.y1)
    ensures st.x != s.x1 && 2 * st.err > -s.dy
  {
    LongerAxisArith(s.dx, s.dy, Ahead(s.sx, st.x, s.x1), Ahead(s.sy, st.y, s.y1), st.err);
  }

  /** When y is the longer axis, every iteration short of the target moves y. */
  lemma LongerYMoves(s: Setup, st: State)
    requires Admissible(s, st.Cell()) && ErrorTerm(s, st) && Band(s, st.err)
    requires s.dy >= s.dx && (st.x != s.x1 || st.y != s.y1)
    ensures st.y != s.y1 && 2 * st.err < s.dx
  {
    // the same argument with the axes swapped: -err is the error term of the mirrored walk
    LongerAxisArith(s.dy, s.dx, Ahead(s.sy, st.y, s.y1), Ahead(s.sx, st.x, s.x1), -st.err);
  }

  /** One cell per unit of distance along the longer axis, plus the start. */
  lemma {:induction false} TraceLength(s: Setup, st: State)
    requires Admissible(s, st.Cell()) && ErrorTerm(s, st) && Band(s, st.err)
    ensures s.dx >= s.dy ==> |Trace(s, st)| == Ahead(s.sx, st.x, s.x1) + 1
    ensures s.dy >= s.dx ==> |Trace(s, st)| == Ahead(s.sy, st.y, s.y1) + 1
    decreases Remaining(s, st.Cell())
  {
    if st.x != s.x1 || st.y != s.y1 {
      NoBreak(s, st);
      StepAdvances(s, st);
      StepKeepsErrorTerm(s, st);
      StepKeepsBand(s, st);
      TraceLength(s, Step(s, st));
      if s.dx >= s.dy {
        LongerXMoves(s, st);
      }
      if s.dy >= s.dx {
        LongerYMoves(s, st);
      }
    }
  }

  /** Consecutive cells touch, by side or corner, and are never the same cell. */
  predicate Adjacent(p: Point, q: Point) {
    Abs(q.x - p.x) <= 1 && Abs(q.y - p.y) <= 1 && p != q
  }

  /** An 8-connected path. */
  predicate Connected(ps: seq<Point>) {
    forall i | 0 <= i < |ps| - 1 :: Adjacent(ps[i], ps[i + 1])
  }

  predicate NoRepeats(ps: seq<Point>) {
    forall i, j | 0 <= i < j < |ps| :: ps[i] != ps[j]
  }

  /** p lies in the bounding box of a and b. */
  predicate InBox(p: Point, a: Point, b: Point) {
    && Min(a.x, b.x) <= p.x <= Max(a.x, b.x)
    && Min(a.y, b.y) <= p.y <= Max(a.y, b.y)
  }

  /** The general loop's first state keeps the error term and the band. */
  lemma StartState(x0: int, y0: int, x1: int, y1: int)
    requires x0 != x1 && y0 != y1
    ensures var s := Start(x0, y0, x1, y1);
      var st := State(x0, y0, s.dx - s.dy);
      && Admissible(s, st.Cell())
      && ErrorTerm(s, st)
      && Band(s, st.err)
      && Ahead(s.sx, x0, x1) == s.dx && Ahead(s.sy, y0, y1) == s.dy
  {
  }

  /** Unit steps toward the target form an 8-connected path without repeats. */
  lemma StepsArePath(s: Setup, ps: seq<Point>)
    requires (s.sx == 1 || s.sx == -1) && (s.sy == 1 || s.sy == -1)
    requires forall i | 0 <= i < |ps| - 1 :: UnitStep(s, ps[i], ps[i + 1])
    ensures Connected(ps) && NoRepeats(ps)
  {
    StepsApproach(s, ps);
    forall i | 0 <= i < |ps| - 1
      ensures Adjacent(ps[i], ps[i + 1])
    {
      assert UnitStep(s, ps[i], ps[i + 1]);
    }
  }

  /** A cell between the start and the target lies in their bounding box. */
  lemma BetweenInBox(s: Setup, start: Point, ps: seq<Point>)
    requires (s.sx == 1 || s.sx == -1) && (s.sy == 1 || s.sy == -1)
    requires s.sx == StepToward(start.x, s.x1) && s.sy == StepToward(start.y, s.y1)
    requires forall i | 0 <= i < |ps| :: Between(s, start, ps[i])
    ensures forall i | 0 <= i < |ps| :: InBox(ps[i], start, Point(s.x1, s.y1))
  {
    forall i | 0 <= i < |ps|
      ensures InBox(ps[i], start, Point(s.x1, s.y1))
    {
      assert Between(s, start, ps[i]);
    }
  }

  /** The general case (neither coordinate shared) emits a path that starts at
      (x0, y0), ends at (x1, y1), is 8-connected, visits no cell twice, stays in
      the bounding box of the endpoints, moves x only by sx and y only by sy,
      and has one cell per unit of the longer axis. */
  lemma RasterizeGeneral(x0: int, y0: int, x1: int, y1: int)
    requires x0 != x1 && y0 != y1
    ensures var r := Rasterize(x0, y0, x1, y1);
      && r[0] == Point(x0, y0)
      && r[|r| - 1] == Point(x1, y1)
      && Connected(r)
      && NoRepeats(r)
      && (forall i | 0 <= i < |r| :: InBox(r[i], Point(x0, y0), Point(x1, y1)))
      && (forall i | 0 <= i < |r| - 1 :: UnitStep(Start(x0, y0, x1, y1), r[i], r[i + 1]))
      && |r| == Max(Abs(x1 - x0), Abs(y1 - y0)) + 1
  {
    var s := Start(x0, y0, x1, y1);
    var st := State(x0, y0, s.dx - s.dy);
    StartState(x0, y0, x1, y1);
    TraceFirst(s, st);
    TraceReachesTarget(s, st);
    TraceSteps(s, st);
    TraceLength(s, st);
    StepsArePath(s, Trace(s, st));
    BetweenInBox(s, Point(x0, y0), Trace(s, st));
  }

  /** With ax, ay the distances from p to the target, 2*(dy*ax - dx*ay) is
      within the longer distance of zero: p is within half a cell of the
      segment's ideal line, measured along the shorter axis at p's coordinate
      on the longer axis. */
  predicate NearLine(s: Setup, p: Point) {
    var m := Max(s.dx, s.dy);
    -m <= 2 * (s.dy * Ahead(s.sx, p.x, s.x1) - s.dx * Ahead(s.sy, p.y, s.y1)) <= m
  }

  /** Every cell the loop emits from a state keeping the error term and the
      band is near the ideal line. */
  lemma {:induction false} TraceNearLine(s: Setup, st: State)
    requires Admissible(s, st.Cell()) && ErrorTerm(s, st) && Band(s, st.err)
    ensures forall i | 0 <= i < |Trace(s, st)| :: NearLine(s, Trace(s, st)[i])
    decreases Remaining(s, st.Cell())
  {
    var t := Trace(s, st);
    assert NearLine(s, st.Cell());
    if !Stops(s, st) {
      var next := Step(s, st);
      StepAdvances(s, st);
      StepKeepsErrorTerm(s, st);
      StepKeepsBand(s, st);
      TraceNearLine(s, next);
      var rest := Trace(s, next);
      assert t == [st.Cell()] + rest;
      forall i | 0 <= i < |t|
        ensures NearLine(s, t[i])
      {
        if i > 0 {
          assert t[i] == rest[i - 1];
        }
      }
    }
  }

  /** The distances to go, turned into steps taken from the start:
      dx*Y - dy*X == dy*ax - dx*ay when X == dx - ax and Y == dy - ay. */
  lemma TakenFromAhead(dx: int, dy: int, ax: int, ay: int)
    ensures dx * (dy - ay) - dy * (dx - ax) == dy * ax - dx * ay
  {
    MulSub(dx, dy, ay);
    MulSub(dy, dx, ax);
  }

  /** A cell between (x0, y0) and the target that is near the line, stated in
      the steps X, Y taken from (x0, y0). */
  lemma CellNearLine(x0: int, y0: int, x1: int, y1: int, p: Point)
    requires x0 != x1 && y0 != y1
    requires Between(Start(x0, y0, x1, y1), Point(x0, y0), p)
    requires NearLine(Start(x0, y0, x1, y1), p)
    ensures var dx, dy := Abs(x1 - x0), Abs(y1 - y0);
      -Max(dx, dy) <= 2 * (dx * Abs(p.y - y0) - dy * Abs(p.x - x0)) <= Max(dx, dy)
  {
    var s := Start(x0, y0, x1, y1);
    var ax, ay := Ahead(s.sx, p.x, x1), Ahead(s.sy, p.y, y1);
    assert Abs(p.x - x0) == s.dx - ax;
    assert Abs(p.y - y0) == s.dy - ay;
    TakenFromAhead(s.dx, s.dy, ax, ay);
  }

  lemma CellsNearLine(s: Setup, start: Point, ps: seq<Point>)
    requires s == Start(start.x, start.y, s.x1, s.y1) && start.x != s.x1 && start.y != s.y1
    requires forall i | 0 <= i < |ps| :: Between(s, start, ps[i])
    requires forall i | 0 <= i < |ps| :: NearLine(s, ps[i])
    ensures forall i | 0 <= i < |ps| ::
      -Max(s.dx, s.dy) <= 2 * (s.dx * Abs(ps[i].y - start.y) - s.dy * Abs(ps[i].x - start.x)) <= Max(s.dx, s.dy)
  {
    forall i | 0 <= i < |ps|
      ensures -Max(s.dx, s.dy) <= 2 * (s.dx * Abs(ps[i].y - start.y) - s.dy * Abs(ps[i].x - start.x)) <= Max(s.dx, s.dy)
    {
      CellNearLine(start.x, start.y, s.x1, s.y1, ps[i]);
    }
  }

  /** In the general case every emitted cell, X steps along x and Y steps
      along y from (x0, y0), satisfies abs(2*(dx*Y - dy*X)) <= max(dx, dy):
      it lies within half a cell of the ideal line through the endpoints,
      measured along the shorter axis at the cell's coordinate on the longer
      axis (and so also within half a cell perpendicular to the line). */
  lemma RasterizeNearLine(x0: int, y0: int, x1: int, y1: int)
    requires x0 != x1 && y0 != y1
    ensures var r := Rasterize(x0, y0, x1, y1);
      var dx, dy := Abs(x1 - x0), Abs(y1 - y0);
      forall i | 0 <= i < |r| ::
        -Max(dx, dy) <= 2 * (dx * Abs(r[i].y - y0) - dy * Abs(r[i].x - x0)) <= Max(dx, dy)
  {
    var s := Start(x0, y0, x1, y1);
    var st := State(x0, y0, s.dx - s.dy);
    StartState(x0, y0, x1, y1);
    TraceNearLine(s, st);
    TraceSteps(s, st);
    assert forall i | 0 <= i < |Trace(s, st)| :: Between(s, st.Cell(), Trace(s, st)[i]);
    assert st.Cell() == Point(x0, y0);
    CellsNearLine(s, Point(x0, y0), Trace(s, st));
  }

  /** Vertical input, including the single point: exactly the cells from the
      lower to the upper y, in increasing y, whatever order the endpoints came in. */
  lemma VerticalLine(x0: int, y0: int, x1: int, y1: int)
    requires x0 == x1
    ensures var r := Rasterize(x0, y0, x1, y1);
      && |r| == Abs(y1 - y0) + 1
      && (forall i | 0 <= i < |r| :: r[i] == Point(x0, Min(y0, y1) + i))
      && r[0] == Point(x0, Min(y0, y1))
      && r[|r| - 1] == Point(x0, Max(y0, y1))
  {
  }

  /** Horizontal input: exactly the cells from the lower to the upper x, in
      increasing x, whatever order the endpoints came in. */
  lemma HorizontalLine(x0: int, y0: int, x1: int, y1: int)
    requires y0 == y1 && x0 != x1
    ensures var r := Rasterize(x0, y0, x1, y1);
      && |r| == Abs(x1 - x0) + 1
      && (forall i | 0 <= i < |r| :: r[i] == Point(Min(x0, x1) + i, y0))
      && r[0] == Point(Min(x0, x1), y0)
      && r[|r| - 1] == Point(Max(x0, x1), y0)
  {
  }

  /** For every input: an 8-connected path without repeated cells, one cell
      per unit of the longer axis, inside the bounding box, whose two ends are
      the two endpoints. */
  lemma RasterizeIsPath(x0: int, y0: int, x1: int, y1: int)
    ensures var r := Rasterize(x0, y0, x1, y1);
      && |r| == Max(Abs(x1 - x0), Abs(y1 - y0)) + 1
      && Connected(r)
      && NoRepeats(r)
      && (forall i | 0 <= i < |r| :: InBox(r[i], Point(x0, y0), Point(x1, y1)))
      && {r[0], r[|r| - 1]} == {Point(x0, y0), Point(x1, y1)}
  {
    if x0 != x1 && y0 != y1 {
      RasterizeGeneral(x0, y0, x1, y1);
    } else if x0 == x1 {
      VerticalLine(x0, y0, x1, y1);
    } else {
      HorizontalLine(x0, y0, x1, y1);
    }
  }

  /** A reversed vertical input does not start at its start point. */
  lemma ReversedVerticalStartsLow()
    ensures Rasterize(0, 2, 0, 0) == [Point(0, 0), Point(0, 1), Point(0, 2)]
  {
  }

  lemma SinglePoint(x: int, y: int)
    ensures Rasterize(x, y, x, y) == [Point(x, y)]
  {
  }

  /** dx = 3, dy = 1: the tie-break sequence of the general loop. */
  lemma ShallowLineExample()
    ensures Rasterize(0, 0, 3, 1) == [Point(0, 0), Point(1, 0), Point(2, 1), Point(3, 1)]
  {
  }

  /** The rasterizer is not symmetric: the same two endpoints given in the
      other order produce a different set of cells. */
  lemma NotSymmetric()
    ensures Rasterize(0, 0, 2, 1) == [Point(0, 0), Point(1, 0), Point(2, 1)]
    ensures Rasterize(2, 1, 0, 0) == [Point(2, 1), Point(1, 1), Point(0, 0)]
  {
  }

  // ---------------------------------------------------------------------------
  // The collection of lines
  // ---------------------------------------------------------------------------

  /** All lines' points, line after line, in insertion order. */
  function Concat(lines: seq<seq<Point>>): seq<Point> {
    if lines == [] then [] else Concat(lines[..|lines| - 1]) + lines[|lines| - 1]
  }

  /** The sum of the lines' lengths. */
  function TotalLength(lines: seq<seq<Point>>): nat {
    if lines == [] then 0 else |lines[0]| + TotalLength(lines[1..])
  }

  class BresenhamPoints {
    var lines: seq<seq<Point>>

    constructor ()
      ensures lines == []
    {
      lines := [];
    }

    method AddLine(points: seq<Point>)
      modifies this
      ensures lines == old(lines) + [points]
    {
      lines := lines + [points];
    }

    method GetAllPoints() returns (allPoints: seq<Point>)
      ensures allPoints == Concat(lines)
    {
      allPoints := [];
      for i := 0 to |lines|
        invariant allPoints == Concat(lines[..i])
      {
        assert lines[..i + 1][..i] == lines[..i];
        allPoints := allPoints + lines[i];
      }
      assert lines[..|lines|] == lines;
    }
  }

  /** Concatenating a split collection is concatenating each part. */
  lemma {:induction false} ConcatAppend(a: seq<seq<Point>>, b: seq<seq<Point>>)
    ensures Concat(a + b) == Concat(a) + Concat(b)
    decreases |b|
  {
    if b == [] {
      assert a + b == a;
    } else {
      var b' := b[..|b| - 1];
      assert (a + b)[..|a + b| - 1] == a + b';
      ConcatAppend(a, b');
    }
  }

  lemma {:induction false} ConcatLength(lines: seq<seq<Point>>)
    ensures |Concat(lines)| == TotalLength(lines)
    decreases |lines|
  {
    if lines != [] {
      ConcatAppend([lines[0]], lines[1..]);
      assert [lines[0]] + lines[1..] == lines;
      assert Concat([lines[0]]) == Concat([]) + lines[0];
      ConcatLength(lines[1..]);
    }
  }

  /** A point is among all points exactly when some line holds it. */
  lemma {:induction false} ConcatMembers(lines: seq<seq<Point>>, p: Point)
    ensures p in Concat(lines) <==> exists k | 0 <= k < |lines| :: p in lines[k]
    decreases |lines|
  {
    if lines != [] {
      var init := lines[..|lines| - 1];
      ConcatMembers(init, p);
      if p in Concat(lines) && p !in lines[|lines| - 1] {
        var k :| 0 <= k < |init| && p in init[k];
        assert lines[k] == init[k];
      }
      if exists k | 0 <= k < |lines| :: p in lines[k] {
        var k :| 0 <= k < |lines| && p in lines[k];
        if k < |init| {
          assert p in init[k];
        }
      }
    }
  }
}
