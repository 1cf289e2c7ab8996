/**
 * The dotted border drawn around the crop square: four straight runs (top,
 * right, bottom, left) each place dots `step = lineWeight + gap` apart and hand
 * the distance by which they overshot their end corner to the next run as its
 * starting offset.
 */
module DottedBorder {
  import opened Geometry

  /** The unit direction a run walks in. */
  datatype Direction = East | South | West | North {
    function DX(): real {
      match this
      case East => 1.0
      case West => -1.0
      case _ => 0.0
    }

    function DY(): real {
      match this
      case South => 1.0
      case North => -1.0
      case _ => 0.0
    }
  }

  /** The directions of the four runs, in drawing order. */
  const Sides: seq<Direction> := [East, South, West, North]

  /** The point `distance` along `dir` from `start`. */
  function Along(start: Coordinate, dir: Direction, distance: real): Coordinate {
    match dir
    case East => Coordinate(start.x + distance, start.y)
    case South => Coordinate(start.x, start.y + distance)
    case West => Coordinate(start.x - distance, start.y)
    case North => Coordinate(start.x, start.y - distance)
  }

  /** The points at the given distances along `dir` from `start`. */
  function AlongAll(start: Coordinate, dir: Direction, distances: seq<real>): (points: seq<Coordinate>)
    ensures |points| == |distances|
    ensures forall k :: 0 <= k < |distances| ==> points[k] == Along(start, dir, distances[k])
  {
    if distances == [] then [] else AlongAll(start, dir, distances[..|distances| - 1]) + [Along(start, dir, distances[|distances| - 1])]
  }

  /** One run: the distances of its dots from the run's start corner, and its overshoot past the end corner. */
  datatype Run = Run(positions: seq<real>, overshoot: real)

  lemma DivShift(a: real, s: real)
    requires s > 0.0
    ensures (a - s) / s == a / s - 1.0
  {
    var q := a / s;
    var p := (a - s) / s;
    assert q * s == a;
    assert p * s == a - s;
    var d := p - q + 1.0;
    assert d * s == 0.0;
    if d > 0.0 {
      assert false;
    } else if d < 0.0 {
      assert false;
    }
  }

  /** How many more dots a walk at distance `t` can still place; it shrinks by one with every dot. */
  function DotsLeft(t: real, length: real, step: real): int
    requires step > 0.0
  {
    if t <= length then ((length - t) / step).Floor + 1 else 0
  }

  lemma DotsLeftShrinks(t: real, length: real, step: real)
    requires step > 0.0 && t <= length
    ensures 0 <= DotsLeft(t + step, length, step) < DotsLeft(t, length, step)
  {
    DivShift(length - t, step);
    assert length - (t + step) == (length - t) - step;
  }

  /**
   * One run along an axis: dots `step` apart from distance `t` on, as long as
   * they do not pass `length`, and the distance past `length` at which the
   * walk stops.
   */
  function Walk(t: real, length: real, step: real): (r: Run)
    requires step > 0.0
    ensures |r.positions| > 0 <==> t <= length
    ensures r.overshoot > 0.0
    decreases DotsLeft(t, length, step)
  {
    if t <= length then
      DotsLeftShrinks(t, length, step);
      var rest := Walk(t + step, length, step);
      Run([t] + rest.positions, rest.overshoot)
    else
      Run([], t - length)
  }

  /**
   * The shape of a run: it starts at `t`, consecutive dots are exactly `step`
   * apart, every dot lies between `t` and `length`, and the overshoot is the
   * distance from the last dot plus one step to `length`, at most one step.
   */
  lemma {:induction false} WalkShape(t: real, length: real, step: real)
    requires step > 0.0
    ensures var r := Walk(t, length, step);
      && (|r.positions| > 0 ==> r.positions[0] == t)
      && (forall k :: 0 <= k < |r.positions| - 1 ==> r.positions[k + 1] == r.positions[k] + step)
      && (forall k :: 0 <= k < |r.positions| ==> t <= r.positions[k] <= length)
      && (|r.positions| > 0 ==> r.overshoot == r.positions[|r.positions| - 1] + step - length)
      && (|r.positions| == 0 ==> r.overshoot == t - length)
      && (|r.positions| > 0 ==> r.overshoot <= step)
    decreases DotsLeft(t, length, step)
  {
    if t <= length {
      DotsLeftShrinks(t, length, step);
      WalkShape(t + step, length, step);
      var rest := Walk(t + step, length, step);
      var r := Walk(t, length, step);
      assert r.positions == [t] + rest.positions;
      forall k | 0 <= k < |r.positions| - 1
        ensures r.positions[k + 1] == r.positions[k] + step
      {
        if k > 0 {
          assert r.positions[k + 1] == rest.positions[k];
          assert r.positions[k] == rest.positions[k - 1];
        }
      }
    }
  }

  /** Moving one step further along a direction adds the direction times the step to each coordinate. */
  lemma AlongStep(start: Coordinate, dir: Direction, t: real, step: real)
    ensures Along(start, dir, t + step)
         == Coordinate(Along(start, dir, t).x + dir.DX() * step, Along(start, dir, t).y + dir.DY() * step)
  {
  }

  /** The loop test of a run, exactly as the code writes it for a direction with components in {-1, 0, 1}. */
  predicate RunContinues(dir: Direction, x: real, y: real, limitX: real, limitY: real) {
    (dir.DX() != 0.0 && dir.DX() * x <= dir.DX() * limitX)
    || (dir.DY() != 0.0 && dir.DY() * y <= dir.DY() * limitY)
  }

  /**
   * One side of the border as the code draws it: starting `offset` along
   * `dir` from `(x, y)`, a dot every `lineWeight + gap` while the position has
   * not passed the side's far corner; returns the overshoot past that corner.
   */
  method CreateBorderSide(x: real, y: real, offset: real, sideSize: real, lineWeight: real, gap: real, dir: Direction)
    returns (dots: seq<Coordinate>, overshoot: real)
    requires lineWeight + gap > 0.0
    ensures var run := Walk(offset, sideSize, lineWeight + gap);
      && |dots| == |run.positions|
      && (forall k :: 0 <= k < |dots| ==> dots[k] == Along(Coordinate(x, y), dir, run.positions[k]))
      && overshoot == run.overshoot
  {
    var step := lineWeight + gap;
    var limitX := x + dir.DX() * sideSize;
    var limitY := y + dir.DY() * sideSize;
    var cx := x + dir.DX() * offset;
    var cy := y + dir.DY() * offset;
    AlongStep(Coordinate(x, y), dir, 0.0, offset);
    ghost var t := offset;
    ghost var placed: seq<real> := [];
    dots := [];
    while RunContinues(dir, cx, cy, limitX, limitY)
      invariant Coordinate(cx, cy) == Along(Coordinate(x, y), dir, t)
      invariant Walk(offset, sideSize, step).positions == placed + Walk(t, sideSize, step).positions
      invariant Walk(offset, sideSize, step).overshoot == Walk(t, sideSize, step).overshoot
      invariant |dots| == |placed|
      invariant forall k :: 0 <= k < |dots| ==> dots[k] == Along(Coordinate(x, y), dir, placed[k])
      decreases DotsLeft(t, sideSize, step)
    {
      RunGeometry(dir, x, y, t, sideSize, cx, cy, limitX, limitY);
      DotsLeftShrinks(t, sideSize, step);
      AlongStep(Coordinate(x, y), dir, t, step);
      assert placed + Walk(t, sideSize, step).positions == (placed + [t]) + Walk(t + step, sideSize, step).positions;
      dots := dots + [Coordinate(cx, cy)];
      placed := placed + [t];
      cx := cx + dir.DX() * step;
      cy := cy + dir.DY() * step;
      t := t + step;
    }
    RunGeometry(dir, x, y, t, sideSize, cx, cy, limitX, limitY);
    assert placed == Walk(offset, sideSize, step).positions;
    overshoot := if dir.DX() != 0.0 then dir.DX() * (cx - limitX) else dir.DY() * (cy - limitY);
    assert overshoot == OvershootAt(dir, cx, cy, limitX, limitY);
  }

  /** The overshoot as the code computes it from the final position and the far corner. */
  function OvershootAt(dir: Direction, x: real, y: real, limitX: real, limitY: real): real {
    if dir.DX() != 0.0 then dir.DX() * (x - limitX) else dir.DY() * (y - limitY)
  }

  /**
   * Along any of the four directions, the code's loop test means "not yet
   * past the far corner", and its overshoot is the distance walked beyond it.
   */
  lemma RunGeometry(dir: Direction, x: real, y: real, t: real, length: real, cx: real, cy: real, limitX: real, limitY: real)
    requires Coordinate(cx, cy) == Along(Coordinate(x, y), dir, t)
    requires limitX == x + dir.DX() * length && limitY == y + dir.DY() * length
    ensures RunContinues(dir, cx, cy, limitX, limitY) <==> t <= length
    ensures OvershootAt(dir, cx, cy, limitX, limitY) == t - length
  {
  }

  /** The four runs of a border of side `length`: the first starts at the corner, each later one at the previous overshoot. */
  function BorderRuns(length: real, step: real): (runs: seq<Run>)
    requires step > 0.0
    ensures |runs| == 4
    ensures runs[0] == Walk(0.0, length, step)
    ensures forall i :: 0 <= i < 3 ==> runs[i + 1] == Walk(runs[i].overshoot, length, step)
  {
    var top := Walk(0.0, length, step);
    var right := Walk(top.overshoot, length, step);
    var bottom := Walk(right.overshoot, length, step);
    var left := Walk(bottom.overshoot, length, step);
    [top, right, bottom, left]
  }

  /** The start corners of the four runs on the square of side `length` whose top-left corner is `(x, y)`. */
  function StartCorners(x: real, y: real, length: real): seq<Coordinate> {
    [Coordinate(x, y), Coordinate(x + length, y), Coordinate(x + length, y + length), Coordinate(x, y + length)]
  }

  /** `p` lies on the outline of the square of side `length` with top-left corner `(x, y)`. */
  predicate OnSquareOutline(p: Coordinate, x: real, y: real, length: real) {
    && x <= p.x <= x + length && y <= p.y <= y + length
    && (p.x == x || p.x == x + length || p.y == y || p.y == y + length)
  }

  /**
   * The dotted border: inset by half a dot so the dots are centred on the
   * square's outline, then four runs, each continuing from the previous
   * run's overshoot. Returns the dot centres of the four sides.
   */
  method CreateBorder(x: real, y: real, sideSize: real, lineWeight: real, gap: real)
    returns (sides: seq<seq<Coordinate>>)
    requires lineWeight + gap > 0.0
    ensures var length := sideSize - lineWeight;
      var runs := BorderRuns(length, lineWeight + gap);
      var corners := StartCorners(x + lineWeight / 2.0, y + lineWeight / 2.0, length);
      && |sides| == 4
      && (forall i :: 0 <= i < 4 ==> |sides[i]| == |runs[i].positions|)
      && (forall i, k :: 0 <= i < 4 && 0 <= k < |sides[i]| ==> sides[i][k] == Along(corners[i], Sides[i], runs[i].positions[k]))
    ensures forall i, k :: 0 <= i < 4 && 0 <= k < |sides[i]| ==>
      OnSquareOutline(sides[i][k], x + lineWeight / 2.0, y + lineWeight / 2.0, sideSize - lineWeight)
  {
    var x0 := x + lineWeight / 2.0;
    var y0 := y + lineWeight / 2.0;
    var length := sideSize - lineWeight;
    ghost var runs := BorderRuns(length, lineWeight + gap);
    ghost var corners := StartCorners(x0, y0, length);
    var top, offset := CreateBorderSide(x0, y0, 0.0, length, lineWeight, gap, East);
    var right, offset1 := CreateBorderSide(x0 + length, y0, offset, length, lineWeight, gap, South);
    var bottom, offset2 := CreateBorderSide(x0 + length, y0 + length, offset1, length, lineWeight, gap, West);
    var left, _ := CreateBorderSide(x0, y0 + length, offset2, length, lineWeight, gap, North);
    sides := [top, right, bottom, left];
    DotsOnOutline(sides, x0, y0, length, lineWeight + gap);
  }

  /** Dots placed at run positions from the run's start corner lie on the square's outline. */
  lemma DotsOnOutline(sides: seq<seq<Coordinate>>, x0: real, y0: real, length: real, step: real)
    requires step > 0.0
    requires var runs := BorderRuns(length, step);
      var corners := StartCorners(x0, y0, length);
      && |sides| == 4
      && (forall i :: 0 <= i < 4 ==> |sides[i]| == |runs[i].positions|)
      && (forall i, k :: 0 <= i < 4 && 0 <= k < |sides[i]| ==> sides[i][k] == Along(corners[i], Sides[i], runs[i].positions[k]))
    ensures forall i, k :: 0 <= i < 4 && 0 <= k < |sides[i]| ==> OnSquareOutline(sides[i][k], x0, y0, length)
  {
    var runs := BorderRuns(length, step);
    forall i, k | 0 <= i < 4 && 0 <= k < |sides[i]|
      ensures OnSquareOutline(sides[i][k], x0, y0, length)
    {
      RunStaysOnSide(i, runs[i], length, step);
    }
  }

  /** Every position of every run lies between the run's start and end corner. */
  lemma RunStaysOnSide(i: int, run: Run, length: real, step: real)
    requires 0 <= i < 4 && step > 0.0
    requires run == BorderRuns(length, step)[i]
    ensures forall k :: 0 <= k < |run.positions| ==> 0.0 <= run.positions[k] <= length
  {
    var runs := BorderRuns(length, step);
    if i == 0 {
      WalkShape(0.0, length, step);
    } else {
      WalkShape(runs[i - 1].overshoot, length, step);
    }
  }

  /** Every distance moved `d` further along the path. */
  function Shift(s: seq<real>, d: real): seq<real> {
    if s == [] then [] else [s[0] + d] + Shift(s[1..], d)
  }

  /** Shifting keeps the length and adds `d` to every distance. */
  lemma {:induction false} ShiftIndex(s: seq<real>, d: real)
    ensures |Shift(s, d)| == |s|
    ensures forall i :: 0 <= i < |s| ==> Shift(s, d)[i] == s[i] + d
  {
    if s != [] {
      ShiftIndex(s[1..], d);
    }
  }

  lemma {:induction false} ShiftAppend(a: seq<real>, b: seq<real>, d: real)
    ensures Shift(a + b, d) == Shift(a, d) + Shift(b, d)
  {
    if a == [] {
      assert a + b == b;
    } else {
      assert (a + b)[1..] == a[1..] + b;
      ShiftAppend(a[1..], b, d);
    }
  }

  lemma {:induction false} ShiftShift(a: seq<real>, d: real, e: real, de: real)
    requires de == d + e
    ensures Shift(Shift(a, d), e) == Shift(a, de)
  {
    if a != [] {
      ShiftShift(a[1..], d, e, de);
      assert Shift(a, d)[1..] == Shift(a[1..], d);
    }
  }

  lemma ShiftZero(a: seq<real>)
    ensures Shift(a, 0.0) == a
  {
    ShiftIndex(a, 0.0);
  }

  lemma ShiftCons(x: real, p: seq<real>, d: real)
    ensures Shift([x] + p, d) == [x + d] + Shift(p, d)
  {
    assert ([x] + p)[1..] == p;
  }

  lemma EmptyAppend<T>(p: seq<T>)
    ensures [] + p == p
  {
  }

  lemma ConsAppend<T>(x: T, p: seq<T>, q: seq<T>)
    ensures [x] + (p + q) == ([x] + p) + q
  {
  }

  /** Moving both the start and the end of a walk by `d` moves every dot by `d` and keeps the overshoot. */
  lemma {:induction false} WalkShift(t: real, length: real, d: real, u: real, m: real, step: real)
    requires step > 0.0 && u == t + d && m == length + d
    ensures Walk(u, m, step) == Run(Shift(Walk(t, length, step).positions, d), Walk(t, length, step).overshoot)
    decreases DotsLeft(t, length, step)
  {
    if t <= length {
      DotsLeftShrinks(t, length, step);
      WalkShift(t + step, length, d, u + step, m, step);
      ShiftCons(t, Walk(t + step, length, step).positions, d);
    }
  }

  /**
   * The split statement: walking `total = a + b` from `t` places the dots of
   * the walk of `a` from `t`, followed by those of the walk of `b` from its
   * overshoot shifted by `a`, and ends with the latter's overshoot.
   */
  predicate SplitHolds(t: real, a: real, b: real, total: real, step: real)
    requires step > 0.0
  {
    var first := Walk(t, a, step);
    var second := Walk(first.overshoot, b, step);
    Walk(t, total, step) == Run(first.positions + Shift(second.positions, a), second.overshoot)
  }

  /** Walking a length `a + b` in one go is walking `a` and then continuing from the overshoot for `b`. */
  lemma {:induction false} WalkSplit(t: real, a: real, b: real, total: real, step: real)
    requires step > 0.0 && b >= 0.0 && total == a + b
    ensures SplitHolds(t, a, b, total, step)
    decreases DotsLeft(t, a, step)
  {
    if t <= a {
      DotsLeftShrinks(t, a, step);
      WalkSplit(t + step, a, b, total, step);
      WalkSplitStep(t, a, b, total, step);
    } else {
      WalkSplitPast(t, a, b, total, step);
    }
  }

  /** One dot before `a`: the split from `t` follows from the split one step further. */
  lemma WalkSplitStep(t: real, a: real, b: real, total: real, step: real)
    requires step > 0.0 && b >= 0.0 && total == a + b && t <= a
    requires SplitHolds(t + step, a, b, total, step)
    ensures SplitHolds(t, a, b, total, step)
  {
    var rest := Walk(t + step, a, step);
    var second := Walk(rest.overshoot, b, step);
    ConsAppend(t, rest.positions, Shift(second.positions, a));
  }

  /** Already past `a`: no dots before `a`, and the rest is the walk of `b` shifted by `a`. */
  lemma WalkSplitPast(t: real, a: real, b: real, total: real, step: real)
    requires step > 0.0 && total == a + b && t > a
    ensures SplitHolds(t, a, b, total, step)
  {
    WalkShift(t - a, b, a, t, total, step);
    EmptyAppend(Shift(Walk(t - a, b, step).positions, a));
  }

  /** The distances of all dots along the border path, the runs laid end to end. */
  function PerimeterPositions(length: real, step: real): seq<real>
    requires step > 0.0
  {
    var runs := BorderRuns(length, step);
    runs[0].positions + Shift(runs[1].positions, length) + Shift(runs[2].positions, 2.0 * length)
      + Shift(runs[3].positions, 3.0 * length)
  }

  /** Shifting two shifted pieces shifts each piece further. */
  lemma ShiftPair(a: seq<real>, b: seq<real>, d: real, e: real, f: real, df: real, ef: real)
    requires df == d + f && ef == e + f
    ensures Shift(Shift(a, d) + Shift(b, e), f) == Shift(a, df) + Shift(b, ef)
  {
    ShiftAppend(Shift(a, d), Shift(b, e), f);
    ShiftShift(a, d, f, df);
    ShiftShift(b, e, f, ef);
  }

  /** Shifting a piece followed by a shifted piece. */
  lemma ShiftOverShifted(a: seq<real>, b: seq<real>, e: real, f: real, ef: real)
    requires ef == e + f
    ensures Shift(a + Shift(b, e), f) == Shift(a, f) + Shift(b, ef)
  {
    ShiftAppend(a, Shift(b, e), f);
    ShiftShift(b, e, f, ef);
  }

  lemma Assoc4<T>(a: seq<T>, b: seq<T>, c: seq<T>, d: seq<T>)
    ensures a + (b + (c + d)) == a + b + c + d
  {
  }

  /** Flattening the nested shifts of three splits. */
  lemma NestedShifts(p0: seq<real>, p1: seq<real>, p2: seq<real>, p3: seq<real>, l: real)
    ensures p0 + Shift(p1 + Shift(p2 + Shift(p3, l), l), l)
         == p0 + Shift(p1, l) + Shift(p2, 2.0 * l) + Shift(p3, 3.0 * l)
  {
    var y := Shift(p2, l) + Shift(p3, 2.0 * l);
    ShiftOverShifted(p2, p3, l, l, 2.0 * l);
    ShiftAppend(p1, y, l);
    ShiftPair(p2, p3, l, 2.0 * l, l, 2.0 * l, 3.0 * l);
    Assoc4(p0, Shift(p1, l), Shift(p2, 2.0 * l), Shift(p3, 3.0 * l));
  }

  /**
   * Carrying the overshoot from run to run makes the four runs one walk
   * around the whole perimeter: the dots are those of a single walk of
   * length `4 * length` from the first corner.
   */
  lemma PerimeterIsOneWalk(length: real, step: real)
    requires step > 0.0 && length >= 0.0
    ensures Walk(0.0, 4.0 * length, step) == Run(PerimeterPositions(length, step), BorderRuns(length, step)[3].overshoot)
  {
    var runs := BorderRuns(length, step);
    var w2 := Walk(runs[1].overshoot, 2.0 * length, step);
    var w3 := Walk(runs[0].overshoot, 3.0 * length, step);
    WalkSplit(runs[1].overshoot, length, length, 2.0 * length, step);
    assert w2 == Run(runs[2].positions + Shift(runs[3].positions, length), runs[3].overshoot);
    WalkSplit(runs[0].overshoot, length, 2.0 * length, 3.0 * length, step);
    assert w3 == Run(runs[1].positions + Shift(w2.positions, length), runs[3].overshoot);
    WalkSplit(0.0, length, 3.0 * length, 4.0 * length, step);
    NestedShifts(runs[0].positions, runs[1].positions, runs[2].positions, runs[3].positions, length);
  }

  /** Around the whole path, consecutive dots are exactly one step apart, starting at the first corner. */
  lemma PerimeterEvenlySpaced(length: real, step: real)
    requires step > 0.0 && length >= 0.0
    ensures var p := PerimeterPositions(length, step);
      && |p| > 0 && p[0] == 0.0
      && (forall k :: 0 <= k < |p| - 1 ==> p[k + 1] == p[k] + step)
      && (forall k :: 0 <= k < |p| ==> 0.0 <= p[k] <= 4.0 * length)
  {
    PerimeterIsOneWalk(length, step);
    WalkShape(0.0, 4.0 * length, step);
  }

  /** The distance from the start corner at which run `i` begins: 0 for the first run, the carried overshoot after that. */
  function RunStart(runs: seq<Run>, i: int): real
    requires |runs| == 4 && 0 <= i < 4
  {
    if i == 0 then 0.0 else runs[i - 1].overshoot
  }

  /**
   * Across a corner between two runs that both have dots, the distance along
   * the path from the last dot before the corner to the first dot after it
   * is exactly one step.
   */
  lemma CornerContinuity(length: real, step: real, i: int)
    requires step > 0.0 && 0 <= i < 3
    requires var runs := BorderRuns(length, step);
      |runs[i].positions| > 0 && |runs[i + 1].positions| > 0
    ensures var runs := BorderRuns(length, step);
      var before := runs[i].positions;
      (length - before[|before| - 1]) + runs[i + 1].positions[0] == step
  {
    var runs := BorderRuns(length, step);
    WalkShape(RunStart(runs, i), length, step);
    WalkShape(runs[i].overshoot, length, step);
  }

  /**
   * The border has no dots at all exactly when the side is shorter than the
   * dot diameter, so that the inset side length is negative.
   */
  lemma NoDotsIffDegenerate(sideSize: real, lineWeight: real, gap: real)
    requires lineWeight + gap > 0.0
    ensures var runs := BorderRuns(sideSize - lineWeight, lineWeight + gap);
      (forall i :: 0 <= i < 4 ==> |runs[i].positions| == 0) <==> sideSize < lineWeight
  {
    var length := sideSize - lineWeight;
    var step := lineWeight + gap;
    var runs := BorderRuns(length, step);
    if length < 0.0 {
      assert runs[0] == Run([], -length);
      assert runs[1] == Run([], -2.0 * length);
      assert runs[2] == Run([], -3.0 * length);
      assert runs[3] == Run([], -4.0 * length);
    } else {
      assert |runs[0].positions| > 0;
    }
  }

  /**
   * The seam at the first corner, where the last run meets the first: the
   * distance along the path from the last dot back to the first one is one
   * step minus the final overshoot, so it is less than a step and may be
   * anything down to zero.
   */
  lemma ClosingSeam(length: real, step: real)
    requires step > 0.0 && length >= 0.0
    ensures var p := PerimeterPositions(length, step);
      && |p| > 0
      && 4.0 * length - p[|p| - 1] == step - BorderRuns(length, step)[3].overshoot
      && 0.0 <= 4.0 * length - p[|p| - 1] < step
  {
    PerimeterIsOneWalk(length, step);
    WalkShape(0.0, 4.0 * length, step);
  }

  /**
   * A square of side 13 with dots of diameter 6 and gaps of 7: one dot on the
   * top, one on the right, none on the bottom and one on the left, and the
   * last dot is only 2 from the first, closer than a dot diameter.
   */
  lemma ClosingSeamExample()
    ensures BorderRuns(7.0, 13.0) == [Run([0.0], 6.0), Run([6.0], 12.0), Run([], 5.0), Run([5.0], 11.0)]
    ensures PerimeterPositions(7.0, 13.0) == [0.0, 13.0, 26.0]
    ensures 4.0 * 7.0 - PerimeterPositions(7.0, 13.0)[2] == 2.0
  {
    assert Walk(13.0, 7.0, 13.0) == Run([], 6.0);
    assert Walk(0.0, 7.0, 13.0) == Run([0.0], 6.0);
    assert Walk(19.0, 7.0, 13.0) == Run([], 12.0);
    assert Walk(6.0, 7.0, 13.0) == Run([6.0], 12.0);
    assert Walk(12.0, 7.0, 13.0) == Run([], 5.0);
    assert Walk(18.0, 7.0, 13.0) == Run([], 11.0);
    assert Walk(5.0, 7.0, 13.0) == Run([5.0], 11.0);
    ShiftCons(6.0, [], 7.0);
    ShiftCons(5.0, [], 21.0);
    assert Shift([], 14.0) == [];
  }
}
