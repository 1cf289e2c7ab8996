/**
 * The crop editor: the loaded image, the crop square over it, the cursor
 * remembered while a drag is in progress, and the redraws it has scheduled.
 * Setting or moving the square, dragging, the geometry of one redraw and the
 * export of the cropped region.
 */
module Cropper {
  import opened Wrappers
  import opened Geometry
  import opened DottedBorder

  /** A colour value of one source pixel; its encoding does not matter here. */
  type Pixel = nat

  /** A decoded raster image: `rows[j][i]` is the pixel in column `i` of row `j`. */
  datatype Raster = Raster(width: nat, height: nat, rows: seq<seq<Pixel>>) {
    predicate Valid() {
      |rows| == height && forall j :: 0 <= j < |rows| ==> |rows[j]| == width
    }
  }

  /**
   * The editor. `image` is 0 by 0 until the image has loaded; `constraint` is
   * absent until then. `cursor` is present exactly while a drag is in
   * progress. `pendingFrames` counts the animation frames requested so far:
   * every one of them redraws the canvas and announces a `resizerchange`.
   */
  datatype Resizer = Resizer(image: Raster, constraint: Option<Square>, cursor: Option<Coordinate>, pendingFrames: nat)

  /** Proportion of the shorter image side that the initial crop square takes. */
  const InitialSideRatio: real := 0.75

  /** A freshly constructed editor, before its image has loaded. */
  function NewResizer(): (r: Resizer)
    ensures r.constraint.None? && r.cursor.None? && r.pendingFrames == 0
    ensures r.image.Valid() && r.image.width == 0 && r.image.height == 0
  {
    Resizer(Raster(0, 0, []), None, None, 0)
  }

  predicate Loaded(r: Resizer) {
    r.constraint.Some?
  }

  /**
   * The crop square proposed when an image of `width` by `height` loads:
   * three quarters of the shorter side, centred on the image.
   */
  function InitialConstraint(width: nat, height: nat): (s: Square)
    ensures s.side == InitialSideRatio * MinReal(width as real, height as real)
    ensures s.x + s.side / 2.0 == width as real / 2.0 && s.y + s.side / 2.0 == height as real / 2.0
    ensures 0.0 <= s.x && s.x + s.side <= width as real
    ensures 0.0 <= s.y && s.y + s.side <= height as real
  {
    var side := MinReal(width as real * InitialSideRatio, height as real * InitialSideRatio);
    Square(width as real / 2.0 - side / 2.0, height as real / 2.0 - side / 2.0, side)
  }

  /**
   * The image has loaded: the canvas takes the image's size and the crop
   * square is the initial one. The first redraw happens directly, not in a
   * requested frame.
   */
  function OnImageLoad(r: Resizer, image: Raster): (r': Resizer)
    requires image.Valid()
    ensures Loaded(r') && r'.image == image
    ensures r'.constraint.value == InitialConstraint(image.width, image.height)
    ensures r'.cursor == r.cursor && r'.pendingFrames == r.pendingFrames
  {
    r.(image := image, constraint := Some(InitialConstraint(image.width, image.height)))
  }

  /** The field a `setConstraint` argument leaves behind: a supplied value replaces it, an omitted one keeps it. */
  function Supplied(value: Option<real>, current: real): (v: real)
    ensures value.Some? ==> v == value.value
    ensures value.None? ==> v == current
  {
    value.GetOr(current)
  }

  /**
   * Overwrites exactly the supplied fields of the crop square and requests
   * one animation frame. Requires a loaded image: before that the square is
   * absent and the call fails.
   */
  function SetConstraint(r: Resizer, x: Option<real>, y: Option<real>, side: Option<real>): (r': Resizer)
    requires Loaded(r)
    ensures Loaded(r') && r'.image == r.image && r'.cursor == r.cursor
    ensures r'.pendingFrames == r.pendingFrames + 1
    ensures var c, c' := r.constraint.value, r'.constraint.value;
      && (if x.Some? then c'.x == x.value else c'.x == c.x)
      && (if y.Some? then c'.y == y.value else c'.y == c.y)
      && (if side.Some? then c'.side == side.value else c'.side == c.side)
  {
    var c := r.constraint.value;
    r.(constraint := Some(Square(Supplied(x, c.x), Supplied(y, c.y), Supplied(side, c.side))),
       pendingFrames := r.pendingFrames + 1)
  }

  /** `delta || 0`: an omitted delta counts as no change. */
  function OrZero(delta: Option<real>): real {
    delta.GetOr(0.0)
  }

  /** Moves the crop square by the given deltas, an omitted delta meaning 0. */
  function MoveConstraint(r: Resizer, dx: Option<real>, dy: Option<real>, dside: Option<real>): (r': Resizer)
    requires Loaded(r)
    ensures Loaded(r') && r'.image == r.image && r'.cursor == r.cursor
    ensures r'.pendingFrames == r.pendingFrames + 1
    ensures var c, c' := r.constraint.value, r'.constraint.value;
      && c'.x - c.x == (if dx.Some? then dx.value else 0.0)
      && c'.y - c.y == (if dy.Some? then dy.value else 0.0)
      && c'.side - c.side == (if dside.Some? then dside.value else 0.0)
  {
    var c := r.constraint.value;
    SetConstraint(r, Some(c.x + OrZero(dx)), Some(c.y + OrZero(dy)), Some(c.side + OrZero(dside)))
  }

  /**
   * A move is the setting of all three fields to their shifted values. This is
   * how the source defines a move, so the lemma only records that definition.
   */
  lemma MoveIsSetOfSums(r: Resizer, dx: Option<real>, dy: Option<real>, dside: Option<real>)
    requires Loaded(r)
    ensures var c := r.constraint.value;
      MoveConstraint(r, dx, dy, dside) == SetConstraint(r, Some(c.x + OrZero(dx)), Some(c.y + OrZero(dy)), Some(c.side + OrZero(dside)))
  {
  }

  /** Moving by `(dx, dy)` and back by `(-dx, -dy)` restores the position and never touches the side. */
  lemma MoveThenMoveBack(r: Resizer, dx: real, dy: real)
    requires Loaded(r)
    ensures var moved := MoveConstraint(r, Some(dx), Some(dy), None);
      && moved.constraint.value.side == r.constraint.value.side
      && MoveConstraint(moved, Some(-dx), Some(-dy), None).constraint == r.constraint
  {
  }

  /** Two moves have the effect of one move by the summed deltas, one frame apart. */
  lemma MovesCompose(r: Resizer, dx1: real, dy1: real, dx2: real, dy2: real)
    requires Loaded(r)
    ensures var twice := MoveConstraint(MoveConstraint(r, Some(dx1), Some(dy1), None), Some(dx2), Some(dy2), None);
      var once := MoveConstraint(r, Some(dx1 + dx2), Some(dy1 + dy2), None);
      twice.constraint == once.constraint && twice.pendingFrames == once.pendingFrames + 1
  {
  }

  /** Setting the same fields twice leaves the square as one setting does. */
  lemma SetConstraintIdempotent(r: Resizer, x: Option<real>, y: Option<real>, side: Option<real>)
    requires Loaded(r)
    ensures var once := SetConstraint(r, x, y, side);
      SetConstraint(once, x, y, side).constraint == once.constraint
  {
  }

  /** Pressing the mouse: the press position becomes the remembered cursor. */
  function EnterDragMode(r: Resizer, x: real, y: real): (r': Resizer)
    ensures r'.cursor == Some(Coordinate(x, y))
    ensures r'.constraint == r.constraint && r'.image == r.image && r'.pendingFrames == r.pendingFrames
  {
    r.(cursor := Some(Coordinate(x, y)))
  }

  /** Releasing the mouse forgets the cursor. */
  function ExitDragMode(r: Resizer): (r': Resizer)
    ensures r'.cursor.None?
    ensures r'.constraint == r.constraint && r'.image == r.image && r'.pendingFrames == r.pendingFrames
  {
    r.(cursor := None)
  }

  /**
   * A drag step to `(x, y)`: the square moves against the cursor by how far
   * it travelled since the remembered cursor, so the image follows the
   * cursor under a fixed frame; then `(x, y)` is remembered.
   */
  function UpdatePosition(r: Resizer, x: real, y: real): (r': Resizer)
    requires Loaded(r) && r.cursor.Some?
    ensures Loaded(r') && r'.cursor == Some(Coordinate(x, y))
    ensures r'.constraint.value.x == r.constraint.value.x + (r.cursor.value.x - x)
    ensures r'.constraint.value.y == r.constraint.value.y + (r.cursor.value.y - y)
    ensures r'.constraint.value.side == r.constraint.value.side
    ensures r'.pendingFrames == r.pendingFrames + 1
  {
    var moved := MoveConstraint(r, Some(r.cursor.value.x - x), Some(r.cursor.value.y - y), None);
    moved.(cursor := Some(Coordinate(x, y)))
  }

  /** The mouse events the editor listens to. */
  datatype MouseEvent = MouseDown(x: real, y: real) | MouseMove(x: real, y: real) | MouseUp

  /**
   * Dispatch of one mouse event. A press always (re-)enters drag mode; moves
   * and releases are only listened to while a drag is in progress. A move
   * during a drag before the image has loaded fails, so it is excluded.
   */
  function HandleMouse(r: Resizer, ev: MouseEvent): (r': Resizer)
    requires ev.MouseMove? && r.cursor.Some? ==> Loaded(r)
    ensures ev.MouseDown? ==> r' == EnterDragMode(r, ev.x, ev.y)
    ensures ev.MouseMove? && r.cursor.Some? ==> r' == UpdatePosition(r, ev.x, ev.y)
    ensures ev.MouseUp? ==> r'.cursor.None? && r'.constraint == r.constraint
    ensures r.cursor.None? && !ev.MouseDown? ==> r' == r
  {
    match ev
    case MouseDown(x, y) => EnterDragMode(r, x, y)
    case MouseMove(x, y) => if r.cursor.Some? then UpdatePosition(r, x, y) else r
    case MouseUp => if r.cursor.Some? then ExitDragMode(r) else r
  }

  /** Applies a run of cursor positions as drag steps. */
  function DragThrough(r: Resizer, path: seq<Coordinate>): (r': Resizer)
    requires Loaded(r) && r.cursor.Some?
    ensures Loaded(r') && r'.cursor.Some?
    decreases |path|
  {
    if path == [] then r else DragThrough(UpdatePosition(r, path[0].x, path[0].y), path[1..])
  }

  /**
   * However a drag wanders, the square ends up moved by the difference
   * between where the drag started and where it ended, with its side
   * unchanged: the intermediate steps cancel.
   */
  lemma {:induction false} DragTelescopes(r: Resizer, path: seq<Coordinate>)
    requires Loaded(r) && r.cursor.Some? && |path| > 0
    ensures var r' := DragThrough(r, path);
      var c, c', start, end := r.constraint.value, r'.constraint.value, r.cursor.value, path[|path| - 1];
      && c'.x == c.x + (start.x - end.x)
      && c'.y == c.y + (start.y - end.y)
      && c'.side == c.side
      && r'.cursor == Some(end)
      && r'.pendingFrames == r.pendingFrames + |path|
    decreases |path|
  {
    if |path| > 1 {
      var next := UpdatePosition(r, path[0].x, path[0].y);
      DragTelescopes(next, path[1..]);
      assert path[1..][|path| - 2] == path[|path| - 1];
    }
  }

  /** A square at (20, 20) of side 50, pressed at (50, 50) and dragged to (40, 60), ends at (30, 10). */
  lemma DragScenario(image: Raster)
    ensures var r := Resizer(image, Some(Square(20.0, 20.0, 50.0)), None, 0);
      var pressed := HandleMouse(r, MouseDown(50.0, 50.0));
      var dragged := HandleMouse(pressed, MouseMove(40.0, 60.0));
      dragged.constraint == Some(Square(30.0, 10.0, 50.0)) && dragged.cursor == Some(Coordinate(40.0, 60.0))
  {
  }

  /** After a release, further moves leave the square alone until the next press. */
  lemma ReleaseStopsDragging(r: Resizer, x: real, y: real)
    requires Loaded(r)
    ensures var released := HandleMouse(r, MouseUp);
      HandleMouse(released, MouseMove(x, y)) == released
  {
  }

  // ---------------------------------------------------------------------------
  // One redraw, in canvas coordinates with the origin at the canvas centre.
  // ---------------------------------------------------------------------------

  /** Diameter of the border dots, and the amount by which the mask hole is raised. */
  const MaskLineWidth: real := 6.0
  /** Gap between border dots. */
  const BorderGap: real := 7.0
  const LabelFontSize: real := 20.0
  /** The context's line width while the label is placed: the default, since the code never sets it. */
  const ContextLineWidth: real := 1.0

  /**
   * What one redraw puts on the canvas: where the image is drawn, the outer
   * and inner outline of the even-odd mask, where the size label goes and
   * what it says, and the dots of the border.
   */
  datatype Frame = Frame(
    imageAt: Coordinate,
    outer: Rect,
    hole: Rect,
    labelAt: Coordinate,
    sizeLabel: (nat, nat),
    labelMaxWidth: real,
    border: seq<seq<Coordinate>>)

  /** The number of closed outlines of a path that enclose `p`. */
  function EnclosingCount(path: seq<Rect>, p: Coordinate): (n: nat)
    ensures n <= |path|
  {
    if path == [] then 0
    else (if StrictlyInside(path[0], p) then 1 else 0) + EnclosingCount(path[1..], p)
  }

  /** The even-odd fill rule: a point is filled when an odd number of the path's outlines encloses it. */
  predicate EvenOddFilled(path: seq<Rect>, p: Coordinate) {
    EnclosingCount(path, p) % 2 == 1
  }

  /** The shading path: the canvas outline, then the hole's outline. */
  function MaskPath(f: Frame): seq<Rect> {
    [f.outer, f.hole]
  }

  /** The points the shading fills. */
  predicate Darkened(f: Frame, p: Coordinate) {
    EvenOddFilled(MaskPath(f), p)
  }

  /** The image point shown at canvas point `p` when the image is drawn with its top-left corner at `at`. */
  function ImagePointAt(at: Coordinate, p: Coordinate): Coordinate {
    Coordinate(p.x - at.x, p.y - at.y)
  }

  /** The geometry of one redraw of a loaded editor. */
  method Redraw(r: Resizer) returns (f: Frame)
    requires Loaded(r)
    ensures var c := r.constraint.value;
      && ImagePointAt(f.imageAt, Coordinate(0.0, 0.0)) == Coordinate(c.x + c.side / 2.0, c.y + c.side / 2.0)
      && f.outer == Rect(-(r.image.width as real) / 2.0, -(r.image.height as real) / 2.0, r.image.width as real, r.image.height as real)
      && f.hole == Rect(-c.side / 2.0, -c.side / 2.0 - MaskLineWidth, c.side, c.side)
      && f.labelAt == Coordinate(0.0, f.hole.top - ContextLineWidth - LabelFontSize / 2.0)
      && f.sizeLabel == (r.image.width, r.image.height)
      && f.labelMaxWidth == c.side
    ensures |f.border| == 4
    ensures forall i, k :: 0 <= i < 4 && 0 <= k < |f.border[i]| ==>
      OnSquareOutline(f.border[i][k], f.hole.left + MaskLineWidth / 2.0, f.hole.top + MaskLineWidth / 2.0, f.hole.width - MaskLineWidth)
    ensures (forall i :: 0 <= i < 4 ==> |f.border[i]| == 0) <==> r.constraint.value.side < MaskLineWidth
  {
    var c := r.constraint.value;
    var w := r.image.width as real;
    var h := r.image.height as real;
    var imageAt := Coordinate(-(c.x + c.side / 2.0), -(c.y + c.side / 2.0));
    var outer := Rect(-w / 2.0, -h / 2.0, w, h);
    var topX := -c.side / 2.0;
    var topY := -c.side / 2.0 - MaskLineWidth;
    var hole := Rect(topX, topY, c.side, c.side);
    var labelAt := Coordinate(0.0, topY - ContextLineWidth - LabelFontSize / 2.0);
    var border := CreateBorder(topX, topY, c.side, MaskLineWidth, BorderGap);
    NoDotsIffDegenerate(c.side, MaskLineWidth, BorderGap);
    f := Frame(imageAt, outer, hole, labelAt, (r.image.width, r.image.height), c.side, border);
  }

  /**
   * The unshaded window shows the image region of the crop square's size at
   * the crop square's `x`, but raised by the mask's line width: a canvas
   * point lies in the hole exactly when the image point drawn there lies
   * strictly inside that region.
   */
  lemma HoleShowsRaisedRegion(c: Square, f: Frame, p: Coordinate)
    requires f.hole == Rect(-c.side / 2.0, -c.side / 2.0 - MaskLineWidth, c.side, c.side)
    requires f.imageAt == Coordinate(-(c.x + c.side / 2.0), -(c.y + c.side / 2.0))
    ensures StrictlyInside(f.hole, p) <==> StrictlyInside(Rect(c.x, c.y - MaskLineWidth, c.side, c.side), ImagePointAt(f.imageAt, p))
  {
  }

  /** Inside the canvas, the shading darkens exactly the points outside the hole. */
  lemma {:induction false} MaskIsEvenOdd(f: Frame, p: Coordinate)
    requires StrictlyInside(f.outer, p)
    ensures Darkened(f, p) <==> !StrictlyInside(f.hole, p)
  {
    OutlineCounts(f, p);
  }

  /** Outside the canvas, the shading would fill only the part of the hole that sticks out. */
  lemma {:induction false} MaskOutsideCanvas(f: Frame, p: Coordinate)
    requires !StrictlyInside(f.outer, p)
    ensures Darkened(f, p) <==> StrictlyInside(f.hole, p)
  {
    OutlineCounts(f, p);
  }

  lemma {:induction false} OutlineCounts(f: Frame, p: Coordinate)
    ensures EnclosingCount(MaskPath(f), p) ==
      (if StrictlyInside(f.outer, p) then 1 else 0) + (if StrictlyInside(f.hole, p) then 1 else 0)
  {
    var path := MaskPath(f);
    assert path[1..] == [f.hole];
    assert path[1..][1..] == [];
  }

  /**
   * A negative size traces the hole the other way round; the even-odd rule
   * still leaves it unshaded: the point a line width above the canvas centre
   * lies in the hole whenever the side is negative.
   */
  lemma NegativeSideLeavesWindow(c: Square, f: Frame)
    requires f.hole == Rect(-c.side / 2.0, -c.side / 2.0 - MaskLineWidth, c.side, c.side)
    requires c.side < 0.0
    ensures StrictlyInside(f.hole, Coordinate(0.0, -MaskLineWidth))
    ensures StrictlyInside(f.outer, Coordinate(0.0, -MaskLineWidth)) ==> !Darkened(f, Coordinate(0.0, -MaskLineWidth))
  {
    var q := Coordinate(0.0, -MaskLineWidth);
    if StrictlyInside(f.outer, q) {
      MaskIsEvenOdd(f, q);
    }
  }

  // ---------------------------------------------------------------------------
  // Export of the cropped region.
  // ---------------------------------------------------------------------------

  /** Width and height of a canvas when no valid size is set. */
  const DefaultCanvasWidth: nat := 300
  const DefaultCanvasHeight: nat := 150

  /** Truncation toward zero, as the conversion to an unsigned integer does. */
  function Truncate(v: real): (t: int)
    ensures 0.0 <= v ==> 0 <= t && t as real <= v < t as real + 1.0
    ensures v < 0.0 ==> t <= 0 && t as real - 1.0 < v <= t as real
  {
    if v >= 0.0 then v.Floor else -((-v).Floor)
  }

  /**
   * What a canvas dimension becomes when a number is assigned to it: the
   * number is truncated and wrapped modulo 2^32; a result above 2^31 - 1
   * falls back to the dimension's default.
   */
  function CanvasDimension(v: real, default: nat): (n: nat)
    ensures 0.0 <= v < 2147483648.0 ==> n == v.Floor
    ensures -2147483648.0 <= v <= -1.0 ==> n == default
    ensures -1.0 < v < 0.0 ==> n == 0
    ensures n <= 2147483647 || n == default
  {
    var m := Truncate(v) % 4294967296;
    if m <= 2147483647 then m else default
  }

  /** What one pixel of the exported canvas holds. */
  datatype Sample =
    | Blank                        // no part of the image covers it
    | Source(pixel: Pixel)         // exactly one source pixel, copied
    | Resampled(x: real, y: real)  // the image at a fractional position, smoothed by the browser

  predicate Integral(v: real) {
    v.Floor as real == v
  }

  /** The sample at image position `(sx, sy)`. */
  function SampleAt(image: Raster, sx: real, sy: real): Sample {
    if Integral(sx) && Integral(sy) then
      var i, j := sx.Floor, sy.Floor;
      if 0 <= j < |image.rows| && 0 <= i < |image.rows[j]| then Source(image.rows[j][i]) else Blank
    else
      Resampled(sx, sy)
  }

  /** The exported picture: its size and its pixels, `pixels[j][i]` in column `i` of row `j`. */
  datatype Exported = Exported(width: nat, height: nat, pixels: seq<seq<Sample>>)

  /**
   * The export: a canvas sized by the crop side, with the image drawn at
   * `(-x, -y)`, so that output pixel `(i, j)` shows image position
   * `(x + i, y + j)`.
   */
  function Export(r: Resizer): (e: Exported)
    requires Loaded(r)
    ensures e.width == CanvasDimension(r.constraint.value.side, DefaultCanvasWidth)
    ensures e.height == CanvasDimension(r.constraint.value.side, DefaultCanvasHeight)
    ensures |e.pixels| == e.height && forall j :: 0 <= j < e.height ==> |e.pixels[j]| == e.width
    ensures forall i, j :: 0 <= j < e.height && 0 <= i < e.width ==>
      e.pixels[j][i] == SampleAt(r.image, r.constraint.value.x + i as real, r.constraint.value.y + j as real)
  {
    var c := r.constraint.value;
    var width := CanvasDimension(c.side, DefaultCanvasWidth);
    var height := CanvasDimension(c.side, DefaultCanvasHeight);
    Exported(width, height,
      seq(height, j requires 0 <= j < height =>
        seq(width, i requires 0 <= i < width => SampleAt(r.image, c.x + i as real, c.y + j as real))))
  }

  /**
   * A crop square with whole-number position and side, lying inside the
   * image, exports exactly the source pixels it covers.
   */
  lemma ExportCopiesCoveredPixels(r: Resizer, x: nat, y: nat, side: nat)
    requires r.image.Valid() && r.constraint == Some(Square(x as real, y as real, side as real))
    requires x + side <= r.image.width && y + side <= r.image.height && side <= 2147483647
    ensures var e := Export(r);
      && e.width == side && e.height == side
      && forall i, j :: 0 <= i < side && 0 <= j < side ==> e.pixels[j][i] == Source(r.image.rows[y + j][x + i])
  {
    var e := Export(r);
    forall i, j | 0 <= i < side && 0 <= j < side
      ensures e.pixels[j][i] == Source(r.image.rows[y + j][x + i])
    {
      assert (x as real + i as real).Floor == x + i;
      assert (y as real + j as real).Floor == y + j;
    }
  }

  /** A side from -2^31 to -1 does not give an empty picture: width and height fall back to 300 by 150. */
  lemma NegativeSideExportsDefaultSize(r: Resizer)
    requires Loaded(r) && -2147483648.0 <= r.constraint.value.side <= -1.0
    ensures Export(r).width == 300 && Export(r).height == 150
  {
  }
}
