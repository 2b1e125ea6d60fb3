/**
 * The global state of script/main.js and the handlers that update it in
 * place: seeding and relaxing the generator-point buffer, the two rotations,
 * mouse drag, the idle spin, the wheel zoom and the colour picker.
 *
 * `Date.now()` and the DOM events are parameters: `now` is the clock reading,
 * `movementX`, `movementY` and `deltaY` the event fields, `hex` the picker's
 * value.
 */
module Scene {
  import opened JsMath
  import opened ShapeBuffer
  import opened HexColor

  const MinZoom: real := 0.1
  const MaxZoom: real := 4.0

  /** `Math.sign(deltaY) > 0`, for a finite deltaY. */
  predicate ZoomsIn(deltaY: real) {
    0.0 < deltaY
  }

  /**
   * zoomRatio after one wheel event: divided by 0.9 when the wheel moves
   * down, multiplied by 0.9 otherwise (deltaY = 0 included), then clamped
   * with `Math.min(_, 4)` and `Math.max(_, 0.1)`.
   */
  function ZoomStep(z: real, deltaY: real): (r: real)
    ensures MinZoom <= r <= MaxZoom
    ensures MinZoom <= z <= MaxZoom ==> (ZoomsIn(deltaY) ==> z <= r) && (!ZoomsIn(deltaY) ==> r <= z)
  {
    var scaled := if ZoomsIn(deltaY) then z / 0.9 else z * 0.9;
    var capped := if scaled < MaxZoom then scaled else MaxZoom;
    if capped > MinZoom then capped else MinZoom
  }

  /** Away from the bounds the clamp does nothing: the factor is exactly 1 / 0.9 or 0.9. */
  lemma ZoomStepUnclamped(z: real, deltaY: real)
    requires MinZoom <= z
    ensures ZoomsIn(deltaY) && z / 0.9 <= MaxZoom ==> ZoomStep(z, deltaY) == z / 0.9
    ensures !ZoomsIn(deltaY) && MinZoom <= z * 0.9 && z <= MaxZoom ==> ZoomStep(z, deltaY) == z * 0.9
  {
  }

  /** One notch in and one notch out (either order) restores the zoom when neither step hits a bound. */
  lemma ZoomRoundTrip(z: real, up: real, down: real)
    requires ZoomsIn(up) && !ZoomsIn(down)
    ensures MinZoom <= z && z / 0.9 <= MaxZoom ==> ZoomStep(ZoomStep(z, up), down) == z
    ensures MinZoom <= z * 0.9 && z <= MaxZoom ==> ZoomStep(ZoomStep(z, down), up) == z
  {
    if MinZoom <= z && z / 0.9 <= MaxZoom {
      ZoomStepUnclamped(z, up);
      assert z / 0.9 * 0.9 == z;
      ZoomStepUnclamped(z / 0.9, down);
    }
    if MinZoom <= z * 0.9 && z <= MaxZoom {
      ZoomStepUnclamped(z, down);
      assert z * 0.9 / 0.9 == z;
      ZoomStepUnclamped(z * 0.9, up);
    }
  }

  /** `mouseScale = 0.005 * zoomRatio`: radians per pixel of drag. */
  function MouseScale(zoomRatio: real): real {
    0.005 * zoomRatio
  }

  /** `event.movementY * mouseScale`: the turn about x for a vertical drag. */
  function DragAboutX(movementY: real, zoomRatio: real): real {
    movementY * MouseScale(zoomRatio)
  }

  /** `-event.movementX * mouseScale`: the turn about y for a horizontal drag. */
  function DragAboutY(movementX: real, zoomRatio: real): real {
    -movementX * MouseScale(zoomRatio)
  }

  /** `-0.0001 * (now - lastRotate)`: the idle spin for the elapsed milliseconds. */
  function IdleAngle(now: int, lastRotate: int): real {
    -0.0001 * (now - lastRotate) as real
  }

  /** The buffer after the first `count` rounds of initShapePos(n) is one round longer than after count - 1. */
  lemma SeedPrefixStep(m: MathLib, n: nat, count: nat)
    ensures var q := SeedPoint(m, n, count);
      SeedPrefix(m, n, count + 1) == SeedPrefix(m, n, count) + [q.x, q.y, q.z, Finite(0.0)]
  {
    assert SeedPoints(m, n, count + 1) == SeedPoints(m, n, count) + [SeedPoint(m, n, count)];
    FlattenAppend(SeedPoints(m, n, count), SeedPoint(m, n, count));
  }

  /** The four pushes of round i of initShapePos extend the buffer of the first i rounds to that of i + 1. */
  lemma SeedLoopStep(m: MathLib, n: nat, i: nat, pre: seq<JsNum>, x: JsNum, y: JsNum, z: JsNum)
    requires pre == SeedPrefix(m, n, i) && Point(x, y, z) == SeedPoint(m, n, i)
    ensures pre + [x] + [y] + [z] + [Finite(0.0)] == SeedPrefix(m, n, i + 1)
  {
    SeedPrefixStep(m, n, i);
    assert pre + [x] + [y] + [z] + [Finite(0.0)] == pre + [x, y, z, Finite(0.0)];
  }

  /** One round of the inner loop of applyCoulomb adds the term for point j / 4 unless it is point i / 4. */
  lemma PushedStep(s: seq<JsNum>, i: int, j: int)
    requires |s| % 4 == 0 && 0 <= i < |s| && 0 <= j < |s| && i % 4 == 0 && j % 4 == 0
    ensures 0 <= i / 4 < |s| / 4 && (j + 4) / 4 == j / 4 + 1 <= |s| / 4
    ensures PointAt(s, i / 4) == Point(s[i], s[i + 1], s[i + 2])
    ensures PointAt(s, j / 4) == Point(s[j], s[j + 1], s[j + 2])
    ensures Pushed(s, i / 4, (j + 4) / 4) ==
      if j == i then Pushed(s, i / 4, j / 4)
      else Plus(Pushed(s, i / 4, j / 4), Force(Point(s[i], s[i + 1], s[i + 2]), Point(s[j], s[j + 1], s[j + 2])))
  {
    assert 4 * (i / 4) == i && 4 * (j / 4) == j;
  }

  /**
   * The inner loop of applyCoulomb for the point at slot i: starting from the
   * point itself, adds for every other point j the difference vector divided
   * by its squared length.
   */
  method AccumulatePushes(s: seq<JsNum>, i: int) returns (newX: JsNum, newY: JsNum, newZ: JsNum)
    requires |s| % 4 == 0 && 0 <= i < |s| && i % 4 == 0
    ensures Point(newX, newY, newZ) == Pushed(s, i / 4, |s| / 4)
  {
    newX, newY, newZ := s[i], s[i + 1], s[i + 2];
    var j := 0;
    while j < |s|
      invariant 0 <= j <= |s| && j % 4 == 0
      invariant Point(newX, newY, newZ) == Pushed(s, i / 4, j / 4)
    {
      PushedStep(s, i, j);
      if j != i {
        var vecX := Sub(s[i], s[j]);
        var vecY := Sub(s[i + 1], s[j + 1]);
        var vecZ := Sub(s[i + 2], s[j + 2]);
        var norm := Add(Add(Mul(vecX, vecX), Mul(vecY, vecY)), Mul(vecZ, vecZ));
        newX := Add(newX, Div(vecX, norm));
        newY := Add(newY, Div(vecY, norm));
        newZ := Add(newZ, Div(vecZ, norm));
      }
      j := j + 4;
    }
  }

  /** The mutable globals of main.js that the modelled handlers read and write. */
  class Scene {
    /** The `Math` object. */
    const math: MathLib
    /** The generator points, four slots per point. */
    var shapePos: seq<JsNum>
    var zoomRatio: real
    /** Set by mousedown, cleared by mouseup. */
    var pressed: bool
    /** Clock reading of the last idle-spin tick, in milliseconds. */
    var lastRotate: int
    /** The "Coulomb" checkbox. */
    var doCoulomb: bool
    /** RGBA colour of the facets. */
    var color: seq<JsNum>

    ghost predicate Valid()
      reads this
    {
      Layout(shapePos) && MinZoom <= zoomRatio <= MaxZoom && |color| == 4
    }

    /** Everything but the buffer is as it was. */
    twostate predicate BufferOnly()
      reads this
    {
      zoomRatio == old(zoomRatio) && pressed == old(pressed) && lastRotate == old(lastRotate)
      && doCoulomb == old(doCoulomb) && color == old(color)
    }

    /** The initial values of the globals, with `Date.now()` read as `now`. */
    constructor(math: MathLib, now: int)
      ensures Valid() && this.math == math
      ensures shapePos == [] && zoomRatio == 0.7 && !pressed && lastRotate == now && doCoulomb
      ensures color == [Finite(0.0), Finite(0.5), Finite(1.0), Finite(1.0)]
    {
      this.math := math;
      shapePos := [];
      zoomRatio := 0.7;
      pressed := false;
      lastRotate := now;
      doCoulomb := true;
      color := [Finite(0.0), Finite(0.5), Finite(1.0), Finite(1.0)];
    }

    /** initShapePos(n): replaces the buffer by n points of the golden-angle spiral. */
    method InitShapePos(n: nat)
      requires Valid()
      modifies this
      ensures shapePos == Seed(math, n)
      ensures |shapePos| == 4 * n && BufferOnly() && Valid()
    {
      shapePos := [];
      var phi := math.pi * (3.0 - math.sqrt(5.0));
      var i := 0;
      while i < n
        invariant 0 <= i <= n
        invariant shapePos == SeedPrefix(math, n, i)
        invariant BufferOnly()
      {
        var z := Sub(Finite(1.0), Div(Finite(2.0 * i as real), Finite(n as real - 1.0)));
        var r := Sqrt(math, Sub(Finite(1.0), Mul(z, z)));
        var theta := phi * i as real;
        var x := Mul(r, Finite(math.cos(theta)));
        var y := Mul(r, Finite(math.sin(theta)));
        assert theta == Theta(math, i);
        assert Point(x, y, z) == SeedPoint(math, n, i);
        SeedLoopStep(math, n, i, shapePos, x, y, z);
        shapePos := shapePos + [x];
        shapePos := shapePos + [y];
        shapePos := shapePos + [z];
        shapePos := shapePos + [Finite(0.0)];
        i := i + 1;
      }
      SeedShape(math, n);
    }

    /**
     * applyCoulomb(): when the checkbox is set, replaces the buffer by one
     * relaxation step computed from the old buffer; otherwise does nothing.
     */
    method ApplyCoulomb()
      requires Valid()
      modifies this
      ensures shapePos == if old(doCoulomb) then Coulomb(math, old(shapePos)) else old(shapePos)
      ensures |shapePos| == |old(shapePos)| && BufferOnly() && Valid()
    {
      if !doCoulomb {
        return;
      }
      var s := shapePos;
      ghost var p := 0;
      var newShapePos := [];
      var i := 0;
      while i < |s|
        modifies {}
        invariant i == 4 * p && RelaxedUpTo(math, s, newShapePos, p)
      {
        var newX, newY, newZ := AccumulatePushes(s, i);
        assert i / 4 == p;
        var length := Sqrt(math, Add(Add(Mul(newX, newX), Mul(newY, newY)), Mul(newZ, newZ)));
        RelaxLoopStep(math, s, newShapePos, p, Point(newX, newY, newZ));
        newShapePos := newShapePos + [Div(newX, length), Div(newY, length), Div(newZ, length), Finite(0.0)];
        i := i + 4;
        p := p + 1;
      }
      CoulombShape(math, s);
      shapePos := newShapePos;
    }

    /** rotateY(angle): turns every point about the y axis, writing slots 4k and 4k + 2 only. */
    method RotateY(angle: real)
      requires Valid()
      modifies this
      ensures shapePos == ShapeBuffer.Rotate(math, old(shapePos), AboutY, angle)
      ensures BufferOnly() && Valid()
    {
      ghost var s := shapePos;
      ghost var p := 0;
      var i := 0;
      while i < |shapePos|
        invariant i == 4 * p && RotatedUpTo(math, s, shapePos, AboutY, angle, p)
        invariant BufferOnly()
      {
        var x := shapePos[i + 0];
        var z := shapePos[i + 2];
        RotateLoopStep(math, s, shapePos, AboutY, angle, p);
        ghost var next := TurnSlots(math, shapePos, AboutY, angle, p);
        shapePos := shapePos[i + 0 := Sub(Mul(x, Finite(math.cos(angle))), Mul(z, Finite(math.sin(angle))))];
        shapePos := shapePos[i + 2 := Add(Mul(x, Finite(math.sin(angle))), Mul(z, Finite(math.cos(angle))))];
        assert shapePos == next;
        i := i + 4;
        p := p + 1;
      }
      RotateLoopDone(math, s, shapePos, AboutY, angle);
    }

    /** rotateX(angle): turns every point about the x axis, writing slots 4k + 1 and 4k + 2 only. */
    method RotateX(angle: real)
      requires Valid()
      modifies this
      ensures shapePos == ShapeBuffer.Rotate(math, old(shapePos), AboutX, angle)
      ensures BufferOnly() && Valid()
    {
      ghost var s := shapePos;
      ghost var p := 0;
      var i := 0;
      while i < |shapePos|
        invariant i == 4 * p && RotatedUpTo(math, s, shapePos, AboutX, angle, p)
        invariant BufferOnly()
      {
        var y := shapePos[i + 1];
        var z := shapePos[i + 2];
        RotateLoopStep(math, s, shapePos, AboutX, angle, p);
        ghost var next := TurnSlots(math, shapePos, AboutX, angle, p);
        shapePos := shapePos[i + 1 := Sub(Mul(y, Finite(math.cos(angle))), Mul(z, Finite(math.sin(angle))))];
        shapePos := shapePos[i + 2 := Add(Mul(y, Finite(math.sin(angle))), Mul(z, Finite(math.cos(angle))))];
        assert shapePos == next;
        i := i + 4;
        p := p + 1;
      }
      RotateLoopDone(math, s, shapePos, AboutX, angle);
    }

    /**
     * move(event): while the button is held, a drag of (movementX, movementY)
     * pixels turns the points about x by movementY * mouseScale, then about y
     * by -movementX * mouseScale; otherwise nothing changes.
     */
    method Move(movementX: real, movementY: real)
      requires Valid()
      modifies this
      ensures shapePos == if old(pressed) then
          var turned := ShapeBuffer.Rotate(math, old(shapePos), AboutX, DragAboutX(movementY, old(zoomRatio)));
          ShapeBuffer.Rotate(math, turned, AboutY, DragAboutY(movementX, old(zoomRatio)))
        else old(shapePos)
      ensures BufferOnly() && Valid()
    {
      if pressed {
        RotateX(DragAboutX(movementY, zoomRatio));
        RotateY(DragAboutY(movementX, zoomRatio));
      }
    }

    /**
     * rotate(): the idle spin. Unless the button is held, turns the points
     * about y by -0.0001 per elapsed millisecond; in every case records `now`.
     */
    method Rotate(now: int)
      requires Valid()
      modifies this
      ensures shapePos == if old(pressed) then old(shapePos)
        else ShapeBuffer.Rotate(math, old(shapePos), AboutY, IdleAngle(now, old(lastRotate)))
      ensures lastRotate == now
      ensures zoomRatio == old(zoomRatio) && pressed == old(pressed) && doCoulomb == old(doCoulomb)
      ensures color == old(color) && Valid()
    {
      if !pressed {
        RotateY(IdleAngle(now, lastRotate));
      }
      lastRotate := now;
    }

    /** zoom(event): one wheel notch, clamped to [0.1, 4]; only zoomRatio changes. */
    method Zoom(deltaY: real)
      requires Valid()
      modifies this
      ensures zoomRatio == ZoomStep(old(zoomRatio), deltaY)
      ensures shapePos == old(shapePos) && pressed == old(pressed) && lastRotate == old(lastRotate)
      ensures doCoulomb == old(doCoulomb) && color == old(color) && Valid()
    {
      if ZoomsIn(deltaY) {
        zoomRatio := zoomRatio / 0.9;
      } else {
        zoomRatio := zoomRatio * 0.9;
      }
      zoomRatio := if zoomRatio < MaxZoom then zoomRatio else MaxZoom;
      zoomRatio := if zoomRatio > MinZoom then zoomRatio else MinZoom;
    }

    /** setColor(): the facet colour becomes the picker's value, channel by channel over 255, alpha 1. */
    method SetColor(hex: string)
      requires Valid()
      modifies this
      ensures color == ColorOf(HexToRGB(hex))
      ensures shapePos == old(shapePos) && zoomRatio == old(zoomRatio) && pressed == old(pressed)
      ensures lastRotate == old(lastRotate) && doCoulomb == old(doCoulomb) && Valid()
    {
      color := ColorOf(HexToRGB(hex));
    }
  }
}
