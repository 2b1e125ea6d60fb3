/**
 * The generator-point buffer `shapePos` of script/main.js and the pure
 * transformations the demo applies to it: seeding on a golden-angle spiral,
 * the rotations about the view axes, and one step of the Coulomb-like
 * relaxation.
 *
 * The buffer is flat with stride 4: point p occupies slots 4p, 4p+1, 4p+2
 * (x, y, z) and slot 4p+3 holds 0, so that the buffer can be uploaded as an
 * RGBA float texture with one texel per point.
 */
module ShapeBuffer {
  import opened JsMath
  import opened Squares

  /** One generator point as it sits in the buffer. */
  datatype Point = Point(x: JsNum, y: JsNum, z: JsNum)

  predicate IsFinite(q: Point) {
    q.x.Finite? && q.y.Finite? && q.z.Finite?
  }

  predicate IsNaN(q: Point) {
    q.x == NaN && q.y == NaN && q.z == NaN
  }

  /** Squared Euclidean length of a finite point. */
  function NormSq(q: Point): real
    requires IsFinite(q)
  {
    q.x.v * q.x.v + q.y.v * q.y.v + q.z.v * q.z.v
  }

  /** Whole points of four slots, the fourth slot of each being 0. */
  ghost predicate Layout(s: seq<JsNum>) {
    |s| % 4 == 0 && forall k :: 0 <= k < |s| && k % 4 == 3 ==> s[k] == Finite(0.0)
  }

  predicate AllFinite(s: seq<JsNum>) {
    forall k :: 0 <= k < |s| ==> s[k].Finite?
  }

  function PointAt(s: seq<JsNum>, p: int): Point
    requires 0 <= p < |s| / 4
  {
    Point(s[4 * p], s[4 * p + 1], s[4 * p + 2])
  }

  /** Slot c (0 to 3) of a point's four-slot record. */
  function Slot(q: Point, c: int): JsNum {
    if c == 0 then q.x else if c == 1 then q.y else if c == 2 then q.z else Finite(0.0)
  }

  /** The buffer holding the points ps in order, four slots each. */
  function Flatten(ps: seq<Point>): seq<JsNum> {
    seq(4 * |ps|, k requires 0 <= k < 4 * |ps| => Slot(ps[k / 4], k % 4))
  }

  /** A flattened buffer has whole points with slot 3 zero, and its point p is ps[p]. */
  lemma FlattenShape(ps: seq<Point>)
    ensures |Flatten(ps)| == 4 * |ps| && Layout(Flatten(ps))
    ensures forall p :: 0 <= p < |ps| ==> PointAt(Flatten(ps), p) == ps[p]
  {
    var s := Flatten(ps);
    forall k | 0 <= k < |s| && k % 4 == 3
      ensures s[k] == Finite(0.0)
    {
    }
    forall p | 0 <= p < |ps|
      ensures PointAt(s, p) == ps[p]
    {
      assert (4 * p) / 4 == p && (4 * p + 1) / 4 == p && (4 * p + 2) / 4 == p;
      assert (4 * p) % 4 == 0 && (4 * p + 1) % 4 == 1 && (4 * p + 2) % 4 == 2;
    }
  }

  /** Flattening one more point appends its three coordinates and a 0. */
  lemma FlattenAppend(ps: seq<Point>, q: Point)
    ensures Flatten(ps + [q]) == Flatten(ps) + [q.x, q.y, q.z, Finite(0.0)]
  {
    var a, b := Flatten(ps + [q]), Flatten(ps) + [q.x, q.y, q.z, Finite(0.0)];
    forall k | 0 <= k < |a|
      ensures a[k] == b[k]
    {
      if k >= 4 * |ps| {
        assert k / 4 == |ps|;
      }
    }
  }

  // ---------------------------------------------------------------------------
  // initShapePos: the golden-angle spiral
  // ---------------------------------------------------------------------------

  /** `phi = Math.PI * (3 - Math.sqrt(5))`. */
  function GoldenAngle(m: MathLib): real {
    m.pi * (3.0 - m.sqrt(5.0))
  }

  /** `z = 1 - 2 * i / (n - 1)`, with no guard for n = 1. */
  function SeedZ(n: nat, i: nat): JsNum {
    Sub(Finite(1.0), Div(Finite(2.0 * i as real), Finite(n as real - 1.0)))
  }

  /** `r = Math.sqrt(1 - z * z)`, then `(r * Math.cos(theta), r * Math.sin(theta), z)`. */
  function SpiralPoint(m: MathLib, z: JsNum, theta: real): Point {
    var r := Sqrt(m, Sub(Finite(1.0), Mul(z, z)));
    Point(Mul(r, Finite(m.cos(theta))), Mul(r, Finite(m.sin(theta))), z)
  }

  /** `theta = phi * i`. */
  function Theta(m: MathLib, i: nat): real {
    GoldenAngle(m) * i as real
  }

  /** The point the loop of initShapePos pushes in round i. */
  function SeedPoint(m: MathLib, n: nat, i: nat): Point {
    SpiralPoint(m, SeedZ(n, i), Theta(m, i))
  }

  /** The points of the first `count` rounds of initShapePos(n). */
  function SeedPoints(m: MathLib, n: nat, count: nat): seq<Point> {
    seq(count, i requires 0 <= i < count => SeedPoint(m, n, i))
  }

  /** The buffer after the first `count` rounds of initShapePos(n). */
  function SeedPrefix(m: MathLib, n: nat, count: nat): seq<JsNum> {
    Flatten(SeedPoints(m, n, count))
  }

  /** The buffer initShapePos(n) leaves behind. */
  function Seed(m: MathLib, n: nat): seq<JsNum> {
    SeedPrefix(m, n, n)
  }

  /** initShapePos(n) produces n whole points, 4n slots, each fourth slot 0. */
  lemma SeedShape(m: MathLib, n: nat)
    ensures |Seed(m, n)| == 4 * n && Layout(Seed(m, n))
    ensures forall p :: 0 <= p < n ==> PointAt(Seed(m, n), p) == SeedPoint(m, n, p)
  {
    FlattenShape(SeedPoints(m, n, n));
  }

  /** The only division in the spiral is 0 / 0 when n = 1, never x / 0 with x != 0. */
  lemma SeedDivisionExact(n: nat, i: nat)
    requires i < n
    ensures NoInfinity(Finite(2.0 * i as real), Finite(n as real - 1.0))
  {
  }

  /** For n >= 2 every z lies in [-1, 1]; the spiral runs from the pole z = 1 to z = -1. */
  lemma SeedZInRange(n: nat, i: nat)
    requires 2 <= n && i < n
    ensures SeedZ(n, i).Finite? && -1.0 <= SeedZ(n, i).v <= 1.0
    ensures i == 0 ==> SeedZ(n, i).v == 1.0
    ensures i == n - 1 ==> SeedZ(n, i).v == -1.0
  {
    QuotientBounds(2.0 * i as real, n as real - 1.0);
  }

  /** 0 <= a <= 2d with d > 0 gives 0 <= a / d <= 2. */
  lemma QuotientBounds(a: real, d: real)
    requires 0.0 < d && 0.0 <= a <= 2.0 * d
    ensures 0.0 <= a / d <= 2.0
    ensures a == 0.0 ==> a / d == 0.0
    ensures a == 2.0 * d ==> a / d == 2.0
  {
  }

  /** a < b with d > 0 gives a / d < b / d. */
  lemma QuotientMonotone(a: real, b: real, d: real)
    requires 0.0 < d && a < b
    ensures a / d < b / d
  {
  }

  /** The z coordinates strictly decrease along the spiral. */
  lemma SeedZDecreasing(n: nat, i: nat, j: nat)
    requires 2 <= n && i < j < n
    ensures SeedZ(n, j).v < SeedZ(n, i).v
  {
    SeedZInRange(n, i);
    SeedZInRange(n, j);
    QuotientMonotone(2.0 * i as real, 2.0 * j as real, n as real - 1.0);
  }

  /** For n >= 2 the seeded points are finite and lie on the unit sphere. */
  lemma SeedOnUnitSphere(m: MathLib, n: nat, i: nat)
    requires Lawful(m) && 2 <= n && i < n
    ensures IsFinite(SeedPoint(m, n, i)) && NormSq(SeedPoint(m, n, i)) == 1.0
  {
    SeedZInRange(n, i);
    SpiralPointOnSphere(m, SeedZ(n, i), Theta(m, i));
  }

  /** A spiral point with z in [-1, 1] is finite and has unit length. */
  lemma SpiralPointOnSphere(m: MathLib, zn: JsNum, theta: real)
    requires Lawful(m) && zn.Finite? && -1.0 <= zn.v <= 1.0
    ensures IsFinite(SpiralPoint(m, zn, theta)) && NormSq(SpiralPoint(m, zn, theta)) == 1.0
  {
    var z := zn.v;
    assert zn == Finite(z);
    SquareAtMostOne(z);
    var w := 1.0 - z * z;
    SqrtAt(m, w);
    TrigAt(m, theta);
    var r, c, sn := m.sqrt(w), m.cos(theta), m.sin(theta);
    assert Sub(Finite(1.0), Mul(Finite(z), Finite(z))) == Finite(w);
    assert Sqrt(m, Finite(w)) == Finite(r);
    assert Mul(Finite(r), Finite(c)) == Finite(r * c);
    assert Mul(Finite(r), Finite(sn)) == Finite(r * sn);
    assert SpiralPoint(m, Finite(z), theta) == Point(Finite(r * c), Finite(r * sn), Finite(z));
    PolarOnUnitSphere(r, c, sn, z);
  }

  lemma SquareAtMostOne(z: real)
    requires -1.0 <= z <= 1.0
    ensures z * z <= 1.0
  {
    if 0.0 <= z {
      assert z * z <= z * 1.0;
    } else {
      assert z * z <= (-z) * 1.0;
    }
  }

  /** (r cos, r sin, z) with r^2 = 1 - z^2 has unit length. */
  lemma PolarOnUnitSphere(r: real, c: real, s: real, z: real)
    requires r * r == 1.0 - z * z && c * c + s * s == 1.0
    ensures (r * c) * (r * c) + (r * s) * (r * s) + z * z == 1.0
  {
    calc {
      (r * c) * (r * c) + (r * s) * (r * s) + z * z;
      (r * r) * (c * c + s * s) + z * z;
      (r * r) * 1.0 + z * z;
      1.0;
    }
  }

  /** For n >= 2 no two seeded points coincide. */
  lemma SeedDistinct(m: MathLib, n: nat, i: nat, j: nat)
    requires 2 <= n && i < n && j < n && i != j
    ensures SeedPoint(m, n, i) != SeedPoint(m, n, j)
  {
    if i < j {
      SeedZDecreasing(n, i, j);
    } else {
      SeedZDecreasing(n, j, i);
    }
  }

  /** With n = 1 the unguarded 0 / 0 makes the single point NaN in all three coordinates. */
  lemma SeedSinglePoint(m: MathLib)
    ensures Seed(m, 1) == [NaN, NaN, NaN, Finite(0.0)]
  {
    assert SeedZ(1, 0) == NaN;
    assert IsNaN(SeedPoint(m, 1, 0));
  }

  // ---------------------------------------------------------------------------
  // rotateY / rotateX
  // ---------------------------------------------------------------------------

  /** rotateY turns the (x, z) pair of each point, rotateX the (y, z) pair. */
  datatype Axis = AboutY | AboutX

  /** Offset, within a point, of the coordinate the rotation pairs with z. */
  function Paired(ax: Axis): int {
    if ax == AboutY then 0 else 1
  }

  /** The two coordinates a rotation writes are finite. */
  predicate PairFinite(q: Point, ax: Axis) {
    q.z.Finite? && (if ax == AboutY then q.x.Finite? else q.y.Finite?)
  }

  /** `a' = a * cos - z * sin`: the paired coordinate after one loop round. */
  function TurnA(a: JsNum, z: JsNum, c: real, sn: real): JsNum {
    Sub(Mul(a, Finite(c)), Mul(z, Finite(sn)))
  }

  /** `z' = a * sin + z * cos`: the z coordinate after one loop round. */
  function TurnZ(a: JsNum, z: JsNum, c: real, sn: real): JsNum {
    Add(Mul(a, Finite(sn)), Mul(z, Finite(c)))
  }

  /** One loop round of rotateY (a = x) or rotateX (a = y); the other coordinate stays. */
  function RotatePoint(m: MathLib, q: Point, ax: Axis, angle: real): Point {
    var c, sn := m.cos(angle), m.sin(angle);
    match ax
    case AboutY => Point(TurnA(q.x, q.z, c, sn), q.y, TurnZ(q.x, q.z, c, sn))
    case AboutX => Point(q.x, TurnA(q.y, q.z, c, sn), TurnZ(q.y, q.z, c, sn))
  }

  /** The buffer after rotateY(angle) (AboutY) or rotateX(angle) (AboutX). */
  function Rotate(m: MathLib, s: seq<JsNum>, ax: Axis, angle: real): (r: seq<JsNum>)
    requires |s| % 4 == 0
    ensures |r| == |s|
    ensures forall k {:trigger r[k]} :: 0 <= k < |s| && k % 4 != Paired(ax) && k % 4 != 2 ==> r[k] == s[k]
  {
    seq(|s|, k requires 0 <= k < |s| =>
      if k % 4 == 3 then s[k] else Slot(RotatePoint(m, PointAt(s, k / 4), ax, angle), k % 4))
  }

  /** Point by point, Rotate applies RotatePoint. */
  lemma RotatePointwise(m: MathLib, s: seq<JsNum>, ax: Axis, angle: real, p: int)
    requires |s| % 4 == 0 && 0 <= p < |s| / 4
    ensures PointAt(Rotate(m, s, ax, angle), p) == RotatePoint(m, PointAt(s, p), ax, angle)
  {
    assert (4 * p) / 4 == p && (4 * p + 1) / 4 == p && (4 * p + 2) / 4 == p;
    assert (4 * p) % 4 == 0 && (4 * p + 1) % 4 == 1 && (4 * p + 2) % 4 == 2;
  }

  /** A plane rotation by (c, s) with c^2 + s^2 = 1 keeps a^2 + z^2. */
  lemma PlaneRotationIsometry(a: real, z: real, c: real, s: real)
    requires c * c + s * s == 1.0
    ensures (a * c - z * s) * (a * c - z * s) + (a * s + z * c) * (a * s + z * c) == a * a + z * z
  {
    calc {
      (a * c - z * s) * (a * c - z * s) + (a * s + z * c) * (a * s + z * c);
      a * a * (c * c + s * s) + z * z * (c * c + s * s);
    }
  }

  /** Rotating by (c, s) and then by (c, -s) gives back (a, z). */
  lemma PlaneRotationInverse(a: real, z: real, c: real, s: real, x: real, y: real)
    requires c * c + s * s == 1.0
    requires x == Prod(a, c) - Prod(z, s) && y == Prod(a, s) + Prod(z, c)
    ensures Prod(x, c) - Prod(y, -s) == a
    ensures Prod(x, -s) + Prod(y, c) == z
  {
    calc {
      (a * c - z * s) * c - (a * s + z * c) * (-s);
      a * (c * c + s * s);
    }
    calc {
      (a * c - z * s) * (-s) + (a * s + z * c) * c;
      z * (c * c + s * s);
    }
  }

  /** On finite inputs a turn computes the exact real rotation; any NaN input gives NaN. */
  lemma TurnValues(a: JsNum, z: JsNum, c: real, sn: real)
    ensures a.Finite? && z.Finite? ==>
      TurnA(a, z, c, sn) == Finite(a.v * c - z.v * sn) && TurnZ(a, z, c, sn) == Finite(a.v * sn + z.v * c)
    ensures a.NaN? || z.NaN? ==> TurnA(a, z, c, sn).NaN? && TurnZ(a, z, c, sn).NaN?
  {
  }

  /** A turn by (c, sn) on the unit circle keeps a^2 + z^2. */
  lemma TurnIsometry(a: JsNum, z: JsNum, c: real, sn: real)
    requires a.Finite? && z.Finite? && c * c + sn * sn == 1.0
    ensures TurnA(a, z, c, sn).Finite? && TurnZ(a, z, c, sn).Finite?
    ensures TurnA(a, z, c, sn).v * TurnA(a, z, c, sn).v + TurnZ(a, z, c, sn).v * TurnZ(a, z, c, sn).v
      == a.v * a.v + z.v * z.v
  {
    TurnValues(a, z, c, sn);
    PlaneRotationIsometry(a.v, z.v, c, sn);
  }

  /** A turn by (c, -sn) undoes a turn by (c, sn). */
  lemma TurnRoundTrip(a: JsNum, z: JsNum, c: real, sn: real)
    requires a.Finite? && z.Finite? && c * c + sn * sn == 1.0
    ensures TurnA(TurnA(a, z, c, sn), TurnZ(a, z, c, sn), c, -sn) == a
    ensures TurnZ(TurnA(a, z, c, sn), TurnZ(a, z, c, sn), c, -sn) == z
  {
    var x, y := TurnA(a, z, c, sn), TurnZ(a, z, c, sn);
    TurnOfFinite(a.v, z.v, c, sn);
    TurnOfFinite(x.v, y.v, c, -sn);
    PlaneRotationInverse(a.v, z.v, c, sn, x.v, y.v);
  }

  lemma TurnOfFinite(a: real, z: real, c: real, sn: real)
    ensures TurnA(Finite(a), Finite(z), c, sn) == Finite(Prod(a, c) - Prod(z, sn))
    ensures TurnZ(Finite(a), Finite(z), c, sn) == Finite(Prod(a, sn) + Prod(z, c))
  {
  }

  /**
   * A rotation keeps the squared length of the rotated pair, and so of the
   * whole point: x^2 + z^2 for rotateY, y^2 + z^2 for rotateX.
   */
  lemma RotatePreservesNorm(m: MathLib, q: Point, ax: Axis, angle: real)
    requires Lawful(m) && IsFinite(q)
    ensures var q' := RotatePoint(m, q, ax, angle);
      && IsFinite(q')
      && (ax == AboutY ==> q'.y == q.y && q'.x.v * q'.x.v + q'.z.v * q'.z.v == q.x.v * q.x.v + q.z.v * q.z.v)
      && (ax == AboutX ==> q'.x == q.x && q'.y.v * q'.y.v + q'.z.v * q'.z.v == q.y.v * q.y.v + q.z.v * q.z.v)
      && NormSq(q') == NormSq(q)
  {
    TrigAt(m, angle);
    match ax
    case AboutY => TurnIsometry(q.x, q.z, m.cos(angle), m.sin(angle));
    case AboutX => TurnIsometry(q.y, q.z, m.cos(angle), m.sin(angle));
  }

  /** A point whose paired coordinate or z is NaN comes out of the rotation NaN in both. */
  lemma RotateSpreadsNaN(m: MathLib, q: Point, ax: Axis, angle: real)
    requires !PairFinite(q, ax)
    ensures var q' := RotatePoint(m, q, ax, angle);
      q'.z.NaN? && (if ax == AboutY then q'.x.NaN? && q'.y == q.y else q'.y.NaN? && q'.x == q.x)
  {
    match ax
    case AboutY => TurnValues(q.x, q.z, m.cos(angle), m.sin(angle));
    case AboutX => TurnValues(q.y, q.z, m.cos(angle), m.sin(angle));
  }

  /** rotate(angle) followed by rotate(-angle) restores every point whose rotated pair is finite. */
  lemma RotatePointRoundTrip(m: MathLib, q: Point, ax: Axis, angle: real)
    requires Lawful(m) && PairFinite(q, ax)
    ensures RotatePoint(m, RotatePoint(m, q, ax, angle), ax, -angle) == q
  {
    TrigAt(m, angle);
    match ax
    case AboutY => TurnRoundTrip(q.x, q.z, m.cos(angle), m.sin(angle));
    case AboutX => TurnRoundTrip(q.y, q.z, m.cos(angle), m.sin(angle));
  }

  /**
   * On the buffer: rotateY(a) then rotateY(-a) (likewise rotateX) restores
   * every point whose rotated pair is finite, and the whole buffer when it
   * holds no NaN.
   */
  lemma RotateRoundTrip(m: MathLib, s: seq<JsNum>, ax: Axis, angle: real)
    requires Lawful(m) && |s| % 4 == 0
    ensures forall p :: 0 <= p < |s| / 4 && PairFinite(PointAt(s, p), ax) ==>
      PointAt(Rotate(m, Rotate(m, s, ax, angle), ax, -angle), p) == PointAt(s, p)
    ensures AllFinite(s) ==> Rotate(m, Rotate(m, s, ax, angle), ax, -angle) == s
  {
    forall p | 0 <= p < |s| / 4 && PairFinite(PointAt(s, p), ax) {
      RotateRoundTripAt(m, s, ax, angle, p);
    }
    if AllFinite(s) {
      var back := Rotate(m, Rotate(m, s, ax, angle), ax, -angle);
      forall k | 0 <= k < |s|
        ensures back[k] == s[k]
      {
        if k % 4 != 3 {
          var p := k / 4;
          SlotOfPoint(s, k);
          SlotOfPoint(back, k);
          assert PairFinite(PointAt(s, p), ax);
          RotateRoundTripAt(m, s, ax, angle, p);
        }
      }
    }
  }

  /** The round trip for a single point of the buffer. */
  lemma RotateRoundTripAt(m: MathLib, s: seq<JsNum>, ax: Axis, angle: real, p: int)
    requires Lawful(m) && |s| % 4 == 0 && 0 <= p < |s| / 4 && PairFinite(PointAt(s, p), ax)
    ensures PointAt(Rotate(m, Rotate(m, s, ax, angle), ax, -angle), p) == PointAt(s, p)
  {
    RotatePointwise(m, s, ax, angle, p);
    RotatePointwise(m, Rotate(m, s, ax, angle), ax, -angle, p);
    RotatePointRoundTrip(m, PointAt(s, p), ax, angle);
  }

  /**
   * The state of the rotation loop after its first p rounds: points 0 .. p - 1
   * of cur are rotated, the slots from 4p on are still those of s.
   */
  ghost predicate RotatedUpTo(m: MathLib, s: seq<JsNum>, cur: seq<JsNum>, ax: Axis, angle: real, p: int) {
    && Layout(s) && Layout(cur) && |cur| == |s| && 0 <= p <= |s| / 4
    && (forall q :: 0 <= q < p ==> PointAt(cur, q) == RotatePoint(m, PointAt(s, q), ax, angle))
    && (forall k :: 4 * p <= k < |s| ==> cur[k] == s[k])
  }

  /** One round of the rotation loop: slots 4p + Paired(ax) and 4p + 2 take the turned pair. */
  function TurnSlots(m: MathLib, cur: seq<JsNum>, ax: Axis, angle: real, p: int): seq<JsNum>
    requires 0 <= p < |cur| / 4
  {
    var i := 4 * p + Paired(ax);
    var a, z := cur[i], cur[4 * p + 2];
    cur[i := TurnA(a, z, m.cos(angle), m.sin(angle))][4 * p + 2 := TurnZ(a, z, m.cos(angle), m.sin(angle))]
  }

  lemma RotateLoopStep(m: MathLib, s: seq<JsNum>, cur: seq<JsNum>, ax: Axis, angle: real, p: int)
    requires RotatedUpTo(m, s, cur, ax, angle, p) && p < |s| / 4
    ensures RotatedUpTo(m, s, TurnSlots(m, cur, ax, angle, p), ax, angle, p + 1)
  {
    var next := TurnSlots(m, cur, ax, angle, p);
    assert PointAt(next, p) == RotatePoint(m, PointAt(s, p), ax, angle);
    forall q | 0 <= q < p
      ensures PointAt(next, q) == PointAt(cur, q)
    {
    }
  }

  lemma RotateLoopDone(m: MathLib, s: seq<JsNum>, cur: seq<JsNum>, ax: Axis, angle: real)
    requires RotatedUpTo(m, s, cur, ax, angle, |s| / 4)
    ensures cur == Rotate(m, s, ax, angle)
  {
    RotateFromPoints(m, s, cur, ax, angle);
  }

  /** A buffer that agrees with the rotation point by point, and keeps the layout, is the rotated buffer. */
  lemma RotateFromPoints(m: MathLib, s: seq<JsNum>, a: seq<JsNum>, ax: Axis, angle: real)
    requires Layout(s) && Layout(a) && |a| == |s|
    requires forall p :: 0 <= p < |s| / 4 ==> PointAt(a, p) == RotatePoint(m, PointAt(s, p), ax, angle)
    ensures a == Rotate(m, s, ax, angle)
  {
    var r := Rotate(m, s, ax, angle);
    forall k | 0 <= k < |s|
      ensures a[k] == r[k]
    {
      if k % 4 != 3 {
        SlotOfPoint(a, k);
        SlotOfPoint(r, k);
        RotatePointwise(m, s, ax, angle, k / 4);
      }
    }
  }

  /** Slot k of a whole-point buffer is coordinate k % 4 of point k / 4. */
  lemma SlotOfPoint(s: seq<JsNum>, k: int)
    requires |s| % 4 == 0 && 0 <= k < |s| && k % 4 != 3
    ensures 0 <= k / 4 < |s| / 4 && s[k] == Slot(PointAt(s, k / 4), k % 4)
  {
    assert k == 4 * (k / 4) + k % 4;
  }

  // ---------------------------------------------------------------------------
  // applyCoulomb
  // ---------------------------------------------------------------------------

  function Diff(a: Point, b: Point): Point {
    Point(Sub(a.x, b.x), Sub(a.y, b.y), Sub(a.z, b.z))
  }

  function Plus(a: Point, b: Point): Point {
    Point(Add(a.x, b.x), Add(a.y, b.y), Add(a.z, b.z))
  }

  /** `x * x + y * y + z * z`, evaluated left to right. */
  function SumSq(v: Point): JsNum {
    Add(Add(Mul(v.x, v.x), Mul(v.y, v.y)), Mul(v.z, v.z))
  }

  function DivAll(v: Point, d: JsNum): Point {
    Point(Div(v.x, d), Div(v.y, d), Div(v.z, d))
  }

  /** The push point b gives point a: the difference vector divided by its squared length. */
  function Force(a: Point, b: Point): Point {
    var vec := Diff(a, b);
    DivAll(vec, SumSq(vec))
  }

  /**
   * (newX, newY, newZ) for point i once the inner loop has visited points
   * 0 .. j - 1: point i itself plus, for every other visited point, the
   * difference vector divided by its squared length. Slot indices are
   * compared in the source (`j != i`), which is point identity here.
   */
  function Pushed(s: seq<JsNum>, i: int, j: int): Point
    requires |s| % 4 == 0 && 0 <= i < |s| / 4 && 0 <= j <= |s| / 4
    decreases j
  {
    if j == 0 then PointAt(s, i)
    else
      var acc := Pushed(s, i, j - 1);
      if j - 1 == i then acc
      else
        Plus(acc, Force(PointAt(s, i), PointAt(s, j - 1)))
  }

  /** Point i after one relaxation step: the pushed vector divided by its own length. */
  function Relaxed(m: MathLib, s: seq<JsNum>, i: int): Point
    requires |s| % 4 == 0 && 0 <= i < |s| / 4
  {
    var a := Pushed(s, i, |s| / 4);
    DivAll(a, Sqrt(m, SumSq(a)))
  }

  /** `newShapePos` as applyCoulomb builds it. */
  function Coulomb(m: MathLib, s: seq<JsNum>): (r: seq<JsNum>)
    requires |s| % 4 == 0
  {
    Flatten(RelaxedPoints(m, s, |s| / 4))
  }

  /** The first `count` relaxed points. */
  function RelaxedPoints(m: MathLib, s: seq<JsNum>, count: int): seq<Point>
    requires |s| % 4 == 0 && 0 <= count <= |s| / 4
  {
    seq(count, q requires 0 <= q < count => Relaxed(m, s, q))
  }

  /** The relaxation step keeps the buffer's length and layout, point by point. */
  lemma CoulombShape(m: MathLib, s: seq<JsNum>)
    requires |s| % 4 == 0
    ensures |Coulomb(m, s)| == |s| && Layout(Coulomb(m, s))
    ensures forall p :: 0 <= p < |s| / 4 ==> PointAt(Coulomb(m, s), p) == Relaxed(m, s, p)
  {
    FlattenShape(RelaxedPoints(m, s, |s| / 4));
  }

  /** The state of applyCoulomb's outer loop after p rounds: out holds the first p relaxed points. */
  ghost predicate RelaxedUpTo(m: MathLib, s: seq<JsNum>, out: seq<JsNum>, p: int)
    requires |s| % 4 == 0
  {
    0 <= p <= |s| / 4 && out == Flatten(RelaxedPoints(m, s, p))
  }

  /** One round of the outer loop appends the pushed vector divided by its length. */
  lemma RelaxLoopStep(m: MathLib, s: seq<JsNum>, out: seq<JsNum>, p: int, a: Point)
    requires |s| % 4 == 0 && RelaxedUpTo(m, s, out, p) && p < |s| / 4 && a == Pushed(s, p, |s| / 4)
    ensures var len := Sqrt(m, SumSq(a));
      RelaxedUpTo(m, s, out + [Div(a.x, len), Div(a.y, len), Div(a.z, len), Finite(0.0)], p + 1)
  {
    var r := Relaxed(m, s, p);
    assert RelaxedPoints(m, s, p + 1) == RelaxedPoints(m, s, p) + [r];
    FlattenAppend(RelaxedPoints(m, s, p), r);
  }

  /** The origin, the one finite point whose squared length is 0. */
  const Origin := Point(Finite(0.0), Finite(0.0), Finite(0.0))

  /** A finite point's squared length, as a sum of squares. */
  lemma NormSqAsSquares(v: Point)
    requires IsFinite(v)
    ensures NormSq(v) == Sq(v.x.v) + Sq(v.y.v) + Sq(v.z.v)
  {
  }

  /** The squared length of a finite point is never negative, and is 0 exactly at the origin. */
  lemma NormSqZero(v: Point)
    requires IsFinite(v)
    ensures 0.0 <= NormSq(v)
    ensures NormSq(v) == 0.0 <==> v == Origin
  {
    NormSqAsSquares(v);
    SqPositive(v.x.v);
    SqPositive(v.y.v);
    SqPositive(v.z.v);
  }

  /** For a finite vector, `x * x + y * y + z * z` is its squared length, 0 exactly at the origin. */
  lemma SumSqOfFinite(v: Point)
    requires IsFinite(v)
    ensures SumSq(v) == Finite(NormSq(v)) && 0.0 <= NormSq(v)
    ensures NormSq(v) == 0.0 <==> v == Origin
  {
    NormSqZero(v);
  }

  /** Two finite points differ by a finite vector, which is the origin exactly when they coincide. */
  lemma DiffOfFinite(a: Point, b: Point)
    requires IsFinite(a) && IsFinite(b)
    ensures IsFinite(Diff(a, b))
    ensures Diff(a, b) == Origin <==> a == b
  {
  }

  /** The divisions by the squared distance are never x / 0 with x != 0. */
  lemma ForceDivisionExact(a: Point, b: Point)
    requires IsFinite(a) && IsFinite(b)
    ensures var vec := Diff(a, b);
      NoInfinity(vec.x, SumSq(vec)) && NoInfinity(vec.y, SumSq(vec)) && NoInfinity(vec.z, SumSq(vec))
  {
    DiffOfFinite(a, b);
    SumSqOfFinite(Diff(a, b));
  }

  /** A point pushes itself by 0 / 0: the term is NaN in all three coordinates. */
  lemma ForceOfCoincident(a: Point)
    ensures IsNaN(Force(a, a))
  {
    if IsFinite(a) {
      DiffOfFinite(a, a);
      SumSqOfFinite(Origin);
    }
  }

  /** Two finite, distinct points push each other by a finite term. */
  lemma ForceOfDistinct(a: Point, b: Point)
    requires IsFinite(a) && IsFinite(b) && a != b
    ensures IsFinite(Force(a, b))
  {
    DiffOfFinite(a, b);
    SumSqOfFinite(Diff(a, b));
  }

  /** Once a coordinate of the pushed vector is NaN, later rounds keep it NaN. */
  lemma {:induction false} PushedStaysNaN(s: seq<JsNum>, i: int, j: int, t: int)
    requires |s| % 4 == 0 && 0 <= i < |s| / 4 && 0 <= j <= t <= |s| / 4
    requires IsNaN(Pushed(s, i, j))
    ensures IsNaN(Pushed(s, i, t))
    decreases t
  {
    if t > j {
      PushedStaysNaN(s, i, j, t - 1);
    }
  }

  /**
   * Two distinct indices holding the same point: the term for j is 0 / 0, so
   * point i comes out NaN in all three coordinates. There is no guard.
   */
  lemma CoincidentPointsGiveNaN(m: MathLib, s: seq<JsNum>, i: int, j: int)
    requires |s| % 4 == 0 && 0 <= i < |s| / 4 && 0 <= j < |s| / 4 && i != j
    requires PointAt(s, i) == PointAt(s, j)
    ensures IsNaN(Relaxed(m, s, i))
  {
    ForceOfCoincident(PointAt(s, i));
    assert IsNaN(Pushed(s, i, j + 1));
    PushedStaysNaN(s, i, j + 1, |s| / 4);
  }

  /** Point i is finite and differs from every other point of the buffer. */
  ghost predicate Isolated(s: seq<JsNum>, i: int)
    requires |s| % 4 == 0 && 0 <= i < |s| / 4
  {
    IsFinite(PointAt(s, i)) &&
    forall j :: 0 <= j < |s| / 4 && j != i ==> IsFinite(PointAt(s, j)) && PointAt(s, j) != PointAt(s, i)
  }

  /**
   * When point i is isolated, every term the inner loop adds is finite, so the
   * pushed vector is finite. (Were the term j == i not skipped, it would be 0 / 0.)
   */
  lemma {:induction false} PushedFinite(s: seq<JsNum>, i: int, j: int)
    requires |s| % 4 == 0 && 0 <= i < |s| / 4 && 0 <= j <= |s| / 4
    requires Isolated(s, i)
    ensures IsFinite(Pushed(s, i, j))
    decreases j
  {
    if j > 0 {
      PushedFinite(s, i, j - 1);
      if j - 1 != i {
        ForceOfDistinct(PointAt(s, i), PointAt(s, j - 1));
      }
    }
  }

  /** Dividing each coordinate by L, where L^2 is the squared length, gives unit length. */
  lemma UnitAfterDivision(x: real, y: real, z: real, len: real)
    requires 0.0 < len && Sq(len) == Sq(x) + Sq(y) + Sq(z)
    ensures Sq(x / len) + Sq(y / len) + Sq(z / len) == 1.0
  {
    ProdPositive(len, len);
    SqQuotient(x, len);
    SqQuotient(y, len);
    SqQuotient(z, len);
    ProdDistrib(Sq(x / len), Sq(y / len), Sq(z / len), Sq(len));
    ProdCancel(Sq(x / len) + Sq(y / len) + Sq(z / len), Sq(len));
  }

  /** The square-root law of `Lawful` at x, with the square written through `Sq`. */
  lemma SqrtIsRoot(m: MathLib, x: real)
    requires Lawful(m) && 0.0 <= x
    ensures 0.0 <= m.sqrt(x) && Sq(m.sqrt(x)) == x
  {
    SqrtAt(m, x);
  }

  /** `Math.sqrt(x * x + y * y + z * z)` of a finite point: a nonnegative root, 0 exactly at the origin. */
  lemma LengthOf(m: MathLib, a: Point)
    requires Lawful(m) && IsFinite(a)
    ensures var len := m.sqrt(NormSq(a));
      && Sqrt(m, SumSq(a)) == Finite(len)
      && 0.0 <= len && Sq(len) == NormSq(a)
      && (len == 0.0 <==> a == Origin)
  {
    SumSqOfFinite(a);
    SqrtIsRoot(m, NormSq(a));
    SqPositive(m.sqrt(NormSq(a)));
  }

  /** A finite point other than the origin, divided by its length, has unit length. */
  lemma DivideByLength(a: Point, len: real)
    requires IsFinite(a) && 0.0 < len && Sq(len) == NormSq(a)
    ensures IsFinite(DivAll(a, Finite(len))) && NormSq(DivAll(a, Finite(len))) == 1.0
  {
    var r := DivAll(a, Finite(len));
    assert r == Point(Finite(a.x.v / len), Finite(a.y.v / len), Finite(a.z.v / len));
    NormSqAsSquares(a);
    NormSqAsSquares(r);
    UnitAfterDivision(a.x.v, a.y.v, a.z.v, len);
  }

  /** The final division by the length is never x / 0 with x != 0: a zero length means the origin. */
  lemma NormalizeExact(m: MathLib, a: Point)
    requires Lawful(m) && IsFinite(a)
    ensures var len := Sqrt(m, SumSq(a));
      NoInfinity(a.x, len) && NoInfinity(a.y, len) && NoInfinity(a.z, len)
  {
    LengthOf(m, a);
  }

  /** The final division by the length takes a finite vector other than the origin to unit length. */
  lemma NormalizeStep(m: MathLib, a: Point)
    requires Lawful(m) && IsFinite(a) && a != Origin
    ensures IsFinite(DivAll(a, Sqrt(m, SumSq(a))))
    ensures NormSq(DivAll(a, Sqrt(m, SumSq(a)))) == 1.0
  {
    LengthOf(m, a);
    DivideByLength(a, m.sqrt(NormSq(a)));
  }

  /** `Math.sqrt(0)` is 0. */
  lemma SqrtOfZero(m: MathLib)
    requires Lawful(m)
    ensures m.sqrt(0.0) == 0.0
  {
    SqrtIsRoot(m, 0.0);
    SqPositive(m.sqrt(0.0));
  }

  lemma MulOfZero()
    ensures Mul(Finite(0.0), Finite(0.0)) == Finite(0.0)
  {
    var z := Finite(0.0);
    assert z.v == 0.0;
    assert z.v * z.v == 0.0 * 0.0;
  }

  /** The origin has squared length 0. */
  lemma SumSqOfOrigin()
    ensures SumSq(Origin) == Finite(0.0)
  {
    MulOfZero();
  }

  /** `Math.sqrt` of the number 0 is 0 when the library's square root of 0 is. */
  lemma SqrtOfFiniteZero(m: MathLib)
    requires m.sqrt(0.0) == 0.0
    ensures Sqrt(m, Finite(0.0)) == Finite(0.0)
  {
  }

  /** 0 / 0 makes every coordinate of the origin NaN. */
  lemma DivideOriginByZero()
    ensures IsNaN(DivAll(Origin, Finite(0.0)))
  {
  }

  /**
   * Dividing a finite vector by its length: NaN in every coordinate exactly
   * when the vector is the origin, and otherwise a point on the unit sphere.
   */
  lemma Normalize(m: MathLib, a: Point)
    requires Lawful(m) && IsFinite(a)
    ensures var r := DivAll(a, Sqrt(m, SumSq(a)));
      && (IsNaN(r) <==> a == Origin)
      && (a != Origin ==> IsFinite(r) && NormSq(r) == 1.0)
  {
    if a == Origin {
      SqrtOfZero(m);
      SumSqOfOrigin();
      SqrtOfFiniteZero(m);
      DivideOriginByZero();
    } else {
      NormalizeStep(m, a);
    }
  }

  /**
   * One relaxation step for an isolated point: the pushed vector is finite,
   * and the new point is NaN exactly when that vector is the origin, and
   * otherwise lies on the unit sphere.
   */
  lemma RelaxedOfIsolated(m: MathLib, s: seq<JsNum>, i: int)
    requires Lawful(m) && |s| % 4 == 0 && 0 <= i < |s| / 4
    requires Isolated(s, i)
    ensures var a := Pushed(s, i, |s| / 4);
      && IsFinite(a)
      && (IsNaN(Relaxed(m, s, i)) <==> a == Origin)
      && (a != Origin ==> IsFinite(Relaxed(m, s, i)) && NormSq(Relaxed(m, s, i)) == 1.0)
  {
    PushedFinite(s, i, |s| / 4);
    Normalize(m, Pushed(s, i, |s| / 4));
  }
}
