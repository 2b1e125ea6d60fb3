/**
 * The per-pixel facet logic of script/fragment-shader.js.
 *
 * Every generator point n defines a plane: the one at distance RADIUS / 2
 * from the origin with normal n. A pixel's query point f lies on the z = 0
 * plane; the line from the camera through f meets each plane in a point I.
 * A plane is eligible when it faces the camera and the squared distance from
 * its I to the far pole (0, 0, -RADIUS) is below 10 * RADIUS. The pixel shows
 * the eligible facet whose I is nearest to the pole, unless I lies outside
 * some other plane, in which case the pixel is background. A pixel with no
 * eligible plane has no chosen plane.
 *
 * GLSL floats are reals. `normalize`, `reflect` and `pow` are function
 * values of a `Glsl` record; `Lawful` states the one law the proofs use. The
 * texture lookup `getFromTex(i)` is the function `tex` of the uniforms.
 */
module FragmentShader {
  import opened Wrappers
  import opened Squares

  datatype Vec3 = Vec3(x: real, y: real, z: real)

  datatype Rgba = Rgba(r: real, g: real, b: real, a: real)

  /** The GLSL built-ins whose values the model does not compute. */
  datatype Glsl = Glsl(normalize: Vec3 -> Vec3, reflect: (Vec3, Vec3) -> Vec3, pow: (real, real) -> real)

  /** `pow` of a nonnegative base is nonnegative. */
  ghost predicate Lawful(g: Glsl) {
    forall base, e :: 0.0 <= base ==> 0.0 <= g.pow(base, e)
  }

  /** The uniforms: zoom, light position, the number of points and the point texture. */
  datatype Uniforms = Uniforms(zoom: real, lightPos: Vec3, pointsSize: int, tex: int -> Vec3)

  /** The varyings of one fragment: vPosition.xy and vColor.xyz. */
  datatype Fragment = Fragment(x: real, y: real, color: Vec3)

  const EPSILON: real := 0.00001
  const RADIUS: real := 1.0
  const CAMERA: Vec3 := Vec3(0.0, 0.0, 10.0)
  /** The far pole, from which nearestNorm measures. */
  const POLE: Vec3 := Vec3(0.0, 0.0, -RADIUS)
  const SHININESS: real := 5.0
  const KA: real := 1.0
  const KD: real := 1.0
  const KS: real := 1.0
  const AMBIENT: Vec3 := Vec3(0.1, 0.1, 0.3)
  /** `finalColor` before shading: opaque white. */
  const WHITE: Rgba := Rgba(1.0, 1.0, 1.0, 1.0)

  function Add(a: Vec3, b: Vec3): Vec3 {
    Vec3(a.x + b.x, a.y + b.y, a.z + b.z)
  }

  function Sub(a: Vec3, b: Vec3): Vec3 {
    Vec3(a.x - b.x, a.y - b.y, a.z - b.z)
  }

  function Scale(k: real, v: Vec3): Vec3 {
    Vec3(Prod(k, v.x), Prod(k, v.y), Prod(k, v.z))
  }

  function Dot(a: Vec3, b: Vec3): real {
    Prod(a.x, b.x) + Prod(a.y, b.y) + Prod(a.z, b.z)
  }

  /** `max(x, 0.0)`. */
  function ClampLow(x: real): real {
    if x < 0.0 then 0.0 else x
  }

  /** distSquared(p1, p2): the squared Euclidean distance. */
  function DistSquared(p1: Vec3, p2: Vec3): real {
    Sq(p1.x - p2.x) + Sq(p1.y - p2.y) + Sq(p1.z - p2.z)
  }

  /** The squared distance is nonnegative and vanishes exactly between equal points. */
  lemma DistSquaredIsMetric(p1: Vec3, p2: Vec3)
    ensures 0.0 <= DistSquared(p1, p2)
    ensures DistSquared(p1, p2) == 0.0 <==> p1 == p2
  {
    SqPositive(p1.x - p2.x);
    SqPositive(p1.y - p2.y);
    SqPositive(p1.z - p2.z);
  }

  /** `normalize(n) * RADIUS / 2.0`: the plane's normal, scaled to reach the plane. */
  function PlaneNormal(g: Glsl, n: Vec3): Vec3 {
    var u := g.normalize(n);
    Vec3(u.x * RADIUS / 2.0, u.y * RADIUS / 2.0, u.z * RADIUS / 2.0)
  }

  /** `n.x * c.x + n.y * c.y + n.z * c.z` with c = camera - f, over the plane normal: the denominator of pointOnPlan. */
  function Facing(g: Glsl, f: Vec3, n: Vec3): real {
    Dot(PlaneNormal(g, n), Sub(CAMERA, f))
  }

  /**
   * pointOnPlan(f, n): the point I = k * (camera - f) + f where the line
   * from the camera through f meets the plane of n. The division by the
   * denominator is unguarded: None stands for the denominator being 0, where
   * GLSL computes an infinite or NaN coordinate.
   */
  function PointOnPlan(g: Glsl, f: Vec3, n: Vec3): Option<Vec3> {
    var c := Sub(CAMERA, f);
    var nh := PlaneNormal(g, n);
    var d := Dot(nh, nh);
    var den := Dot(nh, c);
    if den == 0.0 then None
    else
      var k := (d - Prod(nh.x, f.x) - Prod(nh.y, f.y) - Prod(nh.z, f.z)) / den;
      Some(Add(Scale(k, c), f))
  }

  /** pointInPlan(p, n): positive outside the plane of n, 0 on it, negative inside. */
  function PointInPlan(g: Glsl, p: Vec3, n: Vec3): real {
    var nh := PlaneNormal(g, n);
    Dot(nh, p) - Dot(nh, nh)
  }

  lemma DotScaleAdd(a: Vec3, k: real, c: Vec3, f: Vec3)
    ensures Dot(a, Add(Scale(k, c), f)) == Prod(k, Dot(a, c)) + Dot(a, f)
  {
  }

  /**
   * The point pointOnPlan returns exists exactly when the plane is not
   * parallel to the line of sight, lies on that line, and lies on the plane
   * (so pointInPlan gives 0 there).
   */
  lemma PointOnPlanOnBoth(g: Glsl, f: Vec3, n: Vec3)
    ensures PointOnPlan(g, f, n).Some? <==> Facing(g, f, n) != 0.0
    ensures PointOnPlan(g, f, n).Some? ==> var i := PointOnPlan(g, f, n).value;
      && (exists k :: i == Add(Scale(k, Sub(CAMERA, f)), f))
      && Dot(PlaneNormal(g, n), i) == Dot(PlaneNormal(g, n), PlaneNormal(g, n))
      && PointInPlan(g, i, n) == 0.0
  {
    var c := Sub(CAMERA, f);
    var nh := PlaneNormal(g, n);
    var den := Dot(nh, c);
    if den != 0.0 {
      var num := Dot(nh, nh) - Prod(nh.x, f.x) - Prod(nh.y, f.y) - Prod(nh.z, f.z);
      var k := num / den;
      var i := Add(Scale(k, c), f);
      assert PointOnPlan(g, f, n) == Some(i);
      DotScaleAdd(nh, k, c, f);
      QuotientTimes(num, den);
      assert Prod(k, den) == num;
      assert Dot(nh, i) == num + Dot(nh, f);
    }
  }

  /** getFromTex(i) then pointOnPlan(f, .): where the line of sight meets plane i. */
  function Hit(g: Glsl, u: Uniforms, f: Vec3, i: int): Option<Vec3> {
    PointOnPlan(g, f, u.tex(i))
  }

  /**
   * Plane i can be chosen by nearestNorm: its hit point exists, its squared
   * distance to the pole is below 10 * RADIUS, and the camera is on the outer
   * side of the plane, measured with the raw texture value n:
   * `dot(camera - I, n) > EPSILON`.
   */
  predicate Eligible(g: Glsl, u: Uniforms, f: Vec3, i: int) {
    && Hit(g, u, f, i).Some?
    && DistSquared(Hit(g, u, f, i).value, POLE) < 10.0 * RADIUS
    && Dot(Sub(CAMERA, Hit(g, u, f, i).value), u.tex(i)) > EPSILON
  }

  /** Squared distance from plane i's hit point to the pole. */
  function PoleDist(g: Glsl, u: Uniforms, f: Vec3, i: int): real
    requires Hit(g, u, f, i).Some?
  {
    DistSquared(Hit(g, u, f, i).value, POLE)
  }

  /**
   * Among planes 0 .. hi - 1, p is eligible, strictly closer than every
   * eligible plane before it and no farther than every one after it: the
   * earliest of the closest.
   */
  predicate NearestAmong(g: Glsl, u: Uniforms, f: Vec3, p: int, hi: int) {
    && 0 <= p < hi
    && Eligible(g, u, f, p)
    && (forall j :: 0 <= j < p && Eligible(g, u, f, j) ==> PoleDist(g, u, f, p) < PoleDist(g, u, f, j))
    && (forall j :: p < j < hi && Eligible(g, u, f, j) ==> PoleDist(g, u, f, p) <= PoleDist(g, u, f, j))
  }

  /** The plane nearestNorm chooses, over planes 0 .. pointsSize inclusive. */
  predicate IsNearest(g: Glsl, u: Uniforms, f: Vec3, p: int) {
    NearestAmong(g, u, f, p, u.pointsSize + 1)
  }

  /**
   * nearestNorm(f): scans planes 0 .. pointsSize, both ends included (the
   * loop only leaves when i > pointsSize), keeping the first plane that is
   * strictly closer than the best so far. `nearest` has no initial value:
   * None is the result when no plane was ever chosen. A plane whose hit
   * point does not exist is never chosen: its GLSL distance is infinite or
   * NaN, and `dist < distNear` is false.
   */
  method NearestNorm(g: Glsl, u: Uniforms, f: Vec3) returns (nearest: Option<int>)
    ensures nearest.None? <==> forall i :: 0 <= i <= u.pointsSize ==> !Eligible(g, u, f, i)
    ensures nearest.Some? ==> IsNearest(g, u, f, nearest.value)
  {
    nearest := None;
    var distNear := 10.0 * RADIUS;
    var i := 0;
    while i <= u.pointsSize
      invariant 0 <= i && (i <= u.pointsSize + 1 || i == 0)
      invariant nearest.None? ==> distNear == 10.0 * RADIUS && forall j :: 0 <= j < i ==> !Eligible(g, u, f, j)
      invariant nearest.Some? ==> NearestAmong(g, u, f, nearest.value, i) && distNear == PoleDist(g, u, f, nearest.value)
      decreases u.pointsSize + 1 - i
    {
      var n := u.tex(i);
      var hit := PointOnPlan(g, f, n);
      if hit.Some? {
        var dist := DistSquared(hit.value, POLE);
        if dist < distNear && Dot(Sub(CAMERA, hit.value), n) > EPSILON {
          nearest := Some(i);
          distNear := dist;
        }
      }
      i := i + 1;
    }
  }

  /** At most one plane is the nearest. */
  lemma NearestIsUnique(g: Glsl, u: Uniforms, f: Vec3, p: int, q: int)
    requires IsNearest(g, u, f, p) && IsNearest(g, u, f, q)
    ensures p == q
  {
  }

  /**
   * The texture has pointsSize texels; lookup pointsSize reads coordinate
   * 1.0, which CLAMP_TO_EDGE maps to the last texel. This is an assumption
   * about the texture unit, stated here and not proved.
   */
  predicate ClampToEdge(u: Uniforms) {
    1 <= u.pointsSize && u.tex(u.pointsSize) == u.tex(u.pointsSize - 1)
  }

  /**
   * Under that assumption the extra lookup is a copy of the last plane, and
   * the strict comparison means the copy never wins: the chosen index is a
   * real point, below pointsSize.
   */
  lemma NearestIsARealPoint(g: Glsl, u: Uniforms, f: Vec3, p: int)
    requires ClampToEdge(u) && IsNearest(g, u, f, p)
    ensures p < u.pointsSize
  {
    var last := u.pointsSize - 1;
    assert Hit(g, u, f, last) == Hit(g, u, f, u.pointsSize);
    assert Eligible(g, u, f, last) == Eligible(g, u, f, u.pointsSize);
  }

  /** Some plane 0 .. pointsSize has the point i strictly on its outer side. */
  predicate Outside(g: Glsl, u: Uniforms, i: Vec3) {
    exists j :: 0 <= j <= u.pointsSize && PointInPlan(g, i, u.tex(j)) > EPSILON
  }

  /**
   * isBackground(f, planIndex): true iff the hit point of plane planIndex
   * lies outside some plane 0 .. pointsSize; the scan returns at the first
   * such plane. None stands for a hit point that does not exist, whose
   * infinite or NaN coordinates leave the GLSL result unspecified.
   */
  method IsBackground(g: Glsl, u: Uniforms, f: Vec3, planIndex: int) returns (r: Option<bool>)
    ensures r.None? <==> Hit(g, u, f, planIndex).None?
    ensures r.Some? ==> (r.value <==> Outside(g, u, Hit(g, u, f, planIndex).value))
  {
    var hit := PointOnPlan(g, f, u.tex(planIndex));
    if hit.None? {
      return None;
    }
    var i := 0;
    while i <= u.pointsSize
      invariant 0 <= i && (i <= u.pointsSize + 1 || i == 0)
      invariant forall j :: 0 <= j < i ==> PointInPlan(g, hit.value, u.tex(j)) <= EPSILON
      decreases u.pointsSize + 1 - i
    {
      if PointInPlan(g, hit.value, u.tex(i)) > EPSILON {
        return Some(true);
      }
      i := i + 1;
    }
    return Some(false);
  }

  /** A plane's own test never makes its hit point background: the point lies on that plane. */
  lemma OwnPlaneNeverOutside(g: Glsl, u: Uniforms, f: Vec3, p: int)
    requires Hit(g, u, f, p).Some?
    ensures PointInPlan(g, Hit(g, u, f, p).value, u.tex(p)) == 0.0
  {
    PointOnPlanOnBoth(g, f, u.tex(p));
  }

  /** `f = vec3(vPosition.x * zoom, vPosition.y * zoom, 0.0)`. */
  function QueryPoint(u: Uniforms, frag: Fragment): Vec3 {
    Vec3(Prod(frag.x, u.zoom), Prod(frag.y, u.zoom), 0.0)
  }

  /**
   * What main does with one pixel: nothing is known when `nearest` was never
   * assigned; a background pixel keeps `finalColor`; otherwise the facet of
   * the chosen plane is shaded.
   */
  datatype Shading = Undetermined | Background | Facet(plane: int, diffuse: real, specular: real, color: Rgba)

  /** gl_FragColor for each outcome. */
  function FragColor(s: Shading): Option<Rgba> {
    match s
    case Undetermined => None
    case Background => Some(WHITE)
    case Facet(_, _, _, c) => Some(c)
  }

  /**
   * The Phong terms of main for plane p: `max(dot(L, N), 0)` and
   * `pow(max(dot(R, V), 0), shininess)`, and the colour
   * ka * ambient + kd * diffuse * vColor + ks * specular * vColor, alpha 1.
   */
  function Lighting(g: Glsl, u: Uniforms, frag: Fragment, p: int): Shading
    requires Hit(g, u, QueryPoint(u, frag), p).Some?
  {
    var P := Hit(g, u, QueryPoint(u, frag), p).value;
    var N := g.normalize(u.tex(p));
    var L := g.normalize(Sub(u.lightPos, P));
    var R := g.reflect(Scale(-1.0, L), N);
    var V := g.normalize(Sub(CAMERA, P));
    var diffuse := ClampLow(Dot(L, N));
    var specular := g.pow(ClampLow(Dot(R, V)), SHININESS);
    var rgb := Add(Add(Scale(KA, AMBIENT), Scale(Prod(KD, diffuse), frag.color)), Scale(Prod(KS, specular), frag.color));
    Facet(p, diffuse, specular, Rgba(rgb.x, rgb.y, rgb.z, 1.0))
  }

  /** Both Phong factors are clamped to be nonnegative, and the colour is opaque. */
  lemma LightingClamped(g: Glsl, u: Uniforms, frag: Fragment, p: int)
    requires Lawful(g) && Hit(g, u, QueryPoint(u, frag), p).Some?
    ensures var s := Lighting(g, u, frag, p);
      s.Facet? && 0.0 <= s.diffuse && 0.0 <= s.specular && s.color.a == 1.0
  {
    var P := Hit(g, u, QueryPoint(u, frag), p).value;
    var R := g.reflect(Scale(-1.0, g.normalize(Sub(u.lightPos, P))), g.normalize(u.tex(p)));
    var V := g.normalize(Sub(CAMERA, P));
    assert 0.0 <= g.pow(ClampLow(Dot(R, V)), SHININESS);
  }

  /**
   * main(): chooses the plane with nearestNorm, tests it with isBackground,
   * and shades it when it is not background.
   */
  method Shade(g: Glsl, u: Uniforms, frag: Fragment) returns (s: Shading)
    ensures var f := QueryPoint(u, frag);
      s.Undetermined? <==> forall i :: 0 <= i <= u.pointsSize ==> !Eligible(g, u, f, i)
    ensures var f := QueryPoint(u, frag);
      s.Background? <==> exists p :: IsNearest(g, u, f, p) && Outside(g, u, Hit(g, u, f, p).value)
    ensures var f := QueryPoint(u, frag);
      s.Facet? ==> && IsNearest(g, u, f, s.plane)
                   && !Outside(g, u, Hit(g, u, f, s.plane).value)
                   && s == Lighting(g, u, frag, s.plane)
  {
    var f := QueryPoint(u, frag);
    var planIndex := NearestNorm(g, u, f);
    if planIndex.None? {
      return Undetermined;
    }
    var p := planIndex.value;
    var background := IsBackground(g, u, f, p);
    if background == Some(true) {
      s := Background;
      forall q | IsNearest(g, u, f, q) && Outside(g, u, Hit(g, u, f, q).value)
        ensures q == p
      {
        NearestIsUnique(g, u, f, p, q);
      }
      return;
    }
    s := Lighting(g, u, frag, p);
    forall q | IsNearest(g, u, f, q)
      ensures q == p
    {
      NearestIsUnique(g, u, f, p, q);
    }
  }

  /**
   * The colour main writes: white for background, and for a shaded facet
   * nonnegative Phong factors and alpha 1.
   */
  lemma ShadeColours(g: Glsl, u: Uniforms, frag: Fragment, s: Shading)
    requires Lawful(g)
    requires s == Background || (s.Facet? && Hit(g, u, QueryPoint(u, frag), s.plane).Some?
      && s == Lighting(g, u, frag, s.plane))
    ensures FragColor(s).Some? && FragColor(s).value.a == 1.0
    ensures s.Background? ==> FragColor(s) == Some(WHITE)
    ensures s.Facet? ==> 0.0 <= s.diffuse && 0.0 <= s.specular
  {
    if s.Facet? {
      LightingClamped(g, u, frag, s.plane);
    }
  }
}
