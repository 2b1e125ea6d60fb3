/**
 * The part of JavaScript's number semantics the demo's buffer code relies on.
 *
 * A number is either finite, held as an exact real (binary64 rounding is not
 * modelled), or NaN. JavaScript gives +-Infinity for x / 0 when x is a nonzero
 * finite number; `Div` folds that case into NaN as well. The lemmas in
 * ShapeBuffer show that the buffer code only ever divides by zero as 0 / 0,
 * where NaN is exactly what JavaScript produces.
 */
module JsMath {

  datatype JsNum = Finite(v: real) | NaN

  function Add(a: JsNum, b: JsNum): JsNum {
    if a.Finite? && b.Finite? then Finite(a.v + b.v) else NaN
  }

  function Sub(a: JsNum, b: JsNum): JsNum {
    if a.Finite? && b.Finite? then Finite(a.v - b.v) else NaN
  }

  function Mul(a: JsNum, b: JsNum): JsNum {
    if a.Finite? && b.Finite? then Finite(a.v * b.v) else NaN
  }

  function Div(a: JsNum, b: JsNum): JsNum {
    if a.Finite? && b.Finite? && b.v != 0.0 then Finite(a.v / b.v) else NaN
  }

  /** The division is one JavaScript evaluates to a finite number or to NaN, never to +-Infinity. */
  predicate NoInfinity(a: JsNum, b: JsNum) {
    b == Finite(0.0) ==> !(a.Finite? && a.v != 0.0)
  }

  /**
   * The members of JavaScript's `Math` object that the demo calls. Their values
   * are not computed here: `Lawful` states the facts the proofs rely on.
   */
  datatype MathLib = MathLib(pi: real, cos: real -> real, sin: real -> real, sqrt: real -> real)

  /** `Math.sqrt`: NaN for NaN and for a negative argument. */
  function Sqrt(m: MathLib, x: JsNum): JsNum {
    if x.Finite? && 0.0 <= x.v then Finite(m.sqrt(x.v)) else NaN
  }

  /** The laws of cosine, sine and square root over the reals that the proofs use. */
  ghost predicate Lawful(m: MathLib) {
    && (forall a :: m.cos(a) * m.cos(a) + m.sin(a) * m.sin(a) == 1.0)
    && (forall a :: m.cos(-a) == m.cos(a))
    && (forall a :: m.sin(-a) == -m.sin(a))
    && (forall x :: 0.0 <= x ==> 0.0 <= m.sqrt(x) && m.sqrt(x) * m.sqrt(x) == x)
  }

  /** The trigonometric laws at one angle. */
  lemma TrigAt(m: MathLib, a: real)
    requires Lawful(m)
    ensures m.cos(a) * m.cos(a) + m.sin(a) * m.sin(a) == 1.0
    ensures m.cos(-a) == m.cos(a) && m.sin(-a) == -m.sin(a)
  {
  }

  /** The square-root laws at one argument. */
  lemma SqrtAt(m: MathLib, x: real)
    requires Lawful(m) && 0.0 <= x
    ensures 0.0 <= m.sqrt(x) && m.sqrt(x) * m.sqrt(x) == x
  {
  }
}
