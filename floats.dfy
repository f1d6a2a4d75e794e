/** The two float operations the integer parts of the program depend on,
    on exact reals: Go's conversion int(t) (and math.Trunc), which both cut
    toward zero, and math.Min. */
module Floats {

  /** int(t), or math.Trunc(t): the integer part, cut toward zero. */
  function Trunc(t: real): int
  {
    if t >= 0.0 then t.Floor else -((-t).Floor)
  }

  /** Trunc(t) is the integer next to t on the side of zero. */
  lemma TruncTowardZero(t: real)
    ensures t >= 0.0 ==> 0.0 <= Trunc(t) as real <= t < Trunc(t) as real + 1.0
    ensures t < 0.0 ==> Trunc(t) as real - 1.0 < t <= Trunc(t) as real <= 0.0
  {
  }

  function Min(a: real, b: real): (m: real)
    ensures m <= a && m <= b && (m == a || m == b)
  {
    if a <= b then a else b
  }
}
