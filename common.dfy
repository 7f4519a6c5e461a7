/** Values shared by the rockets, the particles and the frame loop. */
module Common {

  /** A canvas position; y grows downwards, so rising means y decreasing. */
  datatype Point = Point(x: real, y: real)

  /** The `hsl(<hue>, 100%, 50%)` colour string, kept as its one varying part.
      Nothing in the simulation inspects it: it is only copied. */
  datatype Color = Hsl(hue: real)

  /** A value that `Math.random()` can return. */
  predicate IsUnit(u: real) {
    0.0 <= u < 1.0
  }

  /** The helper `random(min, max)`, i.e. `Math.random() * (max - min) + min`,
      for the draw `u`: a value in [lo, hi). */
  function Random(u: real, lo: real, hi: real): (r: real)
    requires IsUnit(u) && lo <= hi
    ensures lo <= r <= hi
    ensures lo < hi ==> r < hi
  {
    var width := hi - lo;
    UnitScale(u, width);
    u * width + lo
  }

  /** A draw scales a non-negative width into [0, width), or to 0 when the width is 0. */
  lemma UnitScale(u: real, d: real)
    requires IsUnit(u) && d >= 0.0
    ensures 0.0 <= u * d <= d
    ensures d > 0.0 ==> u * d < d
  {
    assert d - u * d == (1.0 - u) * d;
  }

  /** Scaling by a non-negative factor keeps order. */
  lemma MulMonotone(a: real, b: real, d: real)
    requires a <= b && d >= 0.0
    ensures a * d <= b * d
  {
    assert b * d - a * d == (b - a) * d;
  }

  /** `Math.ceil`: the least integer not below x. */
  function Ceil(x: real): (r: int)
    ensures x <= r as real < x + 1.0
  {
    -((-x).Floor)
  }

  function Min(a: int, b: int): (m: int)
    ensures m <= a && m <= b && (m == a || m == b)
  {
    if a <= b then a else b
  }
}
