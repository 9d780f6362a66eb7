/** Rotation normalisation shared by the page item, the scene and the viewer:
    `((degrees % 360) + 360) % 360` with C++'s truncating `%`. */
module Rotation {
  /** C++'s `a % 360` on `int`: the quotient is truncated toward zero, so the
      remainder carries the sign of the dividend. */
  function CRem360(a: int): (r: int)
    ensures a >= 0 ==> 0 <= r < 360
    ensures a < 0 ==> -360 < r <= 0
    ensures (a - r) % 360 == 0
  {
    if a >= 0 then a % 360 else -((-a) % 360)
  }

  /** The normalised rotation lies in [0, 360) and is congruent to the
      requested angle modulo 360. */
  function Normalize(degrees: int): (r: int)
    ensures 0 <= r < 360
    ensures (r - degrees) % 360 == 0
  {
    CRem360(CRem360(degrees) + 360)
  }

  /** The C++ formula agrees with the mathematical (Euclidean) remainder. */
  lemma NormalizeIsModulo(degrees: int)
    ensures Normalize(degrees) == degrees % 360
  {
    var r := Normalize(degrees);
    var q := (degrees - r) / 360;
    assert degrees == 360 * q + r;
  }

  /** Normalising an angle that is already normalised changes nothing, which
      is why `setRotation` of the current value is a no-op. */
  lemma NormalizeCanonical(r: int)
    requires 0 <= r < 360
    ensures Normalize(r) == r
  {
    NormalizeIsModulo(r);
  }

  predicate IsQuarterTurn(r: int) { r == 0 || r == 90 || r == 180 || r == 270 }

  /** On the angles a single 90-degree step can produce, normalisation adds
      or subtracts at most one full turn. */
  lemma NormalizeNear(x: int)
    requires -360 <= x < 720
    ensures Normalize(x) == if x < 0 then x + 360 else if x < 360 then x else x - 360
  {
    NormalizeIsModulo(x);
  }

  /** Rotating left or right by 90 degrees from a quarter turn stays on a
      quarter turn. */
  lemma QuarterTurnsClosed(r: int)
    requires IsQuarterTurn(r)
    ensures IsQuarterTurn(Normalize(r + 90))
    ensures IsQuarterTurn(Normalize(r - 90))
  {
    NormalizeNear(r + 90);
    NormalizeNear(r - 90);
  }

  /** Four right rotations bring any normalised rotation back to itself. */
  lemma FourRightTurns(r: int)
    requires 0 <= r < 360
    ensures Normalize(Normalize(Normalize(Normalize(r + 90) + 90) + 90) + 90) == r
  {
    var a := Normalize(r + 90);
    NormalizeNear(r + 90);
    var b := Normalize(a + 90);
    NormalizeNear(a + 90);
    var c := Normalize(b + 90);
    NormalizeNear(b + 90);
    NormalizeNear(c + 90);
  }

  /** A left rotation undoes a right rotation. */
  lemma LeftUndoesRight(r: int)
    requires 0 <= r < 360
    ensures Normalize(Normalize(r + 90) - 90) == r
  {
    NormalizeNear(r + 90);
    NormalizeNear(Normalize(r + 90) - 90);
  }
}
