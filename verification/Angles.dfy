/** Angles in degrees, over exact reals: the wrap to one full turn that the
    air-gap code applies after every rotation. */
module Angles {

  const FULL_TURN: real := 360.0

  /** The integer part, rounded toward zero. */
  function Truncated(x: real): int {
    if x >= 0.0 then x.Floor else -((-x).Floor)
  }

  /** C's `fmod` by one turn: the remainder keeps the sign of the dividend. */
  function FmodTurn(x: real): real {
    x - FULL_TURN * (Truncated(x / FULL_TURN) as real)
  }

  /** How many whole turns, rounded down, an angle holds. */
  function Turns(angle: real): int {
    (angle / FULL_TURN).Floor
  }

  /** The wrap as the solver writes it: a signed remainder, corrected when negative. */
  function CanonicalDegrees(angle: real): (r: real)
    ensures 0.0 <= r < FULL_TURN
    ensures r == angle - FULL_TURN * (Turns(angle) as real)
  {
    var result := FmodTurn(angle);
    if result < 0.0 then result + FULL_TURN else result
  }

  lemma TurnsUnique(angle: real, k: int)
    requires 0.0 <= angle - FULL_TURN * (k as real) < FULL_TURN
    ensures Turns(angle) == k
  {
  }

  /** Two angles wrap to the same place exactly when they differ by whole turns. */
  lemma CanonicalIffWholeTurns(x: real, y: real)
    ensures CanonicalDegrees(x) == CanonicalDegrees(y) <==>
            x - y == FULL_TURN * ((Turns(x) - Turns(y)) as real)
  {
  }

  lemma CanonicalOfWholeTurns(x: real, k: int)
    ensures CanonicalDegrees(x + FULL_TURN * (k as real)) == CanonicalDegrees(x)
  {
    TurnsUnique(x + FULL_TURN * (k as real), Turns(x) + k);
  }

  /** Wrapping first and rotating afterwards is the same as rotating and wrapping once. */
  lemma CanonicalAbsorbs(x: real, d: real)
    ensures CanonicalDegrees(CanonicalDegrees(x) + d) == CanonicalDegrees(x + d)
  {
    CanonicalOfWholeTurns(x + d, -Turns(x));
  }

  lemma CanonicalFixed(x: real)
    requires 0.0 <= x < FULL_TURN
    ensures CanonicalDegrees(x) == x
  {
    TurnsUnique(x, 0);
  }
}
