/** The raise rule: one raise per full 4 points a roll beats its target by. */
module Rules {

  /** The target number `get_raises` uses when none is given. */
  const DefaultTargetNumber: int := 4

  /**
   * `get_raises`: `(roll - target_number) / 4` with Ruby's floor
   * division. Nothing clamps the result, so a roll below the target gives
   * a negative count.
   */
  function GetRaises(roll: int, targetNumber: int := DefaultTargetNumber): (r: int)
    ensures 4 * r <= roll - targetNumber < 4 * r + 4
  {
    (roll - targetNumber) / 4
  }

  /** Four more points on the roll is exactly one more raise. */
  lemma RaisesStep(roll: int, targetNumber: int)
    ensures GetRaises(roll + 4, targetNumber) == GetRaises(roll, targetNumber) + 1
  {
  }

  /** The count is never clamped: below the target it is negative, from the target up it is not. */
  lemma RaisesSign(roll: int, targetNumber: int)
    ensures GetRaises(roll, targetNumber) < 0 <==> roll < targetNumber
  {
  }

  /** The count grows with the roll. */
  lemma RaisesMonotonic(roll1: int, roll2: int, targetNumber: int)
    requires roll1 <= roll2
    ensures GetRaises(roll1, targetNumber) <= GetRaises(roll2, targetNumber)
  {
  }

  /** Values at the default target number of 4. */
  lemma RaisesAtDefaultTarget()
    ensures GetRaises(4) == 0
    ensures GetRaises(7) == 0
    ensures GetRaises(8) == 1
    ensures GetRaises(12) == 2
    ensures GetRaises(20) == 4
    ensures GetRaises(3) == -1
  {
  }
}
