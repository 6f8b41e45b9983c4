/**
 * Amounts of money over exact reals: rounding to cents and truncation to a
 * whole number, the two ways the calculator turns an exact figure into one it
 * shows or stores.
 */
module Money {

  /** Half a cent: the most that rounding to cents moves a figure. */
  const HalfCent: real := 0.005

  /**
   * The largest whole number not above y, as a real, counted one unit at a
   * time from the interval [0, 1). FloorIsFloor shows it is Dafny's Floor.
   * Rounding is written with this real-valued floor rather than with `.Floor`
   * so that no integer term enters the schedule's proofs: there the balance
   * is multiplied by the rate, and the solver does not settle goals that mix
   * such products of reals with integer-to-real conversions.
   */
  function FloorOf(y: real): (f: real)
    decreases if y >= 0.0 then y.Floor else -y.Floor
  {
    if 0.0 <= y < 1.0 then 0.0
    else if y >= 1.0 then FloorOf(y - 1.0) + 1.0
    else FloorOf(y + 1.0) - 1.0
  }

  /** FloorOf agrees with Dafny's Floor: a whole number within one below y. */
  lemma {:induction false} FloorIsFloor(y: real)
    ensures FloorOf(y) == y.Floor as real
    ensures FloorOf(y) <= y < FloorOf(y) + 1.0
    decreases if y >= 0.0 then y.Floor else -y.Floor
  {
    if y >= 1.0 {
      FloorIsFloor(y - 1.0);
      assert (y - 1.0).Floor == y.Floor - 1;
    } else if y < 0.0 {
      FloorIsFloor(y + 1.0);
      assert (y + 1.0).Floor == y.Floor + 1;
    }
  }

  /** x is a whole number of cents. */
  predicate IsCents(x: real)
  {
    FloorOf(x * 100.0) == x * 100.0
  }

  /**
   * round(x, 2): the nearest whole number of cents, a tie going up; it is
   * off by at most half a cent.
   */
  function Round2(x: real): (y: real)
    ensures -HalfCent < y - x <= HalfCent
  {
    FloorIsFloor(x * 100.0 + 0.5);
    FloorOf(x * 100.0 + 0.5) / 100.0
  }

  /** Round2 gives a whole number of cents and leaves a figure already in cents alone. */
  lemma Round2Cents(x: real)
    ensures IsCents(Round2(x))
    ensures IsCents(x) ==> Round2(x) == x
  {
    var cents := FloorOf(x * 100.0 + 0.5);
    FloorIsFloor(x * 100.0 + 0.5);
    assert Round2(x) * 100.0 == cents;
    FloorIsFloor(cents);
    FloorIsFloor(x * 100.0);
    if IsCents(x) {
      assert (x * 100.0).Floor as real == x * 100.0;
      assert (x * 100.0 + 0.5).Floor == (x * 100.0).Floor;
    }
  }

  /**
   * int(x) on a real: truncation toward zero, which is the floor for a
   * non-negative x and the ceiling for a negative one.
   */
  function Trunc(x: real): (i: int)
    ensures 0.0 <= x ==> i as real <= x < i as real + 1.0
    ensures x < 0.0 ==> i as real - 1.0 < x <= i as real
  {
    if x >= 0.0 then x.Floor else -((-x).Floor)
  }
}
