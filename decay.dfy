/** The decay of the spell's power from hop to hop (ChainInfo.powerForHop).
    Power starts at the initial power, is multiplied by (1 - reduction) once
    per hop after the first, and is rounded with `rint`, which rounds to the
    nearest integer and breaks ties towards the even one. The arithmetic is
    exact real arithmetic here, not IEEE doubles. */
module Decay {

  /** `rint` in the default rounding mode: nearest integer, ties to even. */
  function Rint(x: real): (n: int)
    ensures n as real - x <= 0.5 && x - n as real <= 0.5
    ensures n as real - x == 0.5 || x - n as real == 0.5 ==> n % 2 == 0
  {
    var f := x.Floor;
    var frac := x - f as real;
    if frac < 0.5 then f
    else if frac > 0.5 then f + 1
    else if f % 2 == 0 then f
    else f + 1
  }

  /** Rounding an integral value gives that integer back. */
  lemma RintOfInteger(k: int)
    ensures Rint(k as real) == k
  {
  }

  /** Rounding is monotone. */
  lemma RintMonotone(x: real, y: real)
    requires x <= y
    ensures Rint(x) <= Rint(y)
  {
    var fx, fy := x.Floor, y.Floor;
    assert fx <= fy;
    if fx == fy {
      assert x - fx as real <= y - fy as real;
    } else {
      assert Rint(x) <= fx + 1 <= fy <= Rint(y);
    }
  }

  /** `b` raised to `k`, the factor applied after `k` hops. */
  function Pow(b: real, k: nat): real
  {
    if k == 0 then 1.0 else Pow(b, k - 1) * b
  }

  lemma {:induction false} PowBounds(b: real, k: nat)
    requires 0.0 <= b <= 1.0
    ensures 0.0 <= Pow(b, k) <= 1.0
  {
    if k > 0 {
      PowBounds(b, k - 1);
      var q := Pow(b, k - 1);
      ScaleDown(q, b);
    }
  }

  /** Multiplying a non-negative number by a factor in [0, 1] keeps it
      non-negative and does not make it larger. */
  lemma ScaleDown(a: real, f: real)
    requires a >= 0.0 && 0.0 <= f <= 1.0
    ensures 0.0 <= a * f <= a
  {
    assert a * (1.0 - f) >= 0.0;
  }

  lemma ScaleMonotone(c: real, a: real, b: real)
    requires c >= 0.0 && a <= b
    ensures c * a <= c * b
  {
    assert c * (b - a) >= 0.0;
  }

  /** The unrounded power at hop `hop`: the initial power after `hop - 1`
      reductions. */
  function Potential(initialPower: int, reduction: real, hop: int): real
    requires hop >= 1
  {
    initialPower as real * Pow(1.0 - reduction, hop - 1)
  }

  /** The power available at hop `hop` (hop 1 is the first target). */
  function PowerAt(initialPower: int, reduction: real, hop: int): int
    requires hop >= 1
  {
    Rint(Potential(initialPower, reduction, hop))
  }

  /** The first hop gets the full initial power: the loop in `powerForHop`
      runs `hop - 1` times, so not at all for hop 1. */
  lemma PowerAtFirstHop(initialPower: int, reduction: real)
    ensures PowerAt(initialPower, reduction, 1) == initialPower
  {
    RintOfInteger(initialPower);
  }

  /** One more hop multiplies the unrounded power by (1 - reduction). */
  lemma PotentialStep(initialPower: int, reduction: real, hop: int)
    requires hop >= 1
    ensures Potential(initialPower, reduction, hop + 1)
         == Potential(initialPower, reduction, hop) * (1.0 - reduction)
  {
    var b := 1.0 - reduction;
    var q := Pow(b, hop - 1);
    assert Pow(b, hop) == q * b;
    assert (initialPower as real) * (q * b) == (initialPower as real * q) * b;
  }

  /** With a reduction between 0 and 1 and a non-negative initial power, the
      unrounded power stays non-negative and never grows. */
  lemma PotentialNonIncreasing(initialPower: int, reduction: real, hop: int)
    requires initialPower >= 0 && 0.0 <= reduction <= 1.0 && hop >= 1
    ensures 0.0 <= Potential(initialPower, reduction, hop + 1) <= Potential(initialPower, reduction, hop)
  {
    var b := 1.0 - reduction;
    PowBounds(b, hop - 1);
    ScaleMonotone(initialPower as real, 0.0, Pow(b, hop - 1));
    PotentialStep(initialPower, reduction, hop);
    ScaleDown(Potential(initialPower, reduction, hop), b);
  }

  /** With a reduction between 0 and 1 and a non-negative initial power, the
      power never grows from one hop to the next and never drops below 0. */
  lemma PowerNonIncreasing(initialPower: int, reduction: real, hop: int)
    requires initialPower >= 0 && 0.0 <= reduction <= 1.0 && hop >= 1
    ensures 0 <= PowerAt(initialPower, reduction, hop + 1) <= PowerAt(initialPower, reduction, hop)
  {
    PotentialNonIncreasing(initialPower, reduction, hop);
    RintBetween(Potential(initialPower, reduction, hop + 1), Potential(initialPower, reduction, hop));
  }

  lemma RintBetween(x: real, y: real)
    requires 0.0 <= x <= y
    ensures 0 <= Rint(x) <= Rint(y)
  {
    RintMonotone(x, y);
    RintMonotone(0.0, x);
    RintOfInteger(0);
  }
}
