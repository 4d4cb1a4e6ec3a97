/**
 * Angles in radians as reals. The Python code uses `np.pi` and the float
 * remainder `x % (2 * np.pi)`, which for a positive divisor is a floor modulo
 * with a result in [0, 2*pi).
 */
module Angles {

  /** The value of `np.pi`. */
  const Pi: real := 3.141592653589793

  /** The value of `2.0 * np.pi`. */
  const TwoPi: real := 6.283185307179586

  /** The number of whole turns Python's floor modulo removes from `x`. */
  function Turns(x: real): int
  {
    (x / 6.283185307179586).Floor
  }

  /** Python's `x % (2.0 * np.pi)` on reals. */
  function Mod2Pi(x: real): (r: real)
    ensures 0.0 <= r < TwoPi
    ensures x == r + Turns(x) as real * TwoPi
  {
    x - 6.283185307179586 * (Turns(x) as real)
  }

  /** Any decomposition of `x` into a multiple of 2*pi and a rest in [0, 2*pi) is the one `Mod2Pi` finds. */
  lemma {:induction false} Mod2PiUnique(x: real, k: int, rest: real)
    requires 0.0 <= rest < TwoPi
    requires x == rest + k as real * TwoPi
    ensures Mod2Pi(x) == rest
  {
    var q := Turns(x);
    if q != k {
      // Mod2Pi(x) - rest would be a non-zero multiple of TwoPi, yet both lie in [0, TwoPi).
      assert false;
    }
  }

  /** Adding a full turn does not change the normalised angle. */
  lemma {:induction false} Mod2PiPeriodic(x: real)
    ensures Mod2Pi(x + TwoPi) == Mod2Pi(x)
  {
    Mod2PiUnique(x + TwoPi, Turns(x) + 1, Mod2Pi(x));
  }

  /** Angles already in [0, 2*pi) are left as they are. */
  lemma {:induction false} Mod2PiIdentity(x: real)
    requires 0.0 <= x < TwoPi
    ensures Mod2Pi(x) == x
  {
    Mod2PiUnique(x, 0, x);
  }

  /** `(a + 2*pi) % (2*pi)`, the normalisation both the experiment rules and the world angle go through. */
  function Normalize(a: real): (r: real)
    ensures 0.0 <= r < TwoPi
    ensures r == Mod2Pi(a)
  {
    Mod2PiPeriodic(a);
    Mod2Pi(a + TwoPi)
  }

  /** Normalising twice is normalising once, and the normalised angle depends only on the direction. */
  lemma {:induction false} NormalizeIdempotentAndPeriodic(a: real)
    ensures Normalize(Normalize(a)) == Normalize(a)
    ensures Normalize(a + TwoPi) == Normalize(a)
  {
    var r := Normalize(a);
    Mod2PiPeriodic(r);
    Mod2PiIdentity(r);
    Mod2PiPeriodic(a);
  }
}
