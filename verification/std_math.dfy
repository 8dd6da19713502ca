/** The integer helpers of the math section of `util_std.hpp`:
    `is_power_of_two`, `upper_power_of_two` and `in_range`. */
module StdMath {
  /** `unsigned int`, 32 bits wide. */
  type Uint = x: int | 0 <= x < 0x1_0000_0000

  function Pow2(n: nat): (r: nat)
    ensures r > 0
  {
    if n == 0 then 1 else 2 * Pow2(n - 1)
  }

  /** The reference notion: `x` is some power of two. */
  ghost predicate IsPow2(x: int)
  {
    exists k: nat :: x == Pow2(k)
  }

  /** Bitwise `&` of two naturals, taken bit by bit from the lowest. */
  function And(a: nat, b: nat): (r: nat)
    ensures r <= a && r <= b
  {
    if a == 0 || b == 0 then 0
    else 2 * And(a / 2, b / 2) + (if a % 2 == 1 && b % 2 == 1 then 1 else 0)
  }

  /** `is_power_of_two(unsigned int)`: `x` is non-zero and clearing its
      lowest set bit (`x & (x - 1)`) leaves nothing. */
  function IsPowerOfTwo(x: Uint): bool
  {
    x != 0 && And(x, x - 1) == 0
  }

  /** The bit trick is exact: it holds of precisely the powers of two. */
  lemma IsPowerOfTwoCorrect(x: Uint)
    ensures IsPowerOfTwo(x) <==> IsPow2(x)
  {
    if x != 0 {
      ClearLowestBit(x);
    } else {
      assert !IsPow2(x);
    }
  }

  lemma {:induction false} AndSelf(a: nat)
    ensures And(a, a) == a
  {
    if a != 0 {
      AndSelf(a / 2);
    }
  }

  /** `x & (x - 1)` is zero exactly for powers of two. */
  lemma {:induction false} ClearLowestBit(x: nat)
    requires x > 0
    ensures And(x, x - 1) == 0 <==> IsPow2(x)
  {
    if x == 1 {
      assert x == Pow2(0);
    } else if x % 2 == 1 {
      assert (x - 1) / 2 == x / 2;
      AndSelf(x / 2);
      assert And(x, x - 1) == 2 * (x / 2);
      assert !IsPow2(x) by {
        forall k: nat
          ensures x != Pow2(k)
        {
        }
      }
    } else {
      var h := x / 2;
      assert (x - 1) / 2 == h - 1;
      assert And(x, x - 1) == 2 * And(h, h - 1);
      ClearLowestBit(h);
      HalfPower(x, h);
    }
  }

  /** An even `x` is a power of two exactly when its half is. */
  lemma HalfPower(x: nat, h: nat)
    requires x > 1 && x % 2 == 0 && h == x / 2
    ensures IsPow2(x) <==> IsPow2(h)
  {
    if IsPow2(x) {
      var k: nat :| x == Pow2(k);
      assert k > 0 && h == Pow2(k - 1);
    }
    if IsPow2(h) {
      var k: nat :| h == Pow2(k);
      assert x == Pow2(k + 1);
    }
  }

  lemma {:induction false} Pow2Monotone(i: nat, j: nat)
    requires i <= j
    ensures Pow2(i) <= Pow2(j)
  {
    if i < j {
      Pow2Monotone(i, j - 1);
    }
  }

  /** `upper_power_of_two`: doubles `power` from 1 while it is below `x`.
      Doubling `power = 2^30` would overflow the `int` it is kept in, so
      the argument is at most `2^30`. The result is the least power of two
      that is at least `x`. */
  method UpperPowerOfTwo(x: Uint) returns (power: Uint)
    requires x <= 0x4000_0000
    ensures IsPow2(power) && x <= power
    ensures forall k: nat :: x <= Pow2(k) ==> power <= Pow2(k)
  {
    power := 1;
    ghost var n: nat := 0;
    while power < x
      invariant power == Pow2(n)
      invariant power == 1 || power < 2 * x
      invariant forall k: nat :: k < n ==> Pow2(k) < x
      decreases x - power
    {
      power := power * 2;
      n := n + 1;
    }
    forall k: nat | x <= Pow2(k)
      ensures power <= Pow2(k)
    {
      Pow2Monotone(n, k);
    }
  }

  /** `in_range`, instantiated at integers: the bounds are inclusive. */
  function InRange(v: int, minV: int, maxV: int): (r: bool)
    ensures r <==> minV <= v <= maxV
  {
    if v < minV then false
    else if v > maxV then false
    else true
  }
}
