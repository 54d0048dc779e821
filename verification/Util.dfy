/** Rounding to power-of-two boundaries in 32-bit arithmetic. */
module Util {
  import opened Bits

  const WORD := 0x1_0000_0000

  type uint32 = x: nat | x < WORD

  lemma WordIsPow2()
    ensures Pow2(32) == WORD
  {
    assert Pow2(8) == 0x100;
    hide Pow2;
    Pow2Add(8, 8);
    assert Pow2(16) == 0x1_0000;
    Pow2Add(16, 16);
  }

  predicate IsPowerOfTwo(x: nat)
    ensures IsPowerOfTwo(x) <==> IsPow2(x)
  {
    if x > 0 then PowerOfTwoTest(x); And(x, x - 1) == 0 else false
  }

  /** `x & ~((1 << order) - 1)`: the multiple of `2^order` at or below `x`. */
  function RoundDown(x: uint32, order: nat): (r: uint32)
    requires order < 32
    ensures r == x - x % Pow2(order)
    ensures r % Pow2(order) == 0 && r <= x < r + Pow2(order)
  {
    WordIsPow2();
    AndHighMask(x, order, 32);
    RemainderOf(x, Pow2(order));
    DivModUnique(x - x % Pow2(order), Pow2(order), x / Pow2(order), 0);
    And(x, WORD - Pow2(order))
  }

  /** The multiple of `2^order` at or above `x`, unless adding the boundary overflows. */
  function RoundUp(x: uint32, order: nat): (r: uint32)
    requires order < 32
    ensures r % Pow2(order) == 0
    ensures x + Pow2(order) <= WORD ==> x <= r < x + Pow2(order)
    ensures x + Pow2(order) > WORD ==> r == 0
  {
    WordIsPow2();
    Pow2Monotone(order, 32);
    var sum := x + Pow2(order) - 1;
    if sum >= WORD then
      DivModUnique(sum, WORD, 1, sum - WORD);
      DivModUnique(sum - WORD, Pow2(order), 0, sum - WORD);
      RoundDown(sum % WORD, order)
    else
      DivModUnique(sum, WORD, 0, sum);
      RoundDown(sum % WORD, order)
  }

  /** No multiple of the boundary lies strictly between a number and its rounding. */
  lemma RoundDownIsHighest(x: uint32, order: nat, a: nat)
    requires order < 32 && a % Pow2(order) == 0 && a <= x
    ensures a <= RoundDown(x, order)
  {
    MultiplesApart(a, RoundDown(x, order), Pow2(order));
  }

  lemma RoundUpIsLowest(x: uint32, order: nat, a: nat)
    requires order < 32 && x + Pow2(order) <= WORD && a % Pow2(order) == 0 && x <= a
    ensures RoundUp(x, order) <= a
  {
    MultiplesApart(RoundUp(x, order), a, Pow2(order));
  }

  /** A multiple of the boundary is left alone, and rounding it up never overflows. */
  lemma RoundUpAligned(x: uint32, order: nat)
    requires order < 32 && x % Pow2(order) == 0
    ensures x + Pow2(order) <= WORD && RoundUp(x, order) == x
  {
    var p := Pow2(order);
    WordIsPow2();
    Pow2Add(32 - order, order);
    DivModUnique(WORD, p, Pow2(32 - order), 0);
    ModAddMultiple(x, 1, p);
    MultiplesApart(x + p, WORD, p);
    MultiplesApart(RoundUp(x, order), x, p);
  }

  /** Multiples of `p` less than `p` apart are equal. */
  lemma MultiplesApart(a: int, b: int, p: int)
    requires p > 0 && a % p == 0 && b % p == 0 && a < b + p
    ensures a <= b
  {
    RemainderOf(a, p);
    RemainderOf(b, p);
    if a > b {
      MulDistributes(a / p, b / p, p);
      if a / p > b / p {
        MulAtLeast(a / p - b / p, p);
      } else {
        MulDistributes(b / p, a / p, p);
        if b / p > a / p {
          MulAtLeast(b / p - a / p, p);
        }
      }
    }
  }
}
