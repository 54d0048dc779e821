/** C's bitwise operators on unsigned values, as functions on natural numbers.

    The operators work digit by digit, so no word size is built in: a value of a
    `w`-bit type is a natural number below `Pow2(w)`. The lemmas say what the
    masks the sources use (`x & (size - 1)`, `x & ~(align - 1)`, `(a ^ b) & size`,
    `(page << 3) | (pos >> 8)`) compute in terms of `/` and `%`. */
module Bits {

  function Pow2(k: nat): (p: nat)
    ensures p > 0
    ensures k > 0 ==> p % 2 == 0
  {
    if k == 0 then 1 else 2 * Pow2(k - 1)
  }

  function And(a: nat, b: nat): nat
    decreases a
  {
    if a == 0 then 0
    else 2 * And(a / 2, b / 2) + (if a % 2 == 1 && b % 2 == 1 then 1 else 0)
  }

  function Or(a: nat, b: nat): nat
    decreases a + b
  {
    if a == 0 then b
    else 2 * Or(a / 2, b / 2) + (if a % 2 == 1 || b % 2 == 1 then 1 else 0)
  }

  function Xor(a: nat, b: nat): nat
    decreases a + b
  {
    if a == 0 then b
    else 2 * Xor(a / 2, b / 2) + (if a % 2 != b % 2 then 1 else 0)
  }

  /** Whether bit `k` of `x` is set. */
  predicate Bit(x: nat, k: nat)
  {
    if k == 0 then x % 2 == 1 else Bit(x / 2, k - 1)
  }

  lemma MulAtLeast(k: int, d: int)
    requires k >= 1 && d > 0
    ensures k * d >= d
  {
  }

  lemma MulNonNegative(a: nat, b: nat)
    ensures a * b >= 0
  {
  }

  /** Quotient and remainder are unique. */
  lemma DivModUnique(x: int, d: int, q: int, r: int)
    requires d > 0 && x == q * d + r && 0 <= r < d
    ensures x / d == q && x % d == r
  {
    var q', r' := x / d, x % d;
    assert x == q' * d + r';
    assert (q - q') * d == r' - r && (q' - q) * d == r - r';
    if q > q' {
      MulAtLeast(q - q', d);
    } else if q < q' {
      MulAtLeast(q' - q, d);
    }
  }

  lemma RemainderOf(x: int, w: nat)
    requires w > 0
    ensures 0 <= x % w < w && x == x % w + (x / w) * w
  {
  }

  lemma MulAssociates(a: int, b: int, c: int)
    ensures (a * b) * c == a * (b * c)
  {
  }

  lemma MulDistributes(a: int, b: int, c: int)
    ensures (a - b) * c == a * c - b * c
  {
  }

  /** Adding a multiple of `d` does not change a remainder. */
  lemma ModAddMultiple(x: int, q: int, d: int)
    requires d > 0
    ensures (x + q * d) % d == x % d
    ensures (x + q * d) / d == x / d + q
  {
    DivModUnique(x + q * d, d, x / d + q, x % d);
  }

  /** Sums and differences may be wrapped at any time. */
  lemma WrappedSum(a: int, n: int, w: nat)
    requires w > 0
    ensures (a % w + n) % w == (a + n) % w
  {
    RemainderOf(a, w);
    ModAddMultiple(a % w + n, a / w, w);
  }

  lemma WrappedDifference(a: int, b: int, w: nat)
    requires w > 0
    ensures (a % w - b % w) % w == (a - b) % w
  {
    WrappedSum(a, -(b % w), w);
    RemainderOf(b, w);
    ModAddMultiple(a - b, b / w, w);
  }

  lemma SmallMod(n: int, w: nat)
    requires 0 <= n < w
    ensures n % w == n
  {
    DivModUnique(n, w, 0, n);
  }

  lemma Pow2Monotone(j: nat, k: nat)
    requires j <= k
    ensures Pow2(j) <= Pow2(k)
    decreases k - j
  {
    if j < k {
      Pow2Monotone(j + 1, k);
    }
  }

  lemma {:induction false} Pow2Add(j: nat, k: nat)
    ensures Pow2(j + k) == Pow2(j) * Pow2(k)
  {
    if j > 0 {
      Pow2Add(j - 1, k);
      assert Pow2(j) * Pow2(k) == 2 * (Pow2(j - 1) * Pow2(k));
    }
  }

  /** The last digit and the rest of a remainder. */
  lemma ModHalve(x: nat, p: nat)
    requires p > 0
    ensures x % (2 * p) == 2 * ((x / 2) % p) + x % 2
    ensures x / (2 * p) == (x / 2) / p
  {
    var h := x / 2;
    var q, r := h / p, h % p;
    assert h == q * p + r;
    assert x == q * (2 * p) + (2 * r + x % 2);
    DivModUnique(x, 2 * p, q, 2 * r + x % 2);
  }

  /** A remainder can be taken after wrapping around at a multiple of the divisor. */
  lemma WrapThenMod(x: int, j: nat, bits: nat)
    requires j <= bits
    ensures (x % Pow2(bits)) % Pow2(j) == x % Pow2(j)
  {
    var d, m := Pow2(j), Pow2(bits - j);
    var q := x / Pow2(bits);
    assert Pow2(bits) == m * d by {
      Pow2Add(bits - j, j);
    }
    MulAssociates(q, m, d);
    RemainderOf(x, Pow2(bits));
    ModAddMultiple(x % Pow2(bits), q * m, d);
  }

  /** `x & (2^k - 1)` is the remainder modulo `2^k`. */
  lemma {:induction false} AndLowMask(x: nat, k: nat)
    ensures And(x, Pow2(k) - 1) == x % Pow2(k)
  {
    if k == 0 {
      AndZero(x);
    } else if x != 0 {
      var p := Pow2(k - 1);
      assert (Pow2(k) - 1) / 2 == p - 1;
      AndLowMask(x / 2, k - 1);
      ModHalve(x, p);
    }
  }

  lemma {:induction false} AndZero(x: nat)
    ensures And(x, 0) == 0
  {
    if x != 0 {
      AndZero(x / 2);
    }
  }

  /** The digit step of `&` when the right operand is even. */
  lemma AndEven(x: nat, m: nat)
    ensures And(x, 2 * m) == 2 * And(x / 2, m)
  {
    assert (2 * m) / 2 == m && (2 * m) % 2 == 0;
  }

  /** `x & ~(2^k - 1)` in a `w`-bit word rounds down to a multiple of `2^k`. */
  lemma {:induction false} AndHighMask(x: nat, k: nat, w: nat)
    requires k <= w && x < Pow2(w)
    ensures Pow2(k) <= Pow2(w)
    ensures And(x, Pow2(w) - Pow2(k)) == x - x % Pow2(k)
  {
    hide And;
    Pow2Monotone(k, w);
    if k == 0 {
      AndLowMask(x, w);
      DivModUnique(x, Pow2(w), 0, x);
    } else {
      var p, m := Pow2(k - 1), Pow2(w - 1) - Pow2(k - 1);
      Pow2Monotone(k - 1, w - 1);
      assert x / 2 < Pow2(w - 1);
      AndHighMask(x / 2, k - 1, w - 1);
      ModHalve(x, p);
      AndEven(x, m);
      assert Pow2(w) - Pow2(k) == 2 * m;
    }
  }

  /** `x & 2^k` is non-zero exactly when bit `k` is set. */
  lemma {:induction false} AndPow2(x: nat, k: nat)
    ensures And(x, Pow2(k)) == if Bit(x, k) then Pow2(k) else 0
  {
    if x == 0 {
      BitZero(k);
    } else if k == 0 {
      AndZero(x / 2);
    } else {
      AndPow2(x / 2, k - 1);
    }
  }

  lemma {:induction false} BitZero(k: nat)
    ensures !Bit(0, k)
  {
    if k > 0 {
      BitZero(k - 1);
    }
  }

  /** Bit `k` of an exclusive or is set exactly when the operands' bits differ. */
  lemma {:induction false} XorBit(a: nat, b: nat, k: nat)
    ensures Bit(Xor(a, b), k) <==> Bit(a, k) != Bit(b, k)
  {
    if a == 0 {
      BitZero(k);
    } else if k > 0 {
      XorBit(a / 2, b / 2, k - 1);
    }
  }

  /** Bit `k` splits the remainder modulo `2^(k+1)` in halves. */
  lemma {:induction false} BitMod(x: nat, k: nat)
    ensures Bit(x, k) <==> x % Pow2(k + 1) >= Pow2(k)
    ensures x % Pow2(k + 1) == x % Pow2(k) + if Bit(x, k) then Pow2(k) else 0
  {
    if k > 0 {
      BitMod(x / 2, k - 1);
      ModHalve(x, Pow2(k));
      ModHalve(x, Pow2(k - 1));
    }
  }

  /** `a | b` of operands that share no bit position is their sum. */
  lemma {:induction false} OrDisjoint(a: nat, b: nat, k: nat)
    requires a % Pow2(k) == 0 && b < Pow2(k)
    ensures Or(a, b) == a + b
  {
    if k > 0 && a != 0 {
      ModHalve(a, Pow2(k - 1));
      OrDisjoint(a / 2, b / 2, k - 1);
    } else if a != 0 {
      OrZero(a);
    }
  }

  lemma {:induction false} OrZero(a: nat)
    ensures Or(a, 0) == a
  {
    if a != 0 {
      OrZero(a / 2);
    }
  }

  ghost predicate IsPow2(x: nat)
  {
    exists k: nat :: x == Pow2(k)
  }

  lemma HalfOfPow2(x: nat)
    requires x > 1
    ensures IsPow2(x) <==> x % 2 == 0 && IsPow2(x / 2)
  {
    if k: nat :| x == Pow2(k) {
      assert k > 0 && x == 2 * Pow2(k - 1);
      assert x / 2 == Pow2(k - 1);
    } else if k: nat :| x % 2 == 0 && x / 2 == Pow2(k) {
      assert x == Pow2(k + 1);
    }
  }

  /** A power of two is the only non-zero value for which `x & (x - 1)` is zero. */
  lemma {:induction false} PowerOfTwoTest(x: nat)
    requires x > 0
    ensures And(x, x - 1) == 0 <==> IsPow2(x)
  {
    if x == 1 {
      assert x == Pow2(0);
    } else {
      HalfOfPow2(x);
      hide IsPow2;
      hide Pow2;
      if x % 2 == 0 {
        PowerOfTwoTest(x / 2);
        assert (x - 1) / 2 == x / 2 - 1;
        assert And(x, x - 1) == 2 * And(x / 2, x / 2 - 1);
      } else {
        assert (x - 1) / 2 == x / 2;
        AndSelf(x / 2);
      }
    }
  }

  lemma {:induction false} AndSelf(x: nat)
    ensures And(x, x) == x
  {
    if x != 0 {
      AndSelf(x / 2);
    }
  }

  // ---- 16-bit integers ----

  type int16 = x: int | -0x8000 <= x < 0x8000

  predicate IsInt16(x: int)
  {
    -0x8000 <= x < 0x8000
  }

  /** The value a 16-bit integer has after `x` was stored in it. */
  function Wrap16(x: int): int16
  {
    (x + 0x8000) % 0x1_0000 - 0x8000
  }

  lemma WrapFits(x: int)
    ensures Wrap16(x) == x <==> IsInt16(x)
    ensures -0x1_8000 <= x < -0x8000 ==> Wrap16(x) == x + 0x1_0000
    ensures 0x8000 <= x < 0x1_8000 ==> Wrap16(x) == x - 0x1_0000
  {
  }
}
