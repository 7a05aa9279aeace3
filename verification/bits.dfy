/** Bitwise arithmetic on natural numbers: the C operators `<<`, `>>`, `&`
    and `|` on unsigned values. Each is defined one bit at a time, so that
    every proof about them goes by induction on the bit count and only ever
    divides by the constant 2. */
module Bits {

  function Pow2(k: nat): (r: nat)
    ensures r >= 1
  {
    if k == 0 then 1 else 2 * Pow2(k - 1)
  }

  lemma {:induction false} Pow2Add(a: nat, b: nat)
    ensures Pow2(a + b) == Pow2(a) * Pow2(b)
  {
    if a > 0 {
      Pow2Add(a - 1, b);
      assert Pow2(a + b) == 2 * Pow2(a - 1 + b);
    }
  }

  lemma {:induction false} Pow2Monotone(a: nat, b: nat)
    requires a <= b
    ensures Pow2(a) <= Pow2(b)
  {
    if a < b {
      Pow2Monotone(a, b - 1);
    }
  }

  /** The powers of two that the on-disk field widths use. */
  lemma Pow2Values()
    ensures Pow2(8) == 0x100 && Pow2(16) == 0x1_0000 && Pow2(24) == 0x100_0000
    ensures Pow2(32) == 0x1_0000_0000 && Pow2(64) == 0x1_0000_0000_0000_0000
  {
    assert Pow2(8) == 0x100;
    Pow2Add(8, 8);
    Pow2Add(16, 8);
    Pow2Add(16, 16);
    Pow2Add(32, 32);
  }

  /** `x << k` */
  function Shl(x: nat, k: nat): nat
  {
    if k == 0 then x else 2 * Shl(x, k - 1)
  }

  /** `x >> k` */
  function Shr(x: nat, k: nat): nat
  {
    if k == 0 then x else Shr(x / 2, k - 1)
  }

  /** `x & ((1 << k) - 1)`, computed bit by bit: the low k bits of x. */
  function LowBits(x: nat, k: nat): nat
  {
    if k == 0 then 0 else 2 * LowBits(x / 2, k - 1) + x % 2
  }

  /** `x & y` */
  function And(x: nat, y: nat): (r: nat)
    ensures r <= x && r <= y
    decreases x
  {
    if x == 0 || y == 0 then 0
    else 2 * And(x / 2, y / 2) + (if x % 2 == 1 && y % 2 == 1 then 1 else 0)
  }

  /** `x | y` */
  function Or(x: nat, y: nat): nat
    decreases x + y
  {
    if x == 0 then y
    else if y == 0 then x
    else 2 * Or(x / 2, y / 2) + (if x % 2 == 1 || y % 2 == 1 then 1 else 0)
  }

  // ---------------------------------------------------------------------
  // Splitting a number at bit k

  lemma {:induction false} LowBitsBound(x: nat, k: nat)
    ensures LowBits(x, k) < Pow2(k)
  {
    if k > 0 {
      LowBitsBound(x / 2, k - 1);
    }
  }

  /** A number is its high part shifted back plus its low part. */
  lemma {:induction false} SplitJoin(x: nat, k: nat)
    ensures Shl(Shr(x, k), k) + LowBits(x, k) == x
  {
    if k > 0 {
      SplitJoin(x / 2, k - 1);
      ShlShr(x / 2, k - 1);
    }
  }

  lemma ShlShr(y: nat, j: nat)
    ensures Shl(Shr(y, j), j + 1) == 2 * Shl(Shr(y, j), j)
  {
  }

  /** The split at bit k is unique: the high and low parts of
      `(a << k) + b` with `b < 2^k` are a and b. */
  lemma {:induction false} SplitUnique(a: nat, k: nat, b: nat)
    requires b < Pow2(k)
    ensures Shr(Shl(a, k) + b, k) == a && LowBits(Shl(a, k) + b, k) == b
  {
    if k > 0 {
      var x := Shl(a, k) + b;
      assert x / 2 == Shl(a, k - 1) + b / 2;
      assert x % 2 == b % 2;
      SplitUnique(a, k - 1, b / 2);
    }
  }

  lemma {:induction false} ShlMonotone(a: nat, b: nat, k: nat)
    requires a <= b
    ensures Shl(a, k) <= Shl(b, k)
  {
    if k > 0 {
      ShlMonotone(a, b, k - 1);
    }
  }

  lemma {:induction false} ShlAdd(a: nat, b: nat, k: nat)
    ensures Shl(a + b, k) == Shl(a, k) + Shl(b, k)
  {
    if k > 0 {
      ShlAdd(a, b, k - 1);
    }
  }

  lemma {:induction false} ShlShl(x: nat, j: nat, k: nat)
    ensures Shl(Shl(x, j), k) == Shl(x, j + k)
  {
    if k > 0 {
      ShlShl(x, j, k - 1);
    }
  }

  lemma {:induction false} ShlOne(k: nat)
    ensures Shl(1, k) == Pow2(k)
  {
    if k > 0 {
      ShlOne(k - 1);
    }
  }

  /** `x < 2^k` exactly when `x >> k` is zero. */
  lemma {:induction false} ShrZero(x: nat, k: nat)
    ensures Shr(x, k) == 0 <==> x < Pow2(k)
  {
    if k > 0 {
      ShrZero(x / 2, k - 1);
    }
  }

  lemma {:induction false} ShrShr(x: nat, a: nat, b: nat)
    ensures Shr(Shr(x, a), b) == Shr(x, a + b)
  {
    if a > 0 {
      ShrShr(x / 2, a - 1, b);
    }
  }

  /** A number below 2^k is its own low k bits. */
  lemma {:induction false} LowBitsOfSmall(x: nat, k: nat)
    requires x < Pow2(k)
    ensures LowBits(x, k) == x
  {
    if k > 0 {
      LowBitsOfSmall(x / 2, k - 1);
    }
  }

  /** Keeping the low a bits and then the low b of those keeps the low
      min(a, b) bits. */
  lemma {:induction false} LowBitsOfLowBits(x: nat, a: nat, b: nat)
    ensures LowBits(LowBits(x, a), b) == LowBits(x, if a < b then a else b)
  {
    if a > 0 && b > 0 {
      var y := LowBits(x, a);
      assert y / 2 == LowBits(x / 2, a - 1) && y % 2 == x % 2;
      LowBitsOfLowBits(x / 2, a - 1, b - 1);
    } else if a == 0 {
      ZeroLowBits(b);
    }
  }

  /** The low bits above bit k, shifted down, are the bits from k on. */
  lemma {:induction false} ShrOfLowBits(x: nat, n: nat, k: nat)
    requires k <= n
    ensures Shr(LowBits(x, n), k) == LowBits(Shr(x, k), n - k)
  {
    if k > 0 {
      var y := LowBits(x, n);
      assert y / 2 == LowBits(x / 2, n - 1);
      ShrOfLowBits(x / 2, n - 1, k - 1);
    }
  }

  /** Splitting the low a + b bits at bit a. */
  lemma {:induction false} LowBitsSplit(x: nat, a: nat, b: nat)
    ensures LowBits(x, a + b) == LowBits(x, a) + Shl(LowBits(Shr(x, a), b), a)
  {
    if a > 0 {
      LowBitsSplit(x / 2, a - 1, b);
    }
  }

  lemma {:induction false} ShrBound(x: nat, n: nat, k: nat)
    requires x < Pow2(n) && k <= n
    ensures Shr(x, k) < Pow2(n - k)
  {
    if k > 0 {
      ShrBound(x / 2, n - 1, k - 1);
    }
  }

  lemma {:induction false} ShlBound(x: nat, n: nat, k: nat)
    requires x < Pow2(n)
    ensures Shl(x, k) < Pow2(n + k)
  {
    if k > 0 {
      ShlBound(x, n, k - 1);
    }
  }

  lemma {:induction false} ShrAtMost(x: nat, k: nat)
    ensures Shr(x, k) <= x
  {
    if k > 0 {
      ShrAtMost(x / 2, k - 1);
    }
  }

  lemma {:induction false} OrBound(x: nat, y: nat, n: nat)
    requires x < Pow2(n) && y < Pow2(n)
    ensures Or(x, y) < Pow2(n)
    decreases n
  {
    if x > 0 && y > 0 {
      OrBound(x / 2, y / 2, n - 1);
    }
  }

  lemma {:induction false} ShrMonotone(x: nat, y: nat, k: nat)
    requires x <= y
    ensures Shr(x, k) <= Shr(y, k)
  {
    if k > 0 {
      ShrMonotone(x / 2, y / 2, k - 1);
    }
  }

  // ---------------------------------------------------------------------
  // Connection with multiplication, division and remainder

  lemma {:induction false} ShlIsMul(x: nat, k: nat)
    ensures Shl(x, k) == x * Pow2(k)
  {
    if k > 0 {
      ShlIsMul(x, k - 1);
      assert 2 * (x * Pow2(k - 1)) == x * (2 * Pow2(k - 1));
    }
  }

  lemma ModOfSmall(x: nat, m: nat)
    requires x < m
    ensures x % m == x
  {
  }

  /** Quotient and remainder are determined by the division equation. */
  lemma DivModUnique(x: int, d: int, q: int, r: int)
    requires d > 0 && 0 <= r < d && x == q * d + r
    ensures x / d == q && x % d == r
  {
    var q', r' := x / d, x % d;
    assert x == q' * d + r';
    if q' < q {
      assert (q - q') * d >= d by { MulAtLeast(q - q', d); }
      assert false;
    } else if q' > q {
      assert (q' - q) * d >= d by { MulAtLeast(q' - q, d); }
      assert false;
    }
  }

  lemma MulAtLeast(k: int, d: int)
    requires k >= 1 && d > 0
    ensures k * d >= d
  {
  }

  /** `x >> k` and `x & ((1 << k) - 1)` are quotient and remainder by 2^k. */
  lemma ShrLowBitsDivMod(x: nat, k: nat)
    ensures Shr(x, k) == x / Pow2(k) && LowBits(x, k) == x % Pow2(k)
  {
    SplitJoin(x, k);
    LowBitsBound(x, k);
    ShlIsMul(Shr(x, k), k);
    DivModUnique(x, Pow2(k), Shr(x, k), LowBits(x, k));
  }

  // ---------------------------------------------------------------------
  // Masks

  /** `x & ((1 << k) - 1)` keeps the low k bits. */
  lemma {:induction false} AndLowMask(x: nat, k: nat)
    ensures And(x, Pow2(k) - 1) == LowBits(x, k)
  {
    if k > 0 && x > 0 {
      var m := Pow2(k) - 1;
      assert m / 2 == Pow2(k - 1) - 1 && m % 2 == 1;
      AndLowMask(x / 2, k - 1);
    } else if k > 0 {
      ZeroLowBits(k);
    }
  }

  lemma {:induction false} ZeroLowBits(k: nat)
    ensures LowBits(0, k) == 0
  {
    if k > 0 {
      ZeroLowBits(k - 1);
    }
  }

  /** A mask shifted left by k selects the bits of x shifted right by k:
      `x & (m << k) == ((x >> k) & m) << k`. */
  lemma {:induction false} AndShiftedMask(x: nat, m: nat, k: nat)
    ensures And(x, Shl(m, k)) == Shl(And(Shr(x, k), m), k)
  {
    if k == 0 {
    } else if m == 0 {
      ShlZero(k);
      ShlZero(k - 1);
    } else if x == 0 {
      ShrOfZero(k);
      ShlZero(k);
    } else {
      var n := Shl(m, k - 1);
      ShlPositive(m, k - 1);
      assert And(x, 2 * n) == 2 * And(x / 2, n) by { AndEven(x, n); }
      AndShiftedMask(x / 2, m, k - 1);
    }
  }

  lemma {:induction false} ShlZero(k: nat)
    ensures Shl(0, k) == 0
  {
    if k > 0 {
      ShlZero(k - 1);
    }
  }

  lemma {:induction false} ShrOfZero(k: nat)
    ensures Shr(0, k) == 0
  {
    if k > 0 {
      ShrOfZero(k - 1);
    }
  }

  lemma {:induction false} ShlPositive(m: nat, k: nat)
    requires m > 0
    ensures Shl(m, k) > 0
  {
    if k > 0 {
      ShlPositive(m, k - 1);
    }
  }

  lemma AndEven(x: nat, n: nat)
    requires x > 0 && n > 0
    ensures And(x, 2 * n) == 2 * And(x / 2, n)
  {
    assert (2 * n) / 2 == n && (2 * n) % 2 == 0;
  }

  /** The C idiom `(x & (m << k)) >> k` is `(x >> k) & m`. */
  lemma MaskThenShift(x: nat, m: nat, k: nat)
    ensures Shr(And(x, Shl(m, k)), k) == And(Shr(x, k), m)
  {
    AndShiftedMask(x, m, k);
    SplitUnique(And(Shr(x, k), m), k, 0);
  }

  /** A bit field written as the C writes it, with a pre-shifted mask:
      `(x & (((1 << w) - 1) << k)) >> k` is the w bits of x from bit k on. */
  lemma BitField(x: nat, k: nat, w: nat)
    ensures Shr(And(x, Shl(Pow2(w) - 1, k)), k) == LowBits(Shr(x, k), w)
  {
    MaskThenShift(x, Pow2(w) - 1, k);
    AndLowMask(Shr(x, k), w);
  }

  /** OR of a value shifted left by k with one below 2^k is their sum. */
  lemma {:induction false} OrDisjoint(a: nat, k: nat, b: nat)
    requires b < Pow2(k)
    ensures Or(Shl(a, k), b) == Shl(a, k) + b
  {
    if k == 0 {
    } else if a == 0 {
      ShlZero(k);
    } else if b == 0 {
    } else {
      var n := Shl(a, k - 1);
      ShlPositive(a, k - 1);
      assert (2 * n) / 2 == n && (2 * n) % 2 == 0;
      OrDisjoint(a, k - 1, b / 2);
    }
  }

  /** AND of a value shifted left by k with one below 2^k is zero. */
  lemma {:induction false} AndDisjoint(a: nat, k: nat, b: nat)
    requires b < Pow2(k)
    ensures And(Shl(a, k), b) == 0
  {
    if k > 0 && a > 0 && b > 0 {
      var n := Shl(a, k - 1);
      assert (2 * n) / 2 == n && (2 * n) % 2 == 0;
      AndDisjoint(a, k - 1, b / 2);
    } else if a == 0 {
      ShlZero(k);
    }
  }

  /** The defining step of AND, also when one side is zero. */
  lemma AndUnfold(x: nat, y: nat)
    ensures And(x, y) == 2 * And(x / 2, y / 2) + (if x % 2 == 1 && y % 2 == 1 then 1 else 0)
  {
  }

  lemma {:induction false} AndAssoc(x: nat, y: nat, z: nat)
    ensures And(And(x, y), z) == And(x, And(y, z))
    decreases x
  {
    if x > 0 {
      AndUnfold(x, y);
      AndUnfold(y, z);
      AndUnfold(And(x, y), z);
      AndUnfold(x, And(y, z));
      AndAssoc(x / 2, y / 2, z / 2);
    }
  }

  /** `(a << k) + b < 2^(n + k)` when `a < 2^n` and `b < 2^k`. */
  lemma ShlAddBound(a: nat, n: nat, k: nat, b: nat)
    requires a < Pow2(n) && b < Pow2(k)
    ensures Shl(a, k) + b < Pow2(n + k)
  {
    ShlOne(k);
    ShlAdd(a, 1, k);
    ShlMonotone(a + 1, Pow2(n), k);
    ShlOne(n);
    ShlShl(1, n, k);
    ShlOne(n + k);
  }
}
