/** Machine words as bounded naturals, and the C bit operators on them.

    The kernel mixes addresses with flag bits and packs one bit per block into bytes.
    Words stay mathematical integers here; `&`, `|`, `~` and `1 << k` are written out
    bit by bit, and this module proves the arithmetic each use of them relies on.
  */
module Bits {

  const U8 := 0x100
  const U16 := 0x1_0000
  const U24 := 0x100_0000
  const U32 := 0x1_0000_0000
  const U64 := 0x1_0000_0000_0000_0000

  type Byte = x: nat | x < U8
  type Word32 = x: nat | x < U32
  type Word = x: nat | x < U64

  /** Bit `k` of `x`. */
  predicate Bit(x: nat, k: nat)
    decreases k
  {
    if k == 0 then x % 2 == 1 else Bit(x / 2, k - 1)
  }

  /** `x & y` */
  function And(x: nat, y: nat): nat
    decreases x
  {
    if x == 0 then 0
    else (if x % 2 == 1 && y % 2 == 1 then 1 else 0) + 2 * And(x / 2, y / 2)
  }

  /** `x | y` */
  function Or(x: nat, y: nat): nat
    decreases x
  {
    if x == 0 then y
    else (if x % 2 == 1 || y % 2 == 1 then 1 else 0) + 2 * Or(x / 2, y / 2)
  }

  /** `1 << k` */
  function Pow2(k: nat): (p: nat)
    ensures p > 0
  {
    if k == 0 then 1 else 2 * Pow2(k - 1)
  }

  /** `x << k` */
  function Shl(x: nat, k: nat): nat
    decreases k
  {
    if k == 0 then x else 2 * Shl(x, k - 1)
  }

  /** `x >> k` */
  function Shr(x: nat, k: nat): nat
    decreases k
  {
    if k == 0 then x else Shr(x / 2, k - 1)
  }

  lemma Powers()
    ensures Pow2(1) == 2 && Pow2(3) == 8 && Pow2(8) == U8 && Pow2(9) == 512 && Pow2(12) == 4096
    ensures Pow2(16) == U16 && Pow2(21) == 0x20_0000 && Pow2(24) == U24
    ensures Pow2(30) == 0x4000_0000 && Pow2(32) == U32 && Pow2(39) == 0x80_0000_0000
    ensures Pow2(40) == 0x100_0000_0000 && Pow2(52) == 0x10_0000_0000_0000 && Pow2(64) == U64
  {
    assert Pow2(12) == 4096;
    assert Pow2(24) == U24;
    assert Pow2(32) == U32;
    assert Pow2(40) == 0x100_0000_0000;
    assert Pow2(52) == 0x10_0000_0000_0000;
  }

  lemma {:induction false} AndBit(x: nat, y: nat, k: nat)
    ensures Bit(And(x, y), k) <==> Bit(x, k) && Bit(y, k)
    decreases k
  {
    if x == 0 {
      ZeroBit(k);
    } else if k > 0 {
      AndBit(x / 2, y / 2, k - 1);
    }
  }

  lemma {:induction false} OrBit(x: nat, y: nat, k: nat)
    ensures Bit(Or(x, y), k) <==> Bit(x, k) || Bit(y, k)
    decreases k
  {
    if x == 0 {
      ZeroBit(k);
    } else if k > 0 {
      OrBit(x / 2, y / 2, k - 1);
    }
  }

  lemma {:induction false} ZeroBit(k: nat)
    ensures !Bit(0, k)
  {
    if k > 0 {
      ZeroBit(k - 1);
    }
  }

  lemma {:induction false} Pow2Bit(j: nat, k: nat)
    ensures Bit(Pow2(j), k) <==> j == k
  {
    if j == 0 && k > 0 {
      ZeroBit(k - 1);
    } else if j > 0 && k > 0 {
      Pow2Bit(j - 1, k - 1);
    }
  }

  /** Complement within a width of `w` bits. */
  lemma {:induction false} NotBit(x: nat, w: nat, k: nat)
    requires x < Pow2(w) && k < w
    ensures Bit(Pow2(w) - 1 - x, k) <==> !Bit(x, k)
  {
    if k > 0 {
      assert (Pow2(w) - 1 - x) / 2 == Pow2(w - 1) - 1 - x / 2;
      NotBit(x / 2, w - 1, k - 1);
    }
  }

  /** The C test `x & (1 << k)` reads bit `k`. */
  lemma {:induction false} TestBit(x: nat, k: nat)
    ensures And(x, Pow2(k)) != 0 <==> Bit(x, k)
    decreases k
  {
    if x == 0 {
      ZeroBit(k);
    } else if k > 0 {
      TestBit(x / 2, k - 1);
    } else {
      AndZero(x / 2);
    }
  }

  lemma {:induction false} AndZero(x: nat)
    ensures And(x, 0) == 0
  {
    if x > 0 {
      AndZero(x / 2);
    }
  }

  lemma {:induction false} OrZero(x: nat)
    ensures Or(x, 0) == x
  {
    if x > 0 {
      OrZero(x / 2);
    }
  }

  lemma AndParts(x: nat, y: nat)
    ensures And(x, y) / 2 == And(x / 2, y / 2)
    ensures And(x, y) % 2 == 1 <==> x % 2 == 1 && y % 2 == 1
  {
  }

  lemma OrParts(x: nat, y: nat)
    ensures Or(x, y) / 2 == Or(x / 2, y / 2)
    ensures Or(x, y) % 2 == 1 <==> x % 2 == 1 || y % 2 == 1
  {
  }

  lemma {:induction false} AndOfOr(a: nat, b: nat, c: nat)
    ensures And(Or(a, b), c) == Or(And(a, c), And(b, c))
    decreases a + b
  {
    if a + b > 0 {
      AndOfOr(a / 2, b / 2, c / 2);
      OrParts(a, b);
      AndParts(Or(a, b), c);
      AndParts(a, c);
      AndParts(b, c);
      OrParts(And(a, c), And(b, c));
    }
  }

  lemma {:induction false} OrAssociative(a: nat, b: nat, c: nat)
    ensures Or(Or(a, b), c) == Or(a, Or(b, c))
    decreases a + b
  {
    if a + b > 0 {
      OrAssociative(a / 2, b / 2, c / 2);
      OrParts(a, b);
      OrParts(Or(a, b), c);
      OrParts(b, c);
      OrParts(a, Or(b, c));
    }
  }

  /** Bitwise or never leaves the width of its operands. */
  lemma {:induction false} OrWidth(x: nat, y: nat, w: nat)
    requires x < Pow2(w) && y < Pow2(w)
    ensures Or(x, y) < Pow2(w)
  {
    if x > 0 && w > 0 {
      OrWidth(x / 2, y / 2, w - 1);
    }
  }

  lemma {:induction false} AndWidth(x: nat, y: nat)
    ensures And(x, y) <= x
  {
    if x > 0 {
      AndWidth(x / 2, y / 2);
    }
  }

  lemma MulAtLeast(d: nat, k: int)
    requires k >= 1
    ensures d * k >= d
  {
    assert d * k == d * (k - 1) + d;
    assert d * (k - 1) >= 0;
  }

  lemma MulNonNegative(a: nat, b: nat)
    ensures a * b >= 0
  {
  }

  lemma Distribute(d: int, a: int, b: int)
    ensures d * (a - b) == d * a - d * b
  {
  }

  /** Quotient and remainder are unique. */
  lemma DivModUnique(x: nat, d: nat, q: nat, r: nat)
    requires r < d && x == d * q + r
    ensures x / d == q && x % d == r
  {
    var q', r' := x / d, x % d;
    assert x == d * q' + r';
    Distribute(d, q', q);
    Distribute(d, q, q');
    if q < q' {
      MulAtLeast(d, q' - q);
    } else if q > q' {
      MulAtLeast(d, q - q');
    }
  }

  lemma HalveDivMod(x: nat, d: nat)
    requires d > 0
    ensures x / (2 * d) == x / 2 / d
    ensures x % (2 * d) == x % 2 + 2 * (x / 2 % d)
  {
    var q, r := x / 2 / d, x / 2 % d;
    assert x / 2 == d * q + r;
    assert x == (2 * d) * q + (x % 2 + 2 * r);
    DivModUnique(x, 2 * d, q, x % 2 + 2 * r);
  }

  /** Masking with `2^n - 1` is reduction modulo `2^n`. */
  lemma {:induction false} AndLowMask(x: nat, n: nat)
    ensures And(x, Pow2(n) - 1) == x % Pow2(n)
    decreases n
  {
    if n == 0 {
      AndZero(x);
      assert x % 1 == 0;
    } else if x == 0 {
      assert 0 % Pow2(n) == 0;
    } else {
      var p := Pow2(n - 1);
      assert Pow2(n) == 2 * p;
      AndLowMask(x / 2, n - 1);
      HalveDivMod(x, p);
      assert (2 * p - 1) / 2 == p - 1 && (2 * p - 1) % 2 == 1;
    }
  }

  lemma AndEven(x: nat, y: nat)
    ensures And(x, 2 * y) == 2 * And(x / 2, y)
  {
    assert (2 * y) % 2 == 0 && (2 * y) / 2 == y;
  }

  /** A mask shifted left by `k` acts on the quotient by `2^k`. */
  lemma {:induction false} AndShiftedMask(x: nat, m: nat, k: nat, mask: nat)
    requires mask == Shl(m, k)
    ensures And(x, mask) == Shl(And(Shr(x, k), m), k)
    decreases k
  {
    if k > 0 {
      AndEven(x, Shl(m, k - 1));
      AndShiftedMask(x / 2, m, k - 1, Shl(m, k - 1));
    }
  }

  lemma Assoc(a: int, b: int)
    ensures 2 * a * b == 2 * (a * b)
  {
  }

  /** Or-ing bits below `2^k` into a multiple of `2^k` is addition. */
  lemma {:induction false} OrIsSum(h: nat, x: nat, k: nat)
    requires x < Pow2(k)
    ensures Or(Pow2(k) * h, x) == Pow2(k) * h + x
    decreases k
  {
    if k == 0 {
      OrZero(h);
    } else {
      var y := Pow2(k - 1) * h;
      Assoc(Pow2(k - 1), h);
      OrIsSum(h, x / 2, k - 1);
      assert (2 * y) % 2 == 0 && (2 * y) / 2 == y;
    }
  }

  lemma {:induction false} ShrIsDiv(x: nat, k: nat)
    ensures Shr(x, k) == x / Pow2(k)
    decreases k
  {
    if k == 0 {
      assert x / 1 == x;
    } else {
      ShrIsDiv(x / 2, k - 1);
      HalveDivMod(x, Pow2(k - 1));
    }
  }

  lemma {:induction false} HighBitClear(x: nat, k: nat)
    requires x < Pow2(k)
    ensures !Bit(x, k)
  {
    if k > 0 {
      HighBitClear(x / 2, k - 1);
    }
  }

  /** A mask and its complement split a word. */
  lemma {:induction false} AndComplement(x: nat, m: nat, w: nat)
    requires x < Pow2(w) && m < Pow2(w)
    ensures And(x, m) + And(x, Pow2(w) - 1 - m) == x
    decreases w
  {
    if w > 0 {
      assert (Pow2(w) - 1 - m) / 2 == Pow2(w - 1) - 1 - m / 2;
      AndComplement(x / 2, m / 2, w - 1);
    }
  }

  /** A word shifted left by `k` has nothing in common with a mask of `k` bits. */
  lemma {:induction false} AndDisjoint(h: nat, m: nat, k: nat)
    requires m < Pow2(k)
    ensures And(Shl(h, k), m) == 0
    decreases k
  {
    if k == 0 {
      AndZero(h);
    } else {
      var x := Shl(h, k - 1);
      AndDisjoint(h, m / 2, k - 1);
      AndParts(2 * x, m);
    }
  }
}
