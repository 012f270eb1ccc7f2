/** Fixed-width unsigned integers and the C bit operators on them.
    The operators are defined bit by bit; the lemmas connect the masks and shifts of
    the kernel sources to the arithmetic of addresses, frames and bitmap bytes. */
module Bits {
  type uint8 = x: int | 0 <= x < 0x100
  type uint16 = x: int | 0 <= x < 0x1_0000
  type uint32 = x: int | 0 <= x < 0x1_0000_0000
  type uint64 = x: int | 0 <= x < 0x1_0000_0000_0000_0000

  const TWO_32: int := 0x1_0000_0000

  /** Conversion to `uint32_t`: reduction modulo 2^32. */
  function Wrap32(x: int): (r: uint32)
    ensures 0 <= x < TWO_32 ==> r == x
  {
    x % TWO_32
  }

  lemma WrapAdd(a: int, b: int)
    ensures Wrap32(Wrap32(a) + b) == Wrap32(a + b)
  {
    assert a == a / TWO_32 * TWO_32 + Wrap32(a);
  }

  function Pow2(k: nat): (p: nat)
    ensures p >= 1
  {
    if k == 0 then 1 else 2 * Pow2(k - 1)
  }

  /** `x & y` */
  function And(x: nat, y: nat): nat {
    if x == 0 || y == 0 then 0
    else 2 * And(x / 2, y / 2) + (if x % 2 == 1 && y % 2 == 1 then 1 else 0)
  }

  /** `x | y` */
  function Or(x: nat, y: nat): nat
    decreases x + y
  {
    if x == 0 && y == 0 then 0
    else 2 * Or(x / 2, y / 2) + (if x % 2 == 1 || y % 2 == 1 then 1 else 0)
  }

  /** `x >> k` */
  function Shr(x: nat, k: nat): nat {
    if k == 0 then x else Shr(x / 2, k - 1)
  }

  lemma {:induction false} ShrDivides(x: nat, k: nat)
    ensures Shr(x, k) == x / Pow2(k)
  {
    if k != 0 {
      ShrDivides(x / 2, k - 1);
      Halve(x, Pow2(k - 1));
    }
  }

  /** Bit `k` of `x`. */
  predicate Bit(x: nat, k: nat) {
    if k == 0 then x % 2 == 1 else Bit(x / 2, k - 1)
  }

  lemma Halve(x: nat, m: nat)
    requires m >= 1
    ensures x % (2 * m) == 2 * (x / 2 % m) + x % 2
    ensures x / (2 * m) == x / 2 / m
  {
    var q, r := x / 2 / m, x / 2 % m;
    assert x / 2 == q * m + r;
    assert x == q * (2 * m) + (2 * r + x % 2);
    assert 2 * r + x % 2 < 2 * m;
    DivModUnique(x, 2 * m, q, 2 * r + x % 2);
  }

  lemma {:induction false} MulMono(a: nat, b: nat, d: nat)
    requires a < b
    ensures a * d + d <= b * d
  {
    if a + 1 < b {
      MulMono(a, b - 1, d);
    }
    assert b * d == (b - 1) * d + d;
  }

  lemma {:induction false} MulMonoRight(a: nat, b: nat, d: nat)
    requires a <= b
    ensures d * a <= d * b
  {
    if a < b {
      MulMono(a, b, d);
    }
  }

  lemma DivModUnique(x: nat, d: nat, q: nat, r: nat)
    requires x == q * d + r && r < d
    ensures x / d == q && x % d == r
  {
    var p := x / d;
    assert x == p * d + x % d;
    if p < q {
      MulMono(p, q, d);
    } else if q < p {
      MulMono(q, p, d);
    }
  }

  /** Masking with `2^k - 1` is the remainder modulo `2^k`. */
  lemma {:induction false} AndLowMask(x: nat, k: nat)
    ensures And(x, Pow2(k) - 1) == x % Pow2(k)
  {
    if k != 0 {
      Halve(x, Pow2(k - 1));
      AndLowMask(x / 2, k - 1);
      assert (Pow2(k) - 1) / 2 == Pow2(k - 1) - 1;
      if x == 0 {
        assert x % Pow2(k) == 0;
      }
    }
  }

  lemma AndEvenMask(x: nat, y: nat)
    ensures And(x, 2 * y) == 2 * And(x / 2, y)
  {
    assert 2 * y / 2 == y && 2 * y % 2 == 0;
  }

  /** Masking an `n`-bit number with `2^n - 2^k` clears its low `k` bits. */
  lemma {:induction false} AndHighMask(x: nat, k: nat, n: nat)
    requires k <= n && x < Pow2(n)
    ensures Pow2(k) <= Pow2(n)
    ensures And(x, Pow2(n) - Pow2(k)) == x - x % Pow2(k)
  {
    if k == 0 {
      AndLowMask(x, n);
      DivModUnique(x, Pow2(n), 0, x);
      DivModUnique(x, 1, x, 0);
    } else {
      assert Pow2(n) == 2 * Pow2(n - 1) && Pow2(k) == 2 * Pow2(k - 1);
      hide Pow2, And;
      AndHighMask(x / 2, k - 1, n - 1);
      Halve(x, Pow2(k - 1));
      AndEvenMask(x, Pow2(n - 1) - Pow2(k - 1));
    }
  }

  /** Low bits are joined independently of the bits above them. */
  lemma {:induction false} OrLowBits(a: nat, b: nat, c: nat, k: nat)
    requires a % Pow2(k) == 0 && b < Pow2(k) && c < Pow2(k)
    ensures Or(a + b, c) == a + Or(b, c)
    decreases k
  {
    if k == 0 {
      OrZero(a);
    } else {
      Halve(a, Pow2(k - 1));
      OrLowBits(a / 2, b / 2, c / 2, k - 1);
      assert a % 2 == 0 && (a + b) / 2 == a / 2 + b / 2 && (a + b) % 2 == b % 2;
    }
  }

  /** Joining low bits onto a number whose low bits are clear is addition. */
  lemma OrDisjoint(a: nat, b: nat, k: nat)
    requires a % Pow2(k) == 0 && b < Pow2(k)
    ensures Or(a, b) == a + b
  {
    OrLowBits(a, 0, b, k);
    OrZeroLeft(b);
  }

  lemma {:induction false} OrZeroLeft(b: nat)
    ensures Or(0, b) == b
  {
    if b != 0 {
      OrZeroLeft(b / 2);
    }
  }

  lemma {:induction false} OrZero(a: nat)
    ensures Or(a, 0) == a
  {
    if a != 0 {
      OrZero(a / 2);
    }
  }

  lemma {:induction false} BitAnd(x: nat, y: nat, k: nat)
    ensures Bit(And(x, y), k) == (Bit(x, k) && Bit(y, k))
  {
    if x == 0 || y == 0 {
      BitOfZero(k);
    } else if k != 0 {
      BitAnd(x / 2, y / 2, k - 1);
      assert And(x, y) / 2 == And(x / 2, y / 2);
    }
  }

  lemma {:induction false} BitOr(x: nat, y: nat, k: nat)
    ensures Bit(Or(x, y), k) == (Bit(x, k) || Bit(y, k))
  {
    if x == 0 && y == 0 {
      BitOfZero(k);
    } else {
      OrStep(x, y);
      if k != 0 {
        BitOr(x / 2, y / 2, k - 1);
      }
    }
  }

  lemma OrStep(x: nat, y: nat)
    requires x != 0 || y != 0
    ensures Or(x, y) / 2 == Or(x / 2, y / 2)
    ensures Or(x, y) % 2 == 1 <==> x % 2 == 1 || y % 2 == 1
  {
    var h := Or(x / 2, y / 2);
    assert Or(x, y) == 2 * h || Or(x, y) == 2 * h + 1;
  }

  lemma {:induction false} BitOfZero(k: nat)
    ensures !Bit(0, k)
  {
    if k != 0 {
      BitOfZero(k - 1);
    }
  }

  lemma {:induction false} BitOfPow2(j: nat, k: nat)
    ensures Bit(Pow2(j), k) == (j == k)
  {
    if j == 0 {
      if k != 0 {
        BitOfZero(k - 1);
      }
    } else if k != 0 {
      BitOfPow2(j - 1, k - 1);
      assert Pow2(j) / 2 == Pow2(j - 1);
    }
  }

  /** Bits of the complement within `n` bits. */
  lemma {:induction false} BitOfNot(x: nat, n: nat, k: nat)
    requires x < Pow2(n) && k < n
    ensures Bit(Pow2(n) - 1 - x, k) == !Bit(x, k)
  {
    if k != 0 {
      BitOfNot(x / 2, n - 1, k - 1);
      assert (Pow2(n) - 1 - x) / 2 == Pow2(n - 1) - 1 - x / 2;
    }
  }

  /** Testing `x & (1 << j)` reads bit `j`. */
  lemma {:induction false} AndPow2(x: nat, j: nat)
    ensures And(x, Pow2(j)) != 0 <==> Bit(x, j)
  {
    if x == 0 {
      BitOfZero(j);
    } else if j != 0 {
      AndPow2(x / 2, j - 1);
      assert Pow2(j) / 2 == Pow2(j - 1);
    }
  }

  lemma {:induction false} AndBound(x: nat, y: nat)
    ensures And(x, y) <= x
  {
    if x != 0 && y != 0 {
      AndBound(x / 2, y / 2);
    }
  }

  lemma {:induction false} OrBound(x: nat, y: nat, n: nat)
    requires x < Pow2(n) && y < Pow2(n)
    ensures Or(x, y) < Pow2(n)
    decreases n
  {
    if x != 0 || y != 0 {
      OrBound(x / 2, y / 2, n - 1);
    }
  }

  lemma {:induction false} Pow2Mono(j: nat, n: nat)
    requires j < n
    ensures Pow2(j) < Pow2(n)
  {
    if j != n - 1 {
      Pow2Mono(j, n - 1);
    }
  }

  lemma PowersOfTwo()
    ensures Pow2(1) == 2 && Pow2(8) == 256 && Pow2(10) == 1024 && Pow2(12) == 4096
    ensures Pow2(22) == 0x40_0000 && Pow2(32) == TWO_32
  {
    assert Pow2(4) == 16;
    assert Pow2(16) == 16 * Pow2(12) by { assert Pow2(14) == 4 * Pow2(12); }
    assert Pow2(22) == 64 * Pow2(16) by { assert Pow2(19) == 8 * Pow2(16); }
    assert Pow2(28) == 64 * Pow2(22) by { assert Pow2(25) == 8 * Pow2(22); }
    assert Pow2(32) == 16 * Pow2(28) by { assert Pow2(30) == 4 * Pow2(28); }
  }

  lemma SmallFlags()
    ensures Or(0, 1) == 1 && Or(1, 2) == 3 && Or(3, 4) == 7
  {
  }
}
