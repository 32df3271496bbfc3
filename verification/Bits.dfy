/** The bitwise operators of the kernel's 32-bit C code, on natural numbers, and the
    lemmas that turn the shift-and-mask idioms of the source into division and remainder. */
module Bits {

  function Pow2(k: nat): (r: nat)
    ensures r >= 1
  {
    if k == 0 then 1 else 2 * Pow2(k - 1)
  }

  function And(x: nat, y: nat): nat {
    if x == 0 || y == 0 then 0 else (x % 2) * (y % 2) + 2 * And(x / 2, y / 2)
  }

  function Or(x: nat, y: nat): nat {
    if x == 0 then y
    else if y == 0 then x
    else (if x % 2 == 1 || y % 2 == 1 then 1 else 0) + 2 * Or(x / 2, y / 2)
  }

  function Shr(x: nat, k: nat): nat {
    if k == 0 then x else Shr(x / 2, k - 1)
  }

  function Shl(x: nat, k: nat): nat {
    if k == 0 then x else 2 * Shl(x, k - 1)
  }

  predicate Bit(x: nat, k: nat) {
    if k == 0 then x % 2 == 1 else Bit(x / 2, k - 1)
  }

  lemma {:induction false} Pow2Grows(j: nat, k: nat)
    requires j < k
    ensures Pow2(j) < Pow2(k)
  {
    if j < k - 1 {
      Pow2Grows(j, k - 1);
    }
  }

  lemma WordRange()
    ensures Pow2(32) == 0x1_0000_0000
  {
    assert Pow2(12) == 0x1000;
    assert Pow2(22) == 0x40_0000;
  }

  // ----- shifts -----

  lemma DivDiv(x: nat, m: nat)
    requires m >= 1
    ensures x / 2 / m == x / (2 * m)
    ensures x % (2 * m) == x % 2 + 2 * (x / 2 % m)
  {
    var q, r := x / 2 / m, x / 2 % m;
    assert x / 2 == q * m + r;
    var s := x % 2 + 2 * r;
    assert x == q * (2 * m) + s;
    assert 0 <= s < 2 * m;
    DivModUnique(x, 2 * m, q, s);
  }

  lemma DivModUnique(x: nat, m: nat, q: nat, r: nat)
    requires m >= 1 && x == q * m + r && r < m
    ensures x / m == q && x % m == r
  {
    var q' := x / m;
    if q > q' {
      MulGap(q', q, m);
    } else if q < q' {
      MulGap(q, q', m);
    }
  }

  lemma {:induction false} MulGap(a: nat, b: nat, m: nat)
    requires a < b
    ensures a * m + m <= b * m
  {
    assert (b - 1) * m + m == b * m;
    if a < b - 1 {
      MulGap(a, b - 1, m);
    }
  }

  lemma {:induction false} ShrIsDiv(x: nat, k: nat)
    ensures Shr(x, k) == x / Pow2(k)
  {
    if k > 0 {
      ShrIsDiv(x / 2, k - 1);
      DivDiv(x, Pow2(k - 1));
    }
  }

  lemma {:induction false} ShlIsMul(x: nat, k: nat)
    ensures Shl(x, k) == x * Pow2(k)
  {
    if k > 0 {
      ShlIsMul(x, k - 1);
    }
  }

  lemma {:induction false} BitIsShr(x: nat, k: nat)
    ensures And(Shr(x, k), 1) == if Bit(x, k) then 1 else 0
  {
    if k > 0 {
      BitIsShr(x / 2, k - 1);
    } else {
      assert x != 0 ==> And(x, 1) == x % 2 + 2 * And(x / 2, 0);
    }
  }

  // ----- masks -----

  lemma {:induction false} AndMask(x: nat, k: nat)
    ensures And(x, Pow2(k) - 1) == x % Pow2(k)
  {
    if k > 0 {
      AndMask(x / 2, k - 1);
      var m := Pow2(k - 1);
      assert Pow2(k) - 1 == 2 * (m - 1) + 1;
      AndOdd(x, m - 1);
      DivDiv(x, m);
    }
  }

  lemma AndOdd(x: nat, y: nat)
    ensures And(x, 2 * y + 1) == x % 2 + 2 * And(x / 2, y)
  {
    OddParts(y);
    if x != 0 {
      assert And(x, 2 * y + 1) == (x % 2) * 1 + 2 * And(x / 2, y);
    }
  }

  lemma OddParts(y: nat)
    ensures (2 * y + 1) % 2 == 1 && (2 * y + 1) / 2 == y
  {
  }

  /** A mask of high bits keeps the bits above position k. */
  lemma {:induction false} AndHighMask(x: nat, y: nat, k: nat)
    ensures And(x, Shl(y, k)) == Shl(And(Shr(x, k), y), k)
  {
    if k > 0 {
      AndHighMask(x / 2, y, k - 1);
      AndEven(x, Shl(y, k - 1));
    }
  }

  lemma AndEven(x: nat, z: nat)
    ensures And(x, 2 * z) == 2 * And(x / 2, z)
  {
    if x != 0 && z != 0 {
      assert (2 * z) % 2 == 0 && (2 * z) / 2 == z;
    }
  }

  lemma {:induction false} OrDisjoint(x: nat, y: nat, k: nat)
    requires y < Pow2(k)
    ensures Or(Shl(x, k), y) == Shl(x, k) + y
  {
    if k > 0 {
      OrDisjoint(x, y / 2, k - 1);
      OrEven(Shl(x, k - 1), y);
    }
  }

  lemma OrEven(z: nat, y: nat)
    ensures Or(2 * z, y) == y % 2 + 2 * Or(z, y / 2)
  {
    if z != 0 && y != 0 {
      assert (2 * z) % 2 == 0 && (2 * z) / 2 == z;
    }
  }

  // ----- single bits -----

  /** Setting bit k by `w |= 1 << k` sets that bit and no other. */
  lemma {:induction false} SetBit(x: nat, k: nat, j: nat)
    ensures Bit(Or(x, Pow2(k)), j) <==> Bit(x, j) || j == k
  {
    if x == 0 {
      BitOfPow2(k, j);
      BitOfZero(j);
    } else if k == 0 {
      assert Or(x, 1) == 1 + 2 * (x / 2);
    } else {
      assert Or(x, Pow2(k)) == x % 2 + 2 * Or(x / 2, Pow2(k - 1));
      if j > 0 {
        SetBit(x / 2, k - 1, j - 1);
      }
    }
  }

  lemma {:induction false} BitOfZero(j: nat)
    ensures !Bit(0, j)
  {
    if j > 0 { BitOfZero(j - 1); }
  }

  lemma {:induction false} BitOfPow2(k: nat, j: nat)
    ensures Bit(Pow2(k), j) <==> j == k
  {
    if k == 0 {
      if j > 0 { BitOfZero(j - 1); }
    } else if j > 0 {
      BitOfPow2(k - 1, j - 1);
    }
  }

  /** Bit j of an n-bit number counted from its top. */
  predicate TopBit(x: nat, n: nat, j: nat)
    requires j < n
  {
    Bit(x, n - 1 - j)
  }

  /** `cnt <<= 1; cnt |= b` moves every bit up by one and puts b in front. */
  lemma AppendBit(x: nat, b: nat)
    requires b < 2
    ensures var y := Or(Shl(x, 1), b);
            && (forall n: nat | x < Pow2(n) :: y < Pow2(n + 1))
            && (Bit(y, 0) <==> b == 1)
            && (forall k: nat :: Bit(y, k + 1) <==> Bit(x, k))
  {
    var y := Or(Shl(x, 1), b);
    assert Shl(x, 1) == 2 * x;
    assert y == 2 * x + b by {
      if x != 0 && b == 1 { assert Or(2 * x, 1) == 1 + 2 * Or(x, 0); }
    }
  }

  lemma {:induction false} OrBound(x: nat, y: nat, n: nat)
    requires x < Pow2(n) && y < Pow2(n)
    ensures Or(x, y) < Pow2(n)
  {
    if n > 0 && x > 0 && y > 0 {
      OrBound(x / 2, y / 2, n - 1);
    }
  }

  // ----- the idioms of paging.c -----

  /** `va >> 22`, `va >> 12 & 0x03FF` and `va & 0xFFF` split an address into directory
      index, table index and page offset. */
  lemma AddressSplit(va: nat)
    ensures Shr(va, 22) == va / 0x40_0000
    ensures And(Shr(va, 12), 0x3FF) == va / 0x1000 % 1024
    ensures And(va, 0xFFF) == va % 0x1000
    ensures va / 0x1000 / 1024 == va / 0x40_0000
  {
    ShrIsDiv(va, 22);
    ShrIsDiv(va, 12);
    assert Pow2(22) == 0x40_0000 && Pow2(12) == 0x1000 && Pow2(10) == 0x400;
    AndMask(Shr(va, 12), 10);
    AndMask(va, 12);
  }

  /** `e & 1` and `e & ~0xFFF` on a 32-bit entry. */
  lemma EntrySplit(e: nat)
    requires e < 0x1_0000_0000
    ensures And(e, 1) == e % 2
    ensures And(e, 0xFFFF_F000) == e / 0x1000 * 0x1000
  {
    LowBit(e);
    FrameMask(e);
  }

  lemma LowBit(e: nat)
    ensures And(e, 1) == e % 2
  {
    AndOdd(e, 0);
  }

  lemma FrameMask(e: nat)
    requires e < 0x1_0000_0000
    ensures And(e, 0xFFFF_F000) == e / 0x1000 * 0x1000
  {
    PageShift(0xF_FFFF);
    AndHighMask(e, 0xF_FFFF, 12);
    ShrIsDiv(e, 12);
    TwentyBits(e / 0x1000);
    PageShift(e / 0x1000);
    assert Pow2(12) == 0x1000;
  }

  lemma TwentyBits(x: nat)
    requires x < 0x10_0000
    ensures And(x, 0xF_FFFF) == x
  {
    assert Pow2(12) == 0x1000;
    assert Pow2(20) == 0x10_0000;
    SmallMask(x, 20, 0xF_FFFF);
  }

  /** A mask of k ones keeps a number of k bits. */
  lemma SmallMask(x: nat, k: nat, mask: nat)
    requires mask == Pow2(k) - 1 && x <= mask
    ensures And(x, mask) == x
  {
    AndMask(x, k);
  }

  /** `frame | (flags & 0xFFF)` on an aligned frame address is addition. */
  lemma EntryJoin(a: nat, flags: nat)
    requires a % 0x1000 == 0
    ensures Or(a, And(flags, 0xFFF)) == a + flags % 0x1000
    ensures Or(a, 3) == a + 3
  {
    PageShift(a / 0x1000);
    assert Pow2(12) == 0x1000;
    AndMask(flags, 12);
    OrDisjoint(a / 0x1000, flags % 0x1000, 12);
    OrDisjoint(a / 0x1000, 3, 12);
  }

  /** `k << 12`. */
  lemma PageShift(k: nat)
    ensures Shl(k, 12) == k * 0x1000
  {
    ShlIsMul(k, 12);
    assert Pow2(12) == 0x1000;
  }
}
