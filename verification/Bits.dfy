/** 64-bit words and the bitfield macros over them. A word is a number below 2^64; the operators of C are
    defined on numbers and characterised bit by bit, so that every law below is for all offsets and sizes. */
module Bits {

  const WORD := 0x1_0000_0000_0000_0000

  type u64 = x: int | 0 <= x < WORD

  function Pow2(n: nat): (p: nat)
    ensures p > 0
  {
    if n == 0 then 1 else 2 * Pow2(n - 1)
  }

  function Bit(x: nat, i: nat): bool {
    if i == 0 then x % 2 == 1 else Bit(x / 2, i - 1)
  }

  // ---------------------------------------------------------------- the operators

  function And(x: nat, y: nat): nat {
    if x == 0 || y == 0 then 0 else (x % 2) * (y % 2) + 2 * And(x / 2, y / 2)
  }

  function Or(x: nat, y: nat): nat
    decreases x + y
  {
    if x == 0 then y else if y == 0 then x
    else (if x % 2 == 1 || y % 2 == 1 then 1 else 0) + 2 * Or(x / 2, y / 2)
  }

  /** `x >> k`, one bit at a time. */
  function Shr(x: nat, k: nat): nat {
    if k == 0 then x else Shr(x / 2, k - 1)
  }

  function Shl(x: nat, k: nat): u64 {
    (x * Pow2(k)) % WORD
  }

  function Not(x: u64): u64 {
    WORD - 1 - x
  }

  // ---------------------------------------------------------------- bit by bit

  lemma Pow2Sixteen()
    ensures Pow2(16) == 0x1_0000
  {
    assert Pow2(4) == 16;
    Pow2Add(4, 4);
    Pow2Add(8, 8);
  }

  lemma Pow2Word()
    ensures Pow2(64) == WORD
  {
    Pow2Sixteen();
    Pow2Add(16, 16);
    Pow2Add(32, 32);
  }

  lemma SmallPowers()
    ensures Pow2(1) == 2 && Pow2(2) == 4 && Pow2(3) == 8 && Pow2(4) == 16 && Pow2(8) == 0x100 && Pow2(12) == 0x1000
    ensures Pow2(16) == 0x1_0000 && Pow2(20) == 0x10_0000 && Pow2(36) == 0x10_0000_0000
  {
    Pow2Sixteen();
    Pow2Add(4, 4);
    Pow2Add(4, 8);
    Pow2Add(4, 16);
    Pow2Add(20, 16);
  }

  lemma LargePowers()
    ensures Pow2(43) == 0x800_0000_0000 && Pow2(51) == 0x8_0000_0000_0000 && Pow2(55) == 0x80_0000_0000_0000
    ensures Pow2(56) == 0x100_0000_0000_0000 && Pow2(58) == 0x400_0000_0000_0000
    ensures Pow2(60) == 0x1000_0000_0000_0000 && Pow2(63) == 0x8000_0000_0000_0000
  {
    SmallPowers();
    Pow2Add(8, 36);
    assert Pow2(44) == 2 * Pow2(43);
    Pow2Add(8, 43);
    Pow2Add(4, 51);
    assert Pow2(56) == 2 * Pow2(55);
    Pow2Add(2, 56);
    Pow2Add(2, 58);
    Pow2Add(3, 60);
  }

  lemma {:induction false} Pow2Add(m: nat, n: nat)
    ensures Pow2(m + n) == Pow2(m) * Pow2(n)
  {
    if m > 0 {
      Pow2Add(m - 1, n);
      assert Pow2(m + n) == 2 * Pow2(m - 1 + n);
      TwiceProduct(Pow2(m - 1), Pow2(n));
    }
  }

  lemma TwiceProduct(a: int, b: int)
    ensures 2 * (a * b) == (2 * a) * b
  {
  }

  lemma {:induction false} BitAnd(x: nat, y: nat, i: nat)
    ensures Bit(And(x, y), i) <==> Bit(x, i) && Bit(y, i)
  {
    if x == 0 || y == 0 {
      BitZero(i);
    } else {
      var a, b := x % 2, y % 2;
      assert a * b == (if a == 1 && b == 1 then 1 else 0);
      assert And(x, y) / 2 == And(x / 2, y / 2) && And(x, y) % 2 == a * b;
      if i > 0 {
        BitAnd(x / 2, y / 2, i - 1);
      }
    }
  }

  lemma {:induction false} BitOr(x: nat, y: nat, i: nat)
    ensures Bit(Or(x, y), i) <==> Bit(x, i) || Bit(y, i)
  {
    if x == 0 || y == 0 {
      BitZero(i);
    } else {
      var b, o := if x % 2 == 1 || y % 2 == 1 then 1 else 0, Or(x / 2, y / 2);
      assert Or(x, y) == b + 2 * o;
      assert (b + 2 * o) / 2 == o && (b + 2 * o) % 2 == b;
      if i > 0 {
        BitOr(x / 2, y / 2, i - 1);
      }
    }
  }

  lemma {:induction false} BitZero(i: nat)
    ensures !Bit(0, i)
  {
    if i > 0 {
      BitZero(i - 1);
    }
  }

  /** The bits of a number put together from a high part and k low bits. */
  lemma {:induction false} BitJoin(hi: nat, k: nat, lo: nat, i: nat)
    requires lo < Pow2(k)
    ensures Bit(hi * Pow2(k) + lo, i) <==> if i < k then Bit(lo, i) else Bit(hi, i - k)
  {
    if k > 0 {
      var p := Pow2(k - 1);
      var x := hi * Pow2(k) + lo;
      assert hi * Pow2(k) == 2 * (hi * p);
      assert x / 2 == hi * p + lo / 2 && x % 2 == lo % 2;
      if i > 0 {
        BitJoin(hi, k - 1, lo / 2, i - 1);
      }
    }
  }

  lemma {:induction false} BitShr(x: nat, k: nat, i: nat)
    ensures Bit(Shr(x, k), i) <==> Bit(x, i + k)
  {
    if k > 0 {
      BitShr(x / 2, k - 1, i);
    }
  }

  /** Shifting right is dividing by a power of two. */
  lemma {:induction false} ShrIsDiv(x: nat, k: nat)
    ensures Shr(x, k) == x / Pow2(k)
  {
    if k > 0 {
      ShrIsDiv(x / 2, k - 1);
      HalfDiv(x, Pow2(k - 1));
    }
  }

  lemma HalfDiv(x: nat, p: nat)
    requires p > 0
    ensures (x / 2) / p == x / (2 * p)
  {
    var q := (x / 2) / p;
    var r := (x / 2) % p;
    assert x / 2 == q * p + r;
    var s := 2 * r + x % 2;
    assert x == q * (2 * p) + s by { assert q * (2 * p) == 2 * (q * p); }
    assert 0 <= s < 2 * p;
    DivUnique(x, 2 * p, q, s);
  }

  lemma MulStep(a: int, b: int, d: int)
    requires a < b && d > 0
    ensures a * d + d <= b * d
  {
    assert (b - a - 1) * d >= 0;
    assert b * d == a * d + d + (b - a - 1) * d;
  }

  lemma QuotientUnique(q: int, r: int, q': int, r': int, d: int)
    requires d > 0 && 0 <= r < d && 0 <= r' < d && q * d + r == q' * d + r'
    ensures q == q'
  {
    if q < q' {
      MulStep(q, q', d);
    } else if q' < q {
      MulStep(q', q, d);
    }
  }

  lemma DivUnique(x: nat, d: nat, q: nat, r: nat)
    requires d > 0 && x == q * d + r && r < d
    ensures x / d == q
  {
    var q', r' := x / d, x % d;
    assert x == q' * d + r';
    QuotientUnique(q, r, q', r', d);
  }

  lemma DivMod(x: nat, p: nat)
    requires p > 0
    ensures x / p >= 0 && x == (x / p) * p + x % p
  {
  }

  lemma BitMod(x: nat, k: nat, i: nat)
    ensures Bit(x % Pow2(k), i) <==> i < k && Bit(x, i)
  {
    DivMod(x, Pow2(k));
    BitJoin(x / Pow2(k), k, x % Pow2(k), i);
    BitJoin(0, k, x % Pow2(k), i);
    if i >= k {
      BitZero(i - k);
    }
  }

  lemma BitShl(x: nat, k: nat, i: nat)
    ensures Bit(Shl(x, k), i) <==> k <= i < 64 && Bit(x, i - k)
  {
    Pow2Word();
    BitMod(x * Pow2(k), 64, i);
    BitJoin(x, k, 0, i);
    BitZero(i);
  }

  lemma {:induction false} BitComplement(x: nat, n: nat, i: nat)
    requires x < Pow2(n)
    ensures Bit(Pow2(n) - 1 - x, i) <==> i < n && !Bit(x, i)
  {
    if n == 0 {
      BitZero(i);
    } else {
      var y := Pow2(n) - 1 - x;
      assert y / 2 == Pow2(n - 1) - 1 - x / 2 && (y % 2 == 1 <==> x % 2 == 0);
      if i > 0 {
        BitComplement(x / 2, n - 1, i - 1);
      }
    }
  }

  lemma BitNot(x: u64, i: nat)
    ensures Bit(Not(x), i) <==> i < 64 && !Bit(x, i)
  {
    Pow2Word();
    BitComplement(x, 64, i);
  }

  /** Words are equal when their bits are. */
  lemma {:induction false} SameBits(x: nat, y: nat, n: nat)
    requires x < Pow2(n) && y < Pow2(n)
    requires forall i :: 0 <= i < n ==> Bit(x, i) == Bit(y, i)
    ensures x == y
  {
    if n > 0 {
      assert Bit(x, 0) == Bit(y, 0);
      forall i | 0 <= i < n - 1 ensures Bit(x / 2, i) == Bit(y / 2, i) {
        assert Bit(x, i + 1) == Bit(y, i + 1);
      }
      SameBits(x / 2, y / 2, n - 1);
    }
  }

  lemma {:induction false} HighBits(x: nat, n: nat)
    requires forall i :: i >= n ==> !Bit(x, i)
    ensures x < Pow2(n)
    decreases x
  {
    if x > 0 {
      if n == 0 {
        TopBit(x);
      } else {
        forall i | i >= n - 1 ensures !Bit(x / 2, i) {
          assert !Bit(x, i + 1);
        }
        HighBits(x / 2, n - 1);
      }
    }
  }

  lemma {:induction false} TopBit(x: nat)
    requires x > 0
    ensures exists i :: i >= 0 && Bit(x, i)
  {
    if x % 2 == 1 {
      assert Bit(x, 0);
    } else {
      TopBit(x / 2);
      var i :| i >= 0 && Bit(x / 2, i);
      assert Bit(x, i + 1);
    }
  }
}
