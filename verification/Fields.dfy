/** The getter and setter that the bitfield macros generate, and their laws for every field. */
module Fields {
  import opened Bits

  datatype Field = Field(offset: nat, size: nat) {
    /** The shifts of the macros are defined: each is by fewer than 64 bits, and the field fits the word. */
    predicate Valid() {
      0 < size < 64 && offset + size <= 64
    }

    predicate Covers(i: nat) {
      offset <= i < offset + size
    }
  }

  predicate Disjoint(f: Field, g: Field) {
    f.offset + f.size <= g.offset || g.offset + g.size <= f.offset
  }

  lemma OrBound(x: u64, y: u64)
    ensures Or(x, y) < WORD
  {
    Pow2Word();
    forall i | i >= 64 ensures !Bit(Or(x, y), i) {
      BitOr(x, y, i);
      NoHighBit(x, i);
      NoHighBit(y, i);
    }
    HighBits(Or(x, y), 64);
  }

  lemma NoHighBit(x: u64, i: nat)
    requires i >= 64
    ensures !Bit(x, i)
  {
    Pow2Word();
    BitJoin(0, 64, x, i);
    BitZero(i - 64);
  }

  lemma AndBound(x: u64, y: u64)
    ensures And(x, y) < WORD
  {
    Pow2Word();
    forall i | i >= 64 ensures !Bit(And(x, y), i) {
      BitAnd(x, y, i);
      NoHighBit(x, i);
    }
    HighBits(And(x, y), 64);
  }

  function And64(x: u64, y: u64): u64 {
    AndBound(x, y);
    And(x, y)
  }

  function Or64(x: u64, y: u64): u64 {
    OrBound(x, y);
    Or(x, y)
  }

  function Shr64(x: u64, k: nat): u64 {
    ShrBound(x, k);
    Shr(x, k)
  }

  lemma {:induction false} ShrBound(x: u64, k: nat)
    ensures Shr(x, k) < WORD
  {
    if k > 0 {
      ShrBound(x / 2, k - 1);
    }
  }

  // ---------------------------------------------------------------- the macros

  /** `~(~0ULL << size)`. */
  function Mask(size: nat): u64 {
    Not(Shl(Not(0), size))
  }

  function Get(w: u64, f: Field): u64 {
    And64(Shr64(w, f.offset), Mask(f.size))
  }

  function Cleared(w: u64, f: Field): u64 {
    And64(w, Not(Shl(Mask(f.size), f.offset)))
  }

  function Set(w: u64, f: Field, v: u64): u64 {
    Or64(Cleared(w, f), Shl(And64(v, Mask(f.size)), f.offset))
  }

  // ---------------------------------------------------------------- bit by bit

  lemma MaskBits(size: nat, i: nat)
    requires size <= 64
    ensures Bit(Mask(size), i) <==> i < size
  {
    BitNot(Shl(Not(0), size), i);
    BitShl(Not(0), size, i);
    if i >= size {
      BitNot(0, i - size);
      BitZero(i - size);
    }
  }

  lemma GetBits(w: u64, f: Field, i: nat)
    requires f.Valid()
    ensures Bit(Get(w, f), i) <==> i < f.size && Bit(w, f.offset + i)
  {
    BitAnd(Shr(w, f.offset), Mask(f.size), i);
    BitShr(w, f.offset, i);
    MaskBits(f.size, i);
  }

  lemma SetBits(w: u64, f: Field, v: u64, i: nat)
    requires f.Valid() && i < 64
    ensures Bit(Set(w, f, v), i) <==> if f.Covers(i) then Bit(v, i - f.offset) else Bit(w, i)
  {
    var m := Mask(f.size);
    BitOr(Cleared(w, f), Shl(And64(v, m), f.offset), i);
    BitAnd(w, Not(Shl(m, f.offset)), i);
    BitNot(Shl(m, f.offset), i);
    BitShl(m, f.offset, i);
    BitShl(And64(v, m), f.offset, i);
    if i >= f.offset {
      BitAnd(v, m, i - f.offset);
      MaskBits(f.size, i - f.offset);
    }
  }

  lemma SameWord(x: u64, y: u64)
    requires forall i :: 0 <= i < 64 ==> Bit(x, i) == Bit(y, i)
    ensures x == y
  {
    Pow2Word();
    SameBits(x, y, 64);
  }

  // ---------------------------------------------------------------- the laws

  /** Reading a field just written gives the value, cut to the field's size. */
  lemma GetAfterSet(w: u64, f: Field, v: u64)
    requires f.Valid()
    ensures Get(Set(w, f, v), f) == v % Pow2(f.size)
  {
    GetIsMod(v, f.size);
    forall i | 0 <= i < 64 ensures Bit(Get(Set(w, f, v), f), i) == Bit(And64(v, Mask(f.size)), i) {
      GetBits(Set(w, f, v), f, i);
      BitAnd(v, Mask(f.size), i);
      MaskBits(f.size, i);
      if i < f.size {
        SetBits(w, f, v, f.offset + i);
      }
    }
    SameWord(Get(Set(w, f, v), f), And64(v, Mask(f.size)));
  }

  /** Writing a field leaves every disjoint field alone. */
  lemma SetFrame(w: u64, f: Field, v: u64, g: Field)
    requires f.Valid() && g.Valid() && Disjoint(f, g)
    ensures Get(Set(w, f, v), g) == Get(w, g)
  {
    forall i | 0 <= i < 64 ensures Bit(Get(Set(w, f, v), g), i) == Bit(Get(w, g), i) {
      GetBits(Set(w, f, v), g, i);
      GetBits(w, g, i);
      if i < g.size {
        SetBits(w, f, v, g.offset + i);
      }
    }
    SameWord(Get(Set(w, f, v), g), Get(w, g));
  }

  /** Writes to disjoint fields commute. */
  lemma SetsCommute(w: u64, f: Field, v: u64, g: Field, u: u64)
    requires f.Valid() && g.Valid() && Disjoint(f, g)
    ensures Set(Set(w, f, v), g, u) == Set(Set(w, g, u), f, v)
  {
    var a, b := Set(Set(w, f, v), g, u), Set(Set(w, g, u), f, v);
    forall i | 0 <= i < 64 ensures Bit(a, i) == Bit(b, i) {
      SetBits(Set(w, f, v), g, u, i);
      SetBits(w, f, v, i);
      SetBits(Set(w, g, u), f, v, i);
      SetBits(w, g, u, i);
    }
    SameWord(a, b);
  }

  /** Writing back what is there changes nothing; of two writes to a field the last one counts. */
  lemma SetIdentities(w: u64, f: Field, v: u64, u: u64)
    requires f.Valid()
    ensures Set(w, f, Get(w, f)) == w
    ensures Set(Set(w, f, v), f, u) == Set(w, f, u)
  {
    var a, b := Set(w, f, Get(w, f)), Set(Set(w, f, v), f, u);
    forall i | 0 <= i < 64 ensures Bit(a, i) == Bit(w, i) && Bit(b, i) == Bit(Set(w, f, u), i) {
      SetBits(w, f, Get(w, f), i);
      SetBits(Set(w, f, v), f, u, i);
      SetBits(w, f, v, i);
      SetBits(w, f, u, i);
      if f.Covers(i) {
        GetBits(w, f, i - f.offset);
      }
    }
    SameWord(a, w);
    SameWord(b, Set(w, f, u));
  }

  // ---------------------------------------------------------------- the arithmetic form

  lemma GetIsMod(x: u64, size: nat)
    requires size < 64
    ensures And64(x, Mask(size)) == x % Pow2(size)
  {
    Pow2Word();
    ModBound(x, Pow2(size));
    forall i | 0 <= i < 64 ensures Bit(And64(x, Mask(size)), i) == Bit(x % Pow2(size), i) {
      BitAnd(x, Mask(size), i);
      MaskBits(size, i);
      BitMod(x, size, i);
    }
    SameWord(And64(x, Mask(size)), x % Pow2(size));
  }

  lemma ModBound(x: nat, p: nat)
    requires p > 0
    ensures 0 <= x % p <= x
  {
    var q := x / p;
    assert x == q * p + x % p;
    assert q * p >= 0;
  }

  /** Shift and mask is division and remainder. */
  lemma GetIsDivMod(w: u64, f: Field)
    requires f.Valid()
    ensures Get(w, f) == (w / Pow2(f.offset)) % Pow2(f.size)
  {
    ShrIsDiv(w, f.offset);
    GetIsMod(Shr64(w, f.offset), f.size);
  }

  /** A word put together from the bits above a field, the field, and the bits below. */
  function Assemble(hi: int, mid: int, lo: int, f: Field): int {
    (hi * Pow2(f.size) + mid) * Pow2(f.offset) + lo
  }

  lemma AssembleIsNat(hi: nat, mid: nat, lo: nat, f: Field)
    ensures Assemble(hi, mid, lo, f) >= 0
  {
    assert hi * Pow2(f.size) >= 0;
    assert (hi * Pow2(f.size) + mid) * Pow2(f.offset) >= 0;
  }

  lemma AssembleBits(hi: nat, mid: nat, lo: nat, f: Field, i: nat)
    requires mid < Pow2(f.size) && lo < Pow2(f.offset)
    ensures Assemble(hi, mid, lo, f) >= 0
    ensures Bit(Assemble(hi, mid, lo, f), i)
            <==> if i < f.offset then Bit(lo, i)
                 else if f.Covers(i) then Bit(mid, i - f.offset)
                 else Bit(hi, i - f.offset - f.size)
  {
    AssembleIsNat(hi, mid, lo, f);
    BitJoin(hi * Pow2(f.size) + mid, f.offset, lo, i);
    if i >= f.offset {
      BitJoin(hi, f.size, mid, i - f.offset);
    }
  }

  lemma AssembledSetBits(w: u64, f: Field, v: u64, i: nat)
    requires f.Valid()
    ensures var x := Assemble(Shr(w, f.offset + f.size), v % Pow2(f.size), w % Pow2(f.offset), f);
            x >= 0 && (Bit(x, i) <==> i < 64 && Bit(Set(w, f, v), i))
  {
    AssembleBits(Shr(w, f.offset + f.size), v % Pow2(f.size), w % Pow2(f.offset), f, i);
    BitMod(w, f.offset, i);
    if i >= f.offset {
      BitMod(v, f.size, i - f.offset);
    }
    if i >= f.offset + f.size {
      BitShr(w, f.offset + f.size, i - f.offset - f.size);
    }
    if i < 64 {
      SetBits(w, f, v, i);
    } else {
      NoHighBit(w, i);
    }
  }

  /** The value of a word with a field replaced: the bits above and below stay, the field's become v. */
  lemma SetIsArithmetic(w: u64, f: Field, v: u64)
    requires f.Valid()
    ensures Set(w, f, v) == Assemble(w / Pow2(f.offset + f.size), v % Pow2(f.size), w % Pow2(f.offset), f)
  {
    ShrIsDiv(w, f.offset + f.size);
    var x := Assemble(Shr(w, f.offset + f.size), v % Pow2(f.size), w % Pow2(f.offset), f);
    AssembleIsNat(Shr(w, f.offset + f.size), v % Pow2(f.size), w % Pow2(f.offset), f);
    forall i: nat ensures Bit(x, i) <==> i < 64 && Bit(Set(w, f, v), i) {
      AssembledSetBits(w, f, v, i);
    }
    Pow2Word();
    HighBits(x, 64);
    SameWord(x, Set(w, f, v));
  }
}
