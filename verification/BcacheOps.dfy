/** Building keys and pointers, and the operations that write key words in place. */
module BcacheOps {
  import opened Strings
  import opened Bits
  import opened Fields
  import opened Bcache

  // ---------------------------------------------------------------- construction

  /** `KEY(inode, offset, size)`. */
  function MakeKey(inode: u64, offset: u64, size: u64): Bkey {
    Bkey(Or64(Or64(Shl(1, 63), Shl(size, 20)), inode), offset, [])
  }

  /** `KEY_START(k)`, in 64-bit arithmetic. */
  function KeyStart(k: Bkey): u64 {
    (k.low - Get(k.high, KEY_SIZE)) % WORD
  }

  /** `START_KEY(k)`. */
  function StartKey(k: Bkey): Bkey {
    MakeKey(Get(k.high, KEY_INODE), KeyStart(k), 0)
  }

  /** `MAKE_PTR(gen, offset, dev)`. */
  function MakePtr(gen: u64, offset: u64, dev: u64): u64 {
    Or64(Or64(Shl(dev, 51), Shl(offset, 8)), gen)
  }

  lemma NoBitFrom(x: nat, n: nat, i: nat)
    requires x < Pow2(n) && i >= n
    ensures !Bit(x, i)
  {
    BitJoin(0, n, x, i);
    BitZero(i - n);
  }

  lemma Or3Bits(a: u64, j: nat, b: u64, k: nat, c: u64, i: nat)
    requires i < 64
    ensures Bit(Or64(Or64(Shl(a, j), Shl(b, k)), c), i)
            <==> (i >= j && Bit(a, i - j)) || (i >= k && Bit(b, i - k)) || Bit(c, i)
  {
    BitOr(Or64(Shl(a, j), Shl(b, k)), c, i);
    BitOr(Shl(a, j), Shl(b, k), i);
    BitShl(a, j, i);
    BitShl(b, k, i);
  }

  /** A field whose bits are those of a number that fits it holds that number. */
  lemma FieldHolds(w: u64, f: Field, v: u64)
    requires f.Valid() && v < Pow2(f.size)
    requires forall i :: 0 <= i < f.size ==> Bit(w, f.offset + i) == Bit(v, i)
    ensures Get(w, f) == v
  {
    forall i | 0 <= i < 64 ensures Bit(Get(w, f), i) == Bit(v, i) {
      GetBits(w, f, i);
      if i >= f.size {
        NoBitFrom(v, f.size, i);
      }
    }
    SameWord(Get(w, f), v);
  }

  /** Three values in three disjoint fields, shifted into place and or-ed together. */
  function Pack3(a: u64, f: Field, b: u64, g: Field, c: u64): u64 {
    Or64(Or64(Shl(a, f.offset), Shl(b, g.offset)), c)
  }

  ghost predicate Packs(a: u64, f: Field, b: u64, g: Field, c: u64, h: Field) {
    && f.Valid() && g.Valid() && h.Valid() && h.offset == 0
    && Disjoint(f, g) && Disjoint(f, h) && Disjoint(g, h)
    && a < Pow2(f.size) && b < Pow2(g.size) && c < Pow2(h.size)
  }

  /** Outside their own fields, the shifted values have no bits. */
  lemma Pack3Bit(a: u64, f: Field, b: u64, g: Field, c: u64, h: Field, i: nat)
    requires Packs(a, f, b, g, c, h) && i < 64
    ensures Bit(Pack3(a, f, b, g, c), i)
            <==> if f.Covers(i) then Bit(a, i - f.offset)
                 else if g.Covers(i) then Bit(b, i - g.offset)
                 else h.Covers(i) && Bit(c, i)
  {
    Or3Bits(a, f.offset, b, g.offset, c, i);
    if i >= f.offset + f.size {
      NoBitFrom(a, f.size, i - f.offset);
    }
    if i >= g.offset + g.size {
      NoBitFrom(b, g.size, i - g.offset);
    }
    if i >= h.size {
      NoBitFrom(c, h.size, i);
    }
  }

  /** Each packed field holds its value, and every field disjoint from the three holds zero. */
  lemma Pack3Fields(a: u64, f: Field, b: u64, g: Field, c: u64, h: Field)
    requires Packs(a, f, b, g, c, h)
    ensures var w := Pack3(a, f, b, g, c);
            Get(w, f) == a && Get(w, g) == b && Get(w, h) == c
  {
    var w := Pack3(a, f, b, g, c);
    forall i | 0 <= i < f.size ensures Bit(w, f.offset + i) == Bit(a, i) {
      Pack3Bit(a, f, b, g, c, h, f.offset + i);
    }
    FieldHolds(w, f, a);
    forall i | 0 <= i < g.size ensures Bit(w, g.offset + i) == Bit(b, i) {
      Pack3Bit(a, f, b, g, c, h, g.offset + i);
    }
    FieldHolds(w, g, b);
    forall i | 0 <= i < h.size ensures Bit(w, h.offset + i) == Bit(c, i) {
      Pack3Bit(a, f, b, g, c, h, h.offset + i);
    }
    FieldHolds(w, h, c);
  }

  lemma Pack3Elsewhere(a: u64, f: Field, b: u64, g: Field, c: u64, h: Field, other: Field)
    requires Packs(a, f, b, g, c, h) && other.Valid()
    requires Disjoint(other, f) && Disjoint(other, g) && Disjoint(other, h)
    ensures Get(Pack3(a, f, b, g, c), other) == 0
  {
    var w := Pack3(a, f, b, g, c);
    forall i | 0 <= i < other.size ensures Bit(w, other.offset + i) == Bit(0, i) {
      Pack3Bit(a, f, b, g, c, h, other.offset + i);
      BitZero(i);
    }
    FieldHolds(w, other, 0);
  }

  // ---------------------------------------------------------------- keys and pointers

  /** The bit a constructed key always has set; no field reads it. */
  const RELIC := Field(63, 1)

  ghost predicate KeyHolds(k: Bkey, inode: u64, offset: u64, size: u64) {
    Get(k.high, KEY_INODE) == inode && Get(k.high, KEY_SIZE) == size && k.low == offset
  }

  /** A constructed key decodes to its arguments exactly when they fit their fields. */
  lemma MakeKeyIff(inode: u64, offset: u64, size: u64)
    ensures KeyHolds(MakeKey(inode, offset, size), inode, offset, size)
            <==> inode < Pow2(KEY_INODE.size) && size < Pow2(KEY_SIZE.size)
  {
    var k := MakeKey(inode, offset, size);
    GetAtMost(k.high, KEY_INODE);
    GetAtMost(k.high, KEY_SIZE);
    if inode < Pow2(KEY_INODE.size) && size < Pow2(KEY_SIZE.size) {
      Pack3Fields(1, RELIC, size, KEY_SIZE, inode, KEY_INODE);
    }
  }

  /** A key constructed from fitting arguments has no pointers and no flags: it is two words long. */
  lemma MakeKeyIsBare(inode: u64, offset: u64, size: u64)
    requires inode < Pow2(KEY_INODE.size) && size < Pow2(KEY_SIZE.size)
    ensures var k := MakeKey(inode, offset, size);
            && Complete(k) && KeyWords(k.high) == 2
            && Get(k.high, HEADER_SIZE) == 0 && Get(k.high, KEY_CSUM) == 0
            && Get(k.high, KEY_PINNED) == 0 && Get(k.high, KEY_DIRTY) == 0
  {
    Pack3Elsewhere(1, RELIC, size, KEY_SIZE, inode, KEY_INODE, KEY_PTRS);
    Pack3Elsewhere(1, RELIC, size, KEY_SIZE, inode, KEY_INODE, HEADER_SIZE);
    Pack3Elsewhere(1, RELIC, size, KEY_SIZE, inode, KEY_INODE, KEY_CSUM);
    Pack3Elsewhere(1, RELIC, size, KEY_SIZE, inode, KEY_INODE, KEY_PINNED);
    Pack3Elsewhere(1, RELIC, size, KEY_SIZE, inode, KEY_INODE, KEY_DIRTY);
  }

  lemma WrapIff(low: u64, size: u64)
    ensures (low - size) % WORD + size == low <==> low >= size
  {
    var d := low - size;
    assert d >= 0 ==> d % WORD == d;
    assert d < 0 ==> d % WORD == d + WORD;
  }

  /** The start key has the key's inode and no size. */
  lemma StartKeyFields(k: Bkey)
    ensures Get(StartKey(k).high, KEY_INODE) == Get(k.high, KEY_INODE) && Get(StartKey(k).high, KEY_SIZE) == 0
  {
    GetAtMost(k.high, KEY_INODE);
    MakeKeyIff(Get(k.high, KEY_INODE), KeyStart(k), 0);
  }

  /** It lies the key's size before the key's offset exactly when the key does not reach below zero. */
  lemma StartKeyIff(k: Bkey)
    ensures StartKey(k).low + Get(k.high, KEY_SIZE) == k.low <==> k.low >= Get(k.high, KEY_SIZE)
  {
    WrapIff(k.low, Get(k.high, KEY_SIZE));
  }

  /** A constructed pointer decodes to its arguments exactly when they fit their fields. */
  lemma MakePtrIff(gen: u64, offset: u64, dev: u64)
    ensures var p := MakePtr(gen, offset, dev);
            (Get(p, PTR_GEN) == gen && Get(p, PTR_OFFSET) == offset && Get(p, PTR_DEV) == dev)
            <==> gen < Pow2(PTR_GEN.size) && offset < Pow2(PTR_OFFSET.size) && dev < Pow2(PTR_DEV.size)
  {
    var p := MakePtr(gen, offset, dev);
    GetAtMost(p, PTR_GEN);
    GetAtMost(p, PTR_OFFSET);
    GetAtMost(p, PTR_DEV);
    if gen < Pow2(PTR_GEN.size) && offset < Pow2(PTR_OFFSET.size) && dev < Pow2(PTR_DEV.size) {
      Pack3Fields(dev, PTR_DEV, offset, PTR_OFFSET, gen, PTR_GEN);
    }
  }

  // ---------------------------------------------------------------- the values of constructed words

  /** Or-ing a number into the bits below a shifted one is adding it. */
  lemma OrIsSum(hi: nat, k: nat, lo: nat)
    requires k <= 64 && lo < Pow2(k) && hi * Pow2(k) + lo < WORD
    ensures hi * Pow2(k) >= 0 && Or(hi * Pow2(k), lo) == hi * Pow2(k) + lo
  {
    ProductNonNegative(hi, Pow2(k));
    var x, y := Or(hi * Pow2(k), lo), hi * Pow2(k) + lo;
    forall i: nat ensures Bit(x, i) == Bit(y, i) {
      BitOr(hi * Pow2(k), lo, i);
      BitJoin(hi, k, 0, i);
      BitJoin(hi, k, lo, i);
      BitZero(i);
      if i >= k {
        NoBitFrom(lo, k, i);
      }
    }
    OrBound(hi * Pow2(k), lo);
    SameWord(x, y);
  }

  lemma ProductNonNegative(a: nat, b: nat)
    ensures a * b >= 0
  {
  }

  lemma ShlIsProduct(x: nat, k: nat, p: nat)
    requires Pow2(k) == p && x * p < WORD
    ensures x * p >= 0 && Shl(x, k) == x * p
  {
    ProductNonNegative(x, p);
  }

  /** A constructed key as a number: the relic bit, the size from bit 20 on, and the inode. */
  lemma MakeKeyValue(inode: u64, offset: u64, size: u64)
    requires inode < 0x10_0000 && size < 0x1_0000
    ensures MakeKey(inode, offset, size) == Bkey(0x8000_0000_0000_0000 + size * 0x10_0000 + inode, offset, [])
  {
    SmallPowers();
    LargePowers();
    ShlIsProduct(1, 63, 0x8000_0000_0000_0000);
    ShlIsProduct(size, 20, 0x10_0000);
    OrIsSum(1, 63, size * 0x10_0000);
    var hi := 0x800_0000_0000 + size;
    assert hi * 0x10_0000 == 0x8000_0000_0000_0000 + size * 0x10_0000;
    OrIsSum(hi, 20, inode);
  }

  /** A constructed pointer as a number: the device from bit 51 on, the offset from bit 8 on, the generation. */
  lemma MakePtrValue(gen: u64, offset: u64, dev: u64)
    requires gen < 0x100 && offset < 0x800_0000_0000 && dev < 0x1000
    ensures MakePtr(gen, offset, dev) == dev * 0x8_0000_0000_0000 + offset * 0x100 + gen
  {
    SmallPowers();
    LargePowers();
    ShlIsProduct(dev, 51, 0x8_0000_0000_0000);
    ShlIsProduct(offset, 8, 0x100);
    OrIsSum(dev, 51, offset * 0x100);
    var hi := dev * 0x800_0000_0000 + offset;
    assert hi * 0x100 == dev * 0x8_0000_0000_0000 + offset * 0x100;
    OrIsSum(hi, 8, gen);
  }

  // ---------------------------------------------------------------- writing in place

  /** A `SET_` macro on word i of memory. */
  method SetField(d: array<u64>, i: nat, f: Field, v: u64)
    requires i < d.Length && f.Valid()
    modifies d
    ensures d[..] == old(d[..])[i := Set(old(d[i]), f, v)]
  {
    d[i] := And64(d[i], Not(Shl(Mask(f.size), f.offset)));
    d[i] := Or64(d[i], Shl(And64(v, Mask(f.size)), f.offset));
  }

  /** Writing one key's inode into another key's first word. */
  lemma InodeWritten(was: u64, from: u64)
    ensures var w := Set(was, KEY_INODE, Get(from, KEY_INODE));
            && Get(w, KEY_INODE) == Get(from, KEY_INODE)
            && forall f :: f in KEY_FIELDS && f != KEY_INODE ==> Get(w, f) == Get(was, f)
  {
    var inode := Get(from, KEY_INODE);
    GetAtMost(from, KEY_INODE);
    GetAfterSet(was, KEY_INODE, inode);
    SmallMod(inode, Pow2(KEY_INODE.size));
    LayoutsAreDisjoint();
    forall f | f in KEY_FIELDS && f != KEY_INODE ensures Get(Set(was, KEY_INODE, inode), f) == Get(was, f) {
      var j :| 0 <= j < |KEY_FIELDS| && KEY_FIELDS[j] == f;
      assert KEY_FIELDS[6] == KEY_INODE && j != 6;
      SetFrame(was, KEY_INODE, inode, f);
    }
  }

  lemma SmallMod(x: nat, p: nat)
    requires x < p
    ensures x % p == x
  {
  }

  /** `bkey_copy_key`: of the destination's words only the inode field and the offset change. The offset is
      the source's, except when the source's second word is the destination's first: that one has been
      written before it is read. */
  method CopyKey(dest: array<u64>, d: nat, src: array<u64>, s: nat)
    requires d + 2 <= dest.Length && s + 2 <= src.Length
    modifies dest
    ensures var first := Set(old(dest[d]), KEY_INODE, Get(old(src[s]), KEY_INODE));
            dest[..] == old(dest[..])[d := first][d + 1 := if dest == src && s + 1 == d then first else old(src[s + 1])]
    ensures Get(dest[d], KEY_INODE) == Get(old(src[s]), KEY_INODE)
    ensures forall f :: f in KEY_FIELDS && f != KEY_INODE ==> Get(dest[d], f) == Get(old(dest[d]), f)
  {
    InodeWritten(dest[d], src[s]);
    SetField(dest, d, KEY_INODE, Get(src[s], KEY_INODE));
    assert dest[d] == dest[..][d];
    assert dest == src ==> dest[s + 1] == dest[..][s + 1];
    dest[d + 1] := src[s + 1];
  }

  /** `bkey_copy`: the words of the source key, as many as its header says, and no others. The two regions
      may lie in one array but not overlap, as memcpy demands. */
  method CopyWhole(dest: array<u64>, d: nat, src: array<u64>, s: nat)
    requires s < src.Length && s + KeyWords(src[s]) <= src.Length && d + KeyWords(src[s]) <= dest.Length
    requires dest != src || d + KeyWords(src[s]) <= s || s + KeyWords(src[s]) <= d
    modifies dest
    ensures var n := old(KeyWords(src[s]));
            && dest[d..d + n] == old(src[s..s + KeyWords(src[s])])
            && dest[..d] == old(dest[..d]) && dest[d + n..] == old(dest[d + KeyWords(src[s])..])
  {
    var n := KeyWords(src[s]);
    ghost var key := src[s..s + n];
    for i := 0 to n
      invariant dest[..d] == old(dest[..d]) && dest[d + n..] == old(dest[d + n..])
      invariant src[s..s + n] == key
      invariant dest[d..d + i] == key[..i]
    {
      assert src[s + i] == src[s..s + n][i];
      dest[d + i] := src[s + i];
    }
  }

  /** A copied key decodes to the source key; it fits the padded key exactly when it has at most six
      pointers. */
  lemma PaddedFits(words: seq<u64>)
    requires words != [] && |words| >= KeyWords(words[0])
    ensures KeyWords(words[0]) <= BKEY_PAD <==> Ptrs(words[0]) <= 6
    ensures Complete(KeyAt(words, 0)) && Encode(KeyAt(words, 0)) == words[..KeyWords(words[0])]
  {
  }

  // ---------------------------------------------------------------- updating a log in place

  /** A word of a log can be replaced without moving any key, provided that the first word of a key keeps
      its number of pointers. */
  lemma {:induction false} UpdateKeepsStarts(words: seq<u64>, k: nat, j: nat, w: u64)
    requires j < |words| && Visit(words, k).Some?
    requires j in Visit(words, k).value ==> Ptrs(w) == Ptrs(words[j])
    ensures Visit(words[j := w], k) == Visit(words, k)
    decreases |words| - k
  {
    if k < |words| {
      var n := Next(words, k);
      assert Visit(words, k).value == [k] + Visit(words, n).value;
      UpdateKeepsStarts(words, n, j, w);
      assert k in Visit(words, k).value;
      assert Next(words[j := w], k) == n;
    }
  }

  /** So writing any field of a key or of a pointer, except the number of pointers, keeps every key of the
      log where it is. */
  lemma FieldWriteKeepsLog(words: seq<u64>, j: nat, f: Field, v: u64)
    requires j < |words| && Visit(words, 0).Some?
    requires (f in KEY_FIELDS && f != KEY_PTRS) || (f in PTR_FIELDS && j !in Visit(words, 0).value)
    ensures Visit(words[j := Set(words[j], f, v)], 0) == Visit(words, 0)
  {
    if f in KEY_FIELDS && f != KEY_PTRS {
      OtherFieldKeepsPtrs(words[j], f, v);
    }
    UpdateKeepsStarts(words, 0, j, Set(words[j], f, v));
  }

  // ---------------------------------------------------------------- what an updated log holds

  /** Word o of a key: the first word, the second, or a pointer. */
  function Peek(k: Bkey, o: nat): u64
    requires o < |Encode(k)|
  {
    Encode(k)[o]
  }

  /** The key with that word replaced. */
  function Poke(k: Bkey, o: nat, w: u64): Bkey
    requires o < |Encode(k)|
  {
    if o == 0 then k.(high := w) else if o == 1 then k.(low := w) else k.(ptr := k.ptr[o - 2 := w])
  }

  function StartOf(keys: seq<Bkey>, i: nat): nat
    requires i < |keys|
  {
    if i == 0 then 0 else |Encode(keys[0])| + StartOf(keys[1..], i - 1)
  }

  lemma {:induction false} StartsAt(keys: seq<Bkey>, from: nat, i: nat)
    requires i < |keys|
    ensures |Starts(keys, from)| == |keys| && Starts(keys, from)[i] == from + StartOf(keys, i)
  {
    var rest := keys[1..];
    if i > 0 {
      StartsAt(rest, from + |Encode(keys[0])|, i - 1);
    } else if rest != [] {
      StartsAt(rest, from + |Encode(keys[0])|, 0);
    }
  }

  lemma PokeOne(k: Bkey, o: nat, w: u64)
    requires o < |Encode(k)|
    ensures Encode(Poke(k, o, w)) == Encode(k)[o := w]
  {
  }

  lemma UpdateLeft(a: seq<u64>, b: seq<u64>, o: nat, w: u64)
    requires o < |a|
    ensures (a + b)[o := w] == a[o := w] + b
  {
  }

  lemma UpdateRight(a: seq<u64>, b: seq<u64>, o: nat, w: u64)
    requires o < |b|
    ensures (a + b)[|a| + o := w] == a + b[o := w]
  {
  }

  /** Replacing a word of the log replaces that word of that key. */
  lemma {:induction false} PokeEncodes(keys: seq<Bkey>, i: nat, o: nat, w: u64)
    requires i < |keys| && o < |Encode(keys[i])|
    ensures StartOf(keys, i) + o < |EncodeAll(keys)|
    ensures EncodeAll(keys)[StartOf(keys, i) + o] == Peek(keys[i], o)
    ensures EncodeAll(keys[i := Poke(keys[i], o, w)]) == EncodeAll(keys)[StartOf(keys, i) + o := w]
  {
    var first, rest := Encode(keys[0]), EncodeAll(keys[1..]);
    var keys' := keys[i := Poke(keys[i], o, w)];
    if i == 0 {
      assert keys'[1..] == keys[1..];
      PokeOne(keys[0], o, w);
      UpdateLeft(first, rest, o, w);
    } else {
      PokeEncodes(keys[1..], i - 1, o, w);
      assert keys'[1..] == keys[1..][i - 1 := Poke(keys[i], o, w)];
      UpdateRight(first, rest, StartOf(keys[1..], i - 1) + o, w);
    }
  }

  lemma PokeDecodes(keys: seq<Bkey>, i: nat, o: nat, w: u64)
    requires forall k :: k in keys ==> Complete(k)
    requires i < |keys| && o < |Encode(keys[i])| && Complete(Poke(keys[i], o, w))
    ensures var words, j := EncodeAll(keys), StartOf(keys, i) + o;
            && j < |words| && words[j] == Peek(keys[i], o)
            && Decode(words[j := w]) == Some(keys[i := Poke(keys[i], o, w)])
  {
    PokeEncodes(keys, i, o, w);
    DecodeEncode(keys[i := Poke(keys[i], o, w)]);
  }

  /** Every word of a log belongs to one of its keys. */
  lemma {:induction false} WordOfKey(keys: seq<Bkey>, j: nat) returns (i: nat, o: nat)
    requires j < |EncodeAll(keys)|
    ensures i < |keys| && o < |Encode(keys[i])| && StartOf(keys, i) + o == j
  {
    var n := |Encode(keys[0])|;
    if j < n {
      i, o := 0, j;
    } else {
      i, o := WordOfKey(keys[1..], j - n);
      i := i + 1;
    }
  }

  /** A write that a log of keys stands: any field of a key's first word but the number of pointers, or any
      field of a pointer. */
  ghost predicate Harmless(k: Bkey, o: nat, f: Field) {
    && o < |Encode(k)|
    && ((o == 0 && f in KEY_FIELDS && f != KEY_PTRS) || (o >= 2 && f in PTR_FIELDS))
  }

  lemma OtherFieldKeepsPtrs(w: u64, f: Field, v: u64)
    requires f in KEY_FIELDS && f != KEY_PTRS
    ensures Ptrs(Set(w, f, v)) == Ptrs(w)
  {
    LayoutsAreDisjoint();
    var i :| 0 <= i < |KEY_FIELDS| && KEY_FIELDS[i] == f;
    assert KEY_FIELDS[0] == KEY_PTRS && i != 0;
    SetFrame(w, f, v, KEY_PTRS);
  }

  lemma HarmlessKeepsComplete(k: Bkey, o: nat, f: Field, v: u64)
    requires Complete(k) && Harmless(k, o, f)
    ensures Complete(Poke(k, o, Set(Peek(k, o), f, v)))
  {
    if o == 0 {
      OtherFieldKeepsPtrs(k.high, f, v);
    }
  }

  /** Writing such a field of a log gives the log of the same keys with that field of that key replaced, and
      every other key as it was. */
  lemma FieldWriteUpdatesLog(keys: seq<Bkey>, i: nat, o: nat, f: Field, v: u64)
    requires forall k :: k in keys ==> Complete(k)
    requires i < |keys| && Harmless(keys[i], o, f)
    ensures var words, j := EncodeAll(keys), StartOf(keys, i) + o;
            && j < |words| && words[j] == Peek(keys[i], o)
            && Decode(words[j := Set(words[j], f, v)]) == Some(keys[i := Poke(keys[i], o, Set(Peek(keys[i], o), f, v))])
  {
    assert Complete(keys[i]);
    HarmlessKeepsComplete(keys[i], o, f, v);
    PokeDecodes(keys, i, o, Set(Peek(keys[i], o), f, v));
  }
}
