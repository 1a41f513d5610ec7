/** The on-disk keys of bcache: two header words followed by as many pointer words as the header says. */
module Bcache {
  import opened Strings
  import opened Bits
  import opened Fields

  const KEY_PTRS := Field(60, 3)
  const HEADER_SIZE := Field(58, 2)
  const KEY_CSUM := Field(56, 2)
  const KEY_PINNED := Field(55, 1)
  const KEY_DIRTY := Field(36, 1)
  const KEY_SIZE := Field(20, 16)
  const KEY_INODE := Field(0, 20)

  const KEY_FIELDS: seq<Field> := [KEY_PTRS, HEADER_SIZE, KEY_CSUM, KEY_PINNED, KEY_DIRTY, KEY_SIZE, KEY_INODE]

  const PTR_DEV := Field(51, 12)
  const PTR_OFFSET := Field(8, 43)
  const PTR_GEN := Field(0, 8)

  const PTR_FIELDS: seq<Field> := [PTR_DEV, PTR_OFFSET, PTR_GEN]

  const HEADER_WORDS := 2
  const BKEY_PAD := 8

  ghost predicate Layout(fields: seq<Field>) {
    && (forall f :: f in fields ==> f.Valid())
    && (forall i, j :: 0 <= i < j < |fields| ==> Disjoint(fields[i], fields[j]))
  }

  /** The fields of a key's first word, and those of a pointer, do not overlap. */
  lemma LayoutsAreDisjoint()
    ensures Layout(KEY_FIELDS) && Layout(PTR_FIELDS)
  {
  }

  lemma FieldValue(w: u64, f: Field, p: nat, q: nat)
    requires f.Valid() && Pow2(f.offset) == p > 0 && Pow2(f.size) == q > 0
    ensures Get(w, f) == w / p % q
  {
    GetIsDivMod(w, f);
  }

  /** Where each field of a key's first word lies, as a number. */
  lemma KeyFieldValues(w: u64)
    ensures Get(w, KEY_PTRS) == w / 0x1000_0000_0000_0000 % 8
    ensures Get(w, HEADER_SIZE) == w / 0x400_0000_0000_0000 % 4
    ensures Get(w, KEY_CSUM) == w / 0x100_0000_0000_0000 % 4
    ensures Get(w, KEY_PINNED) == w / 0x80_0000_0000_0000 % 2
    ensures Get(w, KEY_DIRTY) == w / 0x10_0000_0000 % 2
    ensures Get(w, KEY_SIZE) == w / 0x10_0000 % 0x1_0000
    ensures Get(w, KEY_INODE) == w % 0x10_0000
  {
    SmallPowers();
    LargePowers();
    FieldValue(w, KEY_PTRS, 0x1000_0000_0000_0000, 8);
    FieldValue(w, HEADER_SIZE, 0x400_0000_0000_0000, 4);
    FieldValue(w, KEY_CSUM, 0x100_0000_0000_0000, 4);
    FieldValue(w, KEY_PINNED, 0x80_0000_0000_0000, 2);
    FieldValue(w, KEY_DIRTY, 0x10_0000_0000, 2);
    FieldValue(w, KEY_SIZE, 0x10_0000, 0x1_0000);
    FieldValue(w, KEY_INODE, 1, 0x10_0000);
  }

  /** Where each field of a pointer lies. */
  lemma PtrFieldValues(w: u64)
    ensures Get(w, PTR_DEV) == w / 0x8_0000_0000_0000 % 0x1000
    ensures Get(w, PTR_OFFSET) == w / 0x100 % 0x800_0000_0000
    ensures Get(w, PTR_GEN) == w % 0x100
  {
    SmallPowers();
    LargePowers();
    FieldValue(w, PTR_DEV, 0x8_0000_0000_0000, 0x1000);
    FieldValue(w, PTR_OFFSET, 0x100, 0x800_0000_0000);
    FieldValue(w, PTR_GEN, 1, 0x100);
  }

  /** So writing one field of a laid-out word sets that field and leaves all the others. */
  lemma WriteOneField(fields: seq<Field>, i: nat, w: u64, v: u64)
    requires Layout(fields) && i < |fields|
    ensures forall j :: 0 <= j < |fields| ==>
              Get(Set(w, fields[i], v), fields[j]) == if j == i then v % Pow2(fields[i].size) else Get(w, fields[j])
  {
    assert fields[i] in fields;
    GetAfterSet(w, fields[i], v);
    forall j | 0 <= j < |fields| && j != i ensures Get(Set(w, fields[i], v), fields[j]) == Get(w, fields[j]) {
      assert fields[j] in fields;
      assert Disjoint(fields[i], fields[j]);
      SetFrame(w, fields[i], v, fields[j]);
    }
  }

  // ---------------------------------------------------------------- keys as values

  datatype Bkey = Bkey(high: u64, low: u64, ptr: seq<u64>)

  /** The number of pointers a first word announces. */
  function Ptrs(high: u64): (n: nat)
    ensures n < 8
  {
    GetAtMost(high, KEY_PTRS);
    assert Pow2(3) == 8;
    Get(high, KEY_PTRS)
  }

  lemma GetAtMost(w: u64, f: Field)
    requires f.Valid()
    ensures Get(w, f) < Pow2(f.size)
  {
    GetIsDivMod(w, f);
  }

  /** `bkey_u64s`. */
  function KeyWords(high: u64): (n: nat)
    ensures 2 <= n <= 9
  {
    HEADER_WORDS + Ptrs(high)
  }

  /** The length of a key, from its first word as a number. */
  lemma KeyWordsValue(high: u64)
    ensures KeyWords(high) == 2 + high / 0x1000_0000_0000_0000 % 8
  {
    KeyFieldValues(high);
  }

  predicate Complete(k: Bkey) {
    |k.ptr| == Ptrs(k.high)
  }

  function Encode(k: Bkey): seq<u64> {
    [k.high, k.low] + k.ptr
  }

  // ---------------------------------------------------------------- a log of keys

  function EncodeAll(keys: seq<Bkey>): seq<u64> {
    if keys == [] then [] else Encode(keys[0]) + EncodeAll(keys[1..])
  }

  /** `bkey_next`: the word after the key that starts at word k. */
  function Next(words: seq<u64>, k: nat): nat
    requires k < |words|
  {
    k + KeyWords(words[k])
  }

  /** Where stepping from word k to the end with `bkey_next` stops: the starts it visits, or None when a key
      runs past the end. */
  function Visit(words: seq<u64>, k: nat): Option<seq<nat>>
    decreases |words| - k
  {
    if k == |words| then Some([])
    else if k > |words| || Next(words, k) > |words| then None
    else
      match Visit(words, Next(words, k))
      case None => None
      case Some(rest) => Some([k] + rest)
  }

  function KeyAt(words: seq<u64>, k: nat): Bkey
    requires k < |words| && Next(words, k) <= |words|
  {
    Bkey(words[k], words[k + 1], words[k + 2..Next(words, k)])
  }

  /** The keys a log holds, read front to back. */
  function Decode(words: seq<u64>): Option<seq<Bkey>>
    decreases |words|
  {
    if words == [] then Some([])
    else if Next(words, 0) > |words| then None
    else
      match Decode(words[Next(words, 0)..])
      case None => None
      case Some(rest) => Some([KeyAt(words, 0)] + rest)
  }

  /** The word at which each key of a log starts. */
  function Starts(keys: seq<Bkey>, from: nat): seq<nat> {
    if keys == [] then [] else [from] + Starts(keys[1..], from + |Encode(keys[0])|)
  }

  lemma FirstKey(k: Bkey, rest: seq<u64>)
    requires Complete(k)
    ensures var words, n := Encode(k) + rest, |Encode(k)|;
            n <= |words| && words[0] == k.high && Next(words, 0) == n && KeyAt(words, 0) == k && words[n..] == rest
  {
    var words, n := Encode(k) + rest, |Encode(k)|;
    assert words[0] == k.high && words[1] == k.low;
    assert words[2..n] == k.ptr;
  }

  /** Any list of complete keys, written back to back, decodes to that list. */
  lemma {:induction false} DecodeEncode(keys: seq<Bkey>)
    requires forall k :: k in keys ==> Complete(k)
    ensures Decode(EncodeAll(keys)) == Some(keys)
  {
    if keys != [] {
      FirstKey(keys[0], EncodeAll(keys[1..]));
      assert forall k :: k in keys[1..] ==> k in keys;
      DecodeEncode(keys[1..]);
      assert keys == [keys[0]] + keys[1..];
    }
  }

  /** And only such lists decode: a log that decodes is the encoding of the complete keys it decodes to. */
  lemma {:induction false} EncodeDecode(words: seq<u64>)
    requires Decode(words).Some?
    ensures var keys := Decode(words).value;
            EncodeAll(keys) == words && forall k :: k in keys ==> Complete(k)
    decreases |words|
  {
    if words != [] {
      var n := Next(words, 0);
      EncodeDecode(words[n..]);
      var keys := Decode(words).value;
      assert keys[1..] == Decode(words[n..]).value;
      assert words == [words[0], words[1]] + words[2..n] + words[n..];
      assert keys == [keys[0]] + keys[1..];
    }
  }

  lemma NextKey(before: seq<u64>, k: Bkey, tail: seq<u64>)
    requires Complete(k)
    ensures var words := before + Encode(k) + tail;
            |before| < |words| && Next(words, |before|) == |before + Encode(k)|
  {
    assert (before + Encode(k) + tail)[|before|] == k.high;
  }

  lemma AppendAssociates(a: seq<u64>, b: seq<u64>, c: seq<u64>)
    ensures a + (b + c) == a + b + c
  {
  }

  lemma VisitStep(words: seq<u64>, k: nat, rest: seq<nat>)
    requires k < |words| && Visit(words, Next(words, k)) == Some(rest)
    ensures Visit(words, k) == Some([k] + rest)
  {
  }

  /** Stepping from the start of any key visits the starts of the keys from there on, and ends exactly at
      the end of the log. */
  lemma {:induction false} VisitFrom(before: seq<u64>, keys: seq<Bkey>)
    requires forall k :: k in keys ==> Complete(k)
    ensures Visit(before + EncodeAll(keys), |before|) == Some(Starts(keys, |before|))
    decreases |keys|
  {
    var words := before + EncodeAll(keys);
    if keys == [] {
      assert |words| == |before|;
    } else {
      var k, rest := keys[0], keys[1..];
      var at, tail := before + Encode(k), EncodeAll(rest);
      assert Complete(k);
      assert words == at + tail by { AppendAssociates(before, Encode(k), tail); }
      assert Next(words, |before|) == |at| by { NextKey(before, k, tail); }
      assert Visit(words, |at|) == Some(Starts(rest, |at|)) by { VisitFrom(at, rest); }
      VisitStep(words, |before|, Starts(rest, |at|));
    }
  }

  /** Walking a log of complete keys visits exactly the key starts; walking succeeds on a log exactly when
      the log decodes. */
  lemma WalkVisitsKeys(words: seq<u64>)
    ensures Visit(words, 0).Some? <==> Decode(words).Some?
    ensures Decode(words).Some? ==> Visit(words, 0) == Some(Starts(Decode(words).value, 0))
  {
    if Decode(words).Some? {
      EncodeDecode(words);
      VisitFrom([], Decode(words).value);
      assert [] + words == words;
    } else {
      VisitNeedsDecode(words, 0);
      assert words[0..] == words;
    }
  }

  lemma {:induction false} VisitNeedsDecode(words: seq<u64>, k: nat)
    requires k <= |words| && Decode(words[k..]).None?
    ensures Visit(words, k).None?
    decreases |words| - k
  {
    if k < |words| && Next(words, k) <= |words| {
      var n := Next(words, k);
      assert words[k..][n - k..] == words[n..];
      assert Next(words[k..], 0) == n - k;
      VisitNeedsDecode(words, n);
    }
  }

  /** Two words and as many more as bits 60 to 62 say. */
  function Announced(high: u64): nat {
    2 + high / 0x1000_0000_0000_0000 % 8
  }

  /** The starts of back-to-back keys from word k to the end, each as long as its first word announces. */
  ghost predicate Tiles(length: u64 -> nat, words: seq<u64>, k: nat, starts: seq<nat>) {
    if starts == [] then k == |words|
    else
      && starts[0] == k
      && (forall i :: 0 <= i < |starts| ==> starts[i] < |words|)
      && (forall i, j :: 0 <= i < j < |starts| && j == i + 1 ==> starts[j] == starts[i] + length(words[starts[i]]))
      && |words| == starts[|starts| - 1] + length(words[starts[|starts| - 1]])
  }

  lemma TilesCons(length: u64 -> nat, words: seq<u64>, k: nat, rest: seq<nat>)
    requires k < |words|
    ensures Tiles(length, words, k, [k] + rest) <==> Tiles(length, words, k + length(words[k]), rest)
  {
    if Tiles(length, words, k, [k] + rest) {
      TilesTail(length, words, k, rest);
    }
  }

  lemma TilesTail(length: u64 -> nat, words: seq<u64>, k: nat, rest: seq<nat>)
    requires k < |words| && Tiles(length, words, k, [k] + rest)
    ensures Tiles(length, words, k + length(words[k]), rest)
  {
    var starts := [k] + rest;
    assert starts[0] == k && forall i :: 0 <= i < |rest| ==> starts[i + 1] == rest[i];
    if rest != [] {
      assert starts[1] == rest[0];
      forall i | 0 <= i < |rest| ensures rest[i] < |words| {
        assert starts[i + 1] < |words|;
      }
      forall i, j | 0 <= i < j < |rest| && j == i + 1 ensures rest[j] == rest[i] + length(words[rest[i]]) {
        assert starts[j + 1] == starts[i + 1] + length(words[starts[i + 1]]);
      }
    }
  }

  lemma SecondStart(length: u64 -> nat, words: seq<u64>, k: nat, starts: seq<nat>)
    requires Tiles(length, words, k, starts) && |starts| > 1
    ensures k < |words| && k + length(words[k]) < |words|
  {
    assert starts[0] < |words| && starts[1] == starts[0] + length(words[starts[0]]);
  }

  lemma TilesEnd(length: u64 -> nat, words: seq<u64>, k: nat, starts: seq<nat>)
    requires k < |words| < k + length(words[k])
    ensures !Tiles(length, words, k, starts)
  {
    if Tiles(length, words, k, starts) && |starts| > 1 {
      SecondStart(length, words, k, starts);
      assert false;
    }
  }

  lemma {:induction false} WalkTiles(length: u64 -> nat, words: seq<u64>, k: nat, starts: seq<nat>)
    requires forall high :: length(high) == KeyWords(high)
    ensures Visit(words, k) == Some(starts) <==> Tiles(length, words, k, starts)
    decreases |words| - k
  {
    if k < |words| {
      assert Next(words, k) == k + length(words[k]);
      if Next(words, k) > |words| {
        TilesEnd(length, words, k, starts);
      } else if starts != [] && starts[0] == k {
        assert starts == [k] + starts[1..];
        TilesCons(length, words, k, starts[1..]);
        WalkTiles(length, words, Next(words, k), starts[1..]);
      }
    }
  }

  /** The walk succeeds and visits these words exactly when keys of the announced lengths lie back to back
      from there to the end. */
  lemma WalkIsTiling(words: seq<u64>, starts: seq<nat>)
    ensures Visit(words, 0) == Some(starts) <==> Tiles(Announced, words, 0, starts)
  {
    forall high: u64 ensures Announced(high) == KeyWords(high) {
      KeyWordsValue(high);
    }
    WalkTiles(Announced, words, 0, starts);
  }

  function After(starts: seq<nat>, rest: Option<seq<nat>>): Option<seq<nat>> {
    if rest.None? then None else Some(starts + rest.value)
  }

  /** The walk over a set of keys: `k = bkey_next(k)` from the start while k is below the end. */
  method Walk(d: array<u64>, end: nat) returns (starts: seq<nat>, last: nat)
    requires end <= d.Length
    ensures Visit(d[..end], 0).Some? <==> last == end
    ensures last == end ==> Visit(d[..end], 0) == Some(starts)
    ensures last == end && Decode(d[..end]).Some? ==> starts == Starts(Decode(d[..end]).value, 0)
    ensures last == end <==> Tiles(Announced, d[..end], 0, starts)
  {
    var k := 0;
    starts := [];
    ghost var words := d[..end];
    assert Visit(words, 0).Some? ==> [] + Visit(words, 0).value == Visit(words, 0).value;
    while k < end
      invariant Visit(words, 0) == After(starts, Visit(words, k))
      decreases end - k
    {
      assert words[k] == d[k];
      ghost var rest := Visit(words, Next(words, k));
      assert rest.Some? ==> starts + ([k] + rest.value) == (starts + [k]) + rest.value;
      starts := starts + [k];
      k := k + KeyWords(d[k]);
    }
    last := k;
    assert starts + [] == starts;
    WalkVisitsKeys(words);
    WalkIsTiling(words, starts);
  }
}
