/** The type/length/value encoding of ALSA controls: an item is a type word, a length in bytes and the data
    words; the data of a container are items, those of a dB range are items preceded by two words. */
module Tlv {
  import opened Strings
  import opened Bits
  import opened Fields

  const U32 := 0x1_0000_0000

  type u32 = x: int | 0 <= x < U32

  const CONTAINER: u32 := 0
  const DB_SCALE: u32 := 1
  const DB_RANGE: u32 := 3

  datatype Tlv =
    | Leaf(kind: u32, data: seq<u32>)
    | Container(items: seq<Tlv>)
    | DbRange(ranges: seq<Range>)

  datatype Range = Range(min: u32, max: u32, item: Tlv)

  /** A leaf does not use the type of a container or range. */
  predicate Proper(t: Tlv) {
    match t
    case Leaf(kind, _) => kind != CONTAINER && kind != DB_RANGE
    case Container(items) => forall i :: 0 <= i < |items| ==> Proper(items[i])
    case DbRange(ranges) => forall i :: 0 <= i < |ranges| ==> Proper(ranges[i].item)
  }

  // ---------------------------------------------------------------- encoding

  /** `SNDRV_CTL_TLVD_LENGTH`: the size in bytes, as an unsigned int. */
  function ByteLength(words: seq<u32>): u32 {
    (4 * |words|) % U32
  }

  function Kind(t: Tlv): u32 {
    match t
    case Leaf(kind, _) => kind
    case Container(_) => CONTAINER
    case DbRange(_) => DB_RANGE
  }

  function Body(t: Tlv): seq<u32>
    decreases t, 0
  {
    match t
    case Leaf(_, data) => data
    case Container(items) => EncodeItems(items)
    case DbRange(ranges) => EncodeRanges(ranges)
  }

  /** `SNDRV_CTL_TLVD_ITEM`. */
  function Encode(t: Tlv): seq<u32>
    decreases t, 1
  {
    [Kind(t), ByteLength(Body(t))] + Body(t)
  }

  function EncodeItems(items: seq<Tlv>): seq<u32> {
    if items == [] then [] else Encode(items[0]) + EncodeItems(items[1..])
  }

  function EncodeRanges(ranges: seq<Range>): seq<u32> {
    if ranges == [] then []
    else EncodeRange(ranges[0]) + EncodeRanges(ranges[1..])
  }

  function EncodeRange(r: Range): seq<u32>
    decreases r, 2
  {
    [r.min, r.max] + Encode(r.item)
  }

  /** An item starts with its type code and the length of its data in bytes. */
  lemma EncodedHeader(t: Tlv)
    ensures |Encode(t)| >= 2
    ensures Encode(t)[0] == match t case Leaf(kind, _) => kind case Container(_) => 0 case DbRange(_) => 3
    ensures Encode(t)[1] == 4 * (|Encode(t)| - 2) % 0x1_0000_0000
  {
    BodyOf(t);
  }

  /** The data of a container are its items one after the other. */
  lemma ContainerData(items: seq<Tlv>)
    ensures Encode(Container(items))[2..]
            == if items == [] then [] else Encode(items[0]) + Encode(Container(items[1..]))[2..]
  {
    BodyOf(Container(items));
    if items != [] {
      BodyOf(Container(items[1..]));
    }
  }

  /** Those of a dB range are its items, each after its two bounds. */
  lemma RangeData(ranges: seq<Range>)
    ensures Encode(DbRange(ranges))[2..]
            == if ranges == [] then []
               else [ranges[0].min, ranges[0].max] + Encode(ranges[0].item) + Encode(DbRange(ranges[1..]))[2..]
  {
    BodyOf(DbRange(ranges));
    if ranges != [] {
      BodyOf(DbRange(ranges[1..]));
      assert EncodeRanges(ranges) == EncodeRange(ranges[0]) + EncodeRanges(ranges[1..]);
    }
  }

  lemma BodyOf(t: Tlv)
    ensures |Encode(t)| == 2 + |Body(t)| && Encode(t)[2..] == Body(t)
  {
  }

  // ---------------------------------------------------------------- decoding

  /** The data of an item occupy its length rounded up to whole words. */
  function BlockWords(length: u32): nat {
    (length + 3) / 4
  }

  /** One item from the front of the words, and the words after it. */
  function Decode(words: seq<u32>): (r: Option<(Tlv, seq<u32>)>)
    ensures r.Some? ==> |r.value.1| + 2 <= |words|
    decreases |words|, 0
  {
    if |words| < 2 || 2 + BlockWords(words[1]) > |words| then None
    else
      var n := BlockWords(words[1]);
      var block, rest := words[2..2 + n], words[2 + n..];
      if words[0] == CONTAINER then
        match DecodeItems(block)
        case None => None
        case Some(items) => Some((Container(items), rest))
      else if words[0] == DB_RANGE then
        match DecodeRanges(block)
        case None => None
        case Some(ranges) => Some((DbRange(ranges), rest))
      else Some((Leaf(words[0], block), rest))
  }

  function DecodeItems(words: seq<u32>): Option<seq<Tlv>>
    decreases |words|, 1
  {
    if words == [] then Some([])
    else
      match Decode(words)
      case None => None
      case Some((t, rest)) =>
        match DecodeItems(rest)
        case None => None
        case Some(items) => Some([t] + items)
  }

  function DecodeRanges(words: seq<u32>): Option<seq<Range>>
    decreases |words|, 1
  {
    if words == [] then Some([])
    else if |words| < 2 then None
    else
      match Decode(words[2..])
      case None => None
      case Some((t, rest)) =>
        match DecodeRanges(rest)
        case None => None
        case Some(ranges) => Some([Range(words[0], words[1], t)] + ranges)
  }

  // ---------------------------------------------------------------- unique decodability

  /** The longest data whose byte length an unsigned int can hold. */
  const MAX_WORDS := 0x4000_0000

  lemma BlockOfLength(words: seq<u32>)
    ensures |words| < MAX_WORDS <==> BlockWords(ByteLength(words)) == |words|
    ensures BlockWords(ByteLength(words)) <= |words|
  {
    var n := |words|;
    assert 4 * n == U32 * (4 * n / U32) + ByteLength(words);
  }

  /** Whatever follows it, an item whose data fit its length field decodes to itself. */
  lemma {:induction false} DecodeEncode(t: Tlv, rest: seq<u32>)
    requires Proper(t) && |Body(t)| < MAX_WORDS
    ensures Decode(Encode(t) + rest) == Some((t, rest))
    decreases t, 1
  {
    var words, n := Encode(t) + rest, |Body(t)|;
    BlockOfLength(Body(t));
    assert words[0] == Kind(t) && words[1] == ByteLength(Body(t));
    assert words[2..2 + n] == Body(t) && words[2 + n..] == rest;
    match t
    case Leaf(_, _) =>
    case Container(items) => DecodeItemsEncode(items);
    case DbRange(ranges) => DecodeRangesEncode(ranges);
  }

  lemma {:induction false} DecodeItemsEncode(items: seq<Tlv>)
    requires forall i :: 0 <= i < |items| ==> Proper(items[i])
    requires |EncodeItems(items)| < MAX_WORDS
    ensures DecodeItems(EncodeItems(items)) == Some(items)
    decreases items, 0
  {
    if items != [] {
      DecodeEncode(items[0], EncodeItems(items[1..]));
      DecodeItemsEncode(items[1..]);
      assert items == [items[0]] + items[1..];
    }
  }

  lemma DecodeRangesStep(words: seq<u32>, t: Tlv, rest: seq<u32>, ranges: seq<Range>)
    requires |words| >= 2 && Decode(words[2..]) == Some((t, rest)) && DecodeRanges(rest) == Some(ranges)
    ensures DecodeRanges(words) == Some([Range(words[0], words[1], t)] + ranges)
  {
  }

  lemma {:induction false} DecodeRangesEncode(ranges: seq<Range>)
    requires forall i :: 0 <= i < |ranges| ==> Proper(ranges[i].item)
    requires |EncodeRanges(ranges)| < MAX_WORDS
    ensures DecodeRanges(EncodeRanges(ranges)) == Some(ranges)
    decreases ranges, 0
  {
    if ranges != [] {
      var r, rest := ranges[0], EncodeRanges(ranges[1..]);
      assert EncodeRanges(ranges) == EncodeRange(r) + rest;
      DecodeRangeEncode(r, rest);
      assert forall i :: 0 <= i < |ranges[1..]| ==> ranges[1..][i] == ranges[i + 1];
      DecodeRangesEncode(ranges[1..]);
      DecodeRangesStep(EncodeRange(r) + rest, r.item, rest, ranges[1..]);
      assert ranges == [r] + ranges[1..] && r == Range(r.min, r.max, r.item);
    }
  }

  lemma {:induction false} DecodeRangeEncode(r: Range, rest: seq<u32>)
    requires Proper(r.item) && |EncodeRange(r)| < MAX_WORDS
    ensures var words := EncodeRange(r) + rest;
            |words| >= 2 && words[0] == r.min && words[1] == r.max && Decode(words[2..]) == Some((r.item, rest))
    decreases r, 2
  {
    assert (EncodeRange(r) + rest)[2..] == Encode(r.item) + rest;
    DecodeEncode(r.item, rest);
  }

  /** An item decodes to itself exactly when its data fit its length field. */
  lemma DecodableIff(t: Tlv, rest: seq<u32>)
    requires Proper(t)
    ensures Decode(Encode(t) + rest) == Some((t, rest)) <==> |Body(t)| < MAX_WORDS
  {
    if |Body(t)| < MAX_WORDS {
      DecodeEncode(t, rest);
    } else {
      BlockOfLength(Body(t));
      var words := Encode(t) + rest;
      assert words[1] == ByteLength(Body(t));
    }
  }

  /** No item is a proper prefix of another, and different items have different encodings. */
  lemma PrefixFree(t: Tlv, u: Tlv)
    requires Proper(t) && |Body(t)| < MAX_WORDS
    requires Proper(u) && |Body(u)| < MAX_WORDS
    requires Encode(t) <= Encode(u)
    ensures t == u
  {
    var rest := Encode(u)[|Encode(t)|..];
    assert Encode(u) == Encode(t) + rest;
    DecodeEncode(t, rest);
    DecodeEncode(u, []);
    assert Encode(u) + [] == Encode(u);
  }

  // ---------------------------------------------------------------- what the decoder returns

  /** Whatever the words, a decoded item is proper and accounts for every word it was read from. */
  lemma {:induction false} DecodedShape(words: seq<u32>)
    requires Decode(words).Some?
    ensures var (t, rest) := Decode(words).value;
            Proper(t) && |Body(t)| == BlockWords(words[1]) && |Encode(t)| + |rest| == |words|
    decreases |words|, 0
  {
    var block := words[2..2 + BlockWords(words[1])];
    if words[0] == CONTAINER {
      DecodedItemsShape(block);
    } else if words[0] == DB_RANGE {
      DecodedRangesShape(block);
    }
  }

  lemma {:induction false} DecodedItemsShape(words: seq<u32>)
    requires DecodeItems(words).Some?
    ensures var items := DecodeItems(words).value;
            (forall i :: 0 <= i < |items| ==> Proper(items[i])) && |EncodeItems(items)| == |words|
    decreases |words|, 1
  {
    if words != [] {
      var (t, rest) := Decode(words).value;
      DecodedShape(words);
      DecodedItemsShape(rest);
      assert ([t] + DecodeItems(rest).value)[1..] == DecodeItems(rest).value;
    }
  }

  lemma {:induction false} DecodedRangesShape(words: seq<u32>)
    requires DecodeRanges(words).Some?
    ensures var ranges := DecodeRanges(words).value;
            (forall i :: 0 <= i < |ranges| ==> Proper(ranges[i].item)) && |EncodeRanges(ranges)| == |words|
    decreases |words|, 1
  {
    if words != [] {
      var (t, rest) := Decode(words[2..]).value;
      DecodedShape(words[2..]);
      DecodedRangesShape(rest);
      var r := Range(words[0], words[1], t);
      assert ([r] + DecodeRanges(rest).value)[1..] == DecodeRanges(rest).value;
    }
  }

  /** Encoding what was decoded, from whatever words, decodes to the same again; the one exception is a
      length so close to the limit that rounding it up leaves the range of the length field. */
  lemma ReencodeIff(words: seq<u32>)
    requires Decode(words).Some?
    ensures var (t, rest) := Decode(words).value;
            Decode(Encode(t) + rest) == Some((t, rest)) <==> words[1] <= U32 - 4
  {
    DecodedShape(words);
    var (t, rest) := Decode(words).value;
    DecodableIff(t, rest);
  }

  // ---------------------------------------------------------------- the dB scale

  const STEP := Field(0, 16)
  const MUTE := Field(16, 1)

  /** The step and the mute flag in one word. */
  function ScaleWord(step: u32, mute: bool): u64 {
    Or64(And64(step, 0xffff), if mute then 0x10000 else 0)
  }

  lemma ScaleWordBits(step: u32, mute: bool, i: nat)
    ensures Bit(ScaleWord(step, mute), i) <==> (i < 16 && Bit(step, i)) || (i == 16 && mute)
  {
    var flag := if mute then 0x10000 else 0;
    BitOr(And64(step, 0xffff), flag, i);
    BitAnd(step, 0xffff, i);
    Pow2Sixteen();
    BitComplement(0, 16, i);
    BitZero(i);
    BitJoin(1, 16, 0, i);
    if i > 16 {
      BitZero(i - 17);
    }
  }

  lemma ScaleStepMasked(step: u32, mute: bool)
    ensures Get(ScaleWord(step, mute), STEP) == And64(step, Mask(16))
  {
    var w := ScaleWord(step, mute);
    forall i | 0 <= i < 64 ensures Bit(Get(w, STEP), i) == Bit(And64(step, Mask(16)), i) {
      GetBits(w, STEP, i);
      ScaleWordBits(step, mute, i);
      BitAnd(step, Mask(16), i);
      MaskBits(16, i);
    }
    SameWord(Get(w, STEP), And64(step, Mask(16)));
  }

  /** The step reads back exactly when it fits sixteen bits. */
  lemma ScaleStepIff(step: u32, mute: bool)
    ensures Get(ScaleWord(step, mute), STEP) == step <==> step <= 0xffff
  {
    ScaleStepMasked(step, mute);
    GetIsMod(step, 16);
    Pow2Sixteen();
    SmallModIff(step, 0x10000);
  }

  lemma SmallModIff(x: nat, p: nat)
    requires p > 0
    ensures x % p == x <==> x < p
  {
  }

  /** The mute flag always reads back. */
  lemma ScaleMuteReadsBack(step: u32, mute: bool)
    ensures Get(ScaleWord(step, mute), MUTE) == if mute then 1 else 0
  {
    var w := ScaleWord(step, mute);
    var m: u64 := if mute then 1 else 0;
    forall i | 0 <= i < 64 ensures Bit(Get(w, MUTE), i) == Bit(m, i) {
      GetBits(w, MUTE, i);
      ScaleWordBits(step, mute, 16 + i);
      BitZero(i);
      if i > 0 {
        BitZero(i - 1);
      }
    }
    SameWord(Get(w, MUTE), m);
  }

  lemma ScaleWordFits(step: u32, mute: bool)
    ensures ScaleWord(step, mute) < U32
  {
    forall i | i >= 32 ensures !Bit(ScaleWord(step, mute), i) {
      ScaleWordBits(step, mute, i);
    }
    HighBits(ScaleWord(step, mute), 32);
    Pow2Sixteen();
    Pow2Add(16, 16);
  }

  /** `SNDRV_CTL_TLVD_DB_SCALE_ITEM`. */
  function DbScale(min: u32, step: u32, mute: bool): Tlv {
    ScaleWordFits(step, mute);
    Leaf(DB_SCALE, [min, ScaleWord(step, mute)])
  }

  /** The four words of a dB scale. */
  lemma DbScaleWords(min: u32, step: u32, mute: bool)
    ensures Encode(DbScale(min, step, mute)) == [1, 8, min, step % 0x1_0000 + (if mute then 0x1_0000 else 0)]
  {
    var data := DbScale(min, step, mute).data;
    assert Encode(DbScale(min, step, mute)) == [1, 8] + data;
    ScaleWordValue(step, mute);
  }

  /** One bit put in front of the k low bits of a number. */
  lemma FlagBits(x: nat, k: nat, hi: nat, i: nat)
    requires hi <= 1
    ensures hi * Pow2(k) + x % Pow2(k) >= 0
    ensures Bit(hi * Pow2(k) + x % Pow2(k), i) <==> (i < k && Bit(x, i)) || (i == k && hi == 1)
  {
    BitJoin(hi, k, x % Pow2(k), i);
    BitMod(x, k, i);
    if i > k {
      BitZero(i - k - 1);
      BitZero(i - k);
    }
  }

  lemma ScaleWordValue(step: u32, mute: bool)
    ensures ScaleWord(step, mute) == step % 0x1_0000 + (if mute then 0x1_0000 else 0)
  {
    var hi := if mute then 1 else 0;
    Pow2Sixteen();
    forall i | 0 <= i < 64 ensures Bit(ScaleWord(step, mute), i) == Bit(hi * Pow2(16) + step % Pow2(16), i) {
      ScaleWordBits(step, mute, i);
      FlagBits(step, 16, hi, i);
    }
    SameWord(ScaleWord(step, mute), hi * Pow2(16) + step % Pow2(16));
  }

  /** A dB scale decodes, whatever follows it, to an item from which the minimum and the mute flag read back,
      and the step exactly when it fits. */
  lemma DbScaleReadsBack(min: u32, step: u32, mute: bool, rest: seq<u32>)
    ensures Decode(Encode(DbScale(min, step, mute)) + rest) == Some((DbScale(min, step, mute), rest))
    ensures var data := DbScale(min, step, mute).data;
            && data[0] == min
            && Get(data[1], MUTE) == (if mute then 1 else 0)
            && (Get(data[1], STEP) == step <==> step <= 0xffff)
  {
    DecodeEncode(DbScale(min, step, mute), rest);
    ScaleMuteReadsBack(step, mute);
    ScaleStepIff(step, mute);
  }
}
