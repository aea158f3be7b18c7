/**
 * The size prefix of a framed message: up to eight bytes of seven value bits each, high bits
 * first, every byte but the last carrying a marker bit (source/io/core/VariableLengthSize.cpp).
 *
 * `Decoder` is the abstract view: which bytes were accepted and whether decoding failed. The
 * class keeps only the two 64-bit words of the original; `EncodedWord` and `DecodedWord` say
 * what they hold.
 */
module VariableLengthSizes {
  import opened Words

  const MAX_VALUE: nat := 0xFF_FFFF_FFFF_FFFF
  const INVALID_VALUE: nat := 0xFFFF_FFFF_FFFF_FFFF
  const MAX_BYTES: nat := 8

  // ---------- the abstract codec ----------

  predicate Marked(b: byte) { b >= 128 }

  function Payload(b: byte): nat { b % 128 }

  /** The number written by `bytes` in base 128, most significant digit first. */
  function Value(bytes: seq<byte>): nat {
    if bytes == [] then 0
    else Value(bytes[..|bytes| - 1]) * 128 + Payload(bytes[|bytes| - 1])
  }

  predicate AllMarked(bytes: seq<byte>) {
    forall i :: 0 <= i < |bytes| ==> Marked(bytes[i])
  }

  /** A whole size prefix: non-empty, and the last byte is the only one without marker. */
  predicate IsPrefixCode(bytes: seq<byte>) {
    bytes != [] && AllMarked(bytes[..|bytes| - 1]) && !Marked(bytes[|bytes| - 1])
  }

  datatype Decoder = Decoder(bytes: seq<byte>, failed: bool) {
    predicate Complete() { bytes != [] && !Marked(bytes[|bytes| - 1]) }

    predicate Open() { !Complete() && !failed }

    predicate WellFormed() {
      && |bytes| <= MAX_BYTES
      && (if Complete() then IsPrefixCode(bytes) && !failed
          else AllMarked(bytes) && |bytes| < MAX_BYTES)
      && (failed ==> |bytes| == MAX_BYTES - 1)
    }

    /** The size announced so far; the invalid value until the prefix is complete. */
    function Size(): nat { if Complete() then Value(bytes) else INVALID_VALUE }

    /** The eighth byte must be the last one. */
    predicate Refuses(b: byte) { |bytes| == MAX_BYTES - 1 && Marked(b) }

    predicate Takes(b: byte) { Open() && !Refuses(b) }

    function Add(b: byte): Decoder {
      if !Open() then this
      else if Refuses(b) then this.(failed := true)
      else this.(bytes := bytes + [b])
    }

    /** How many bytes of `data` are consumed. */
    function Consumed(data: seq<byte>): (n: nat)
      ensures n <= |data|
      decreases |data|
    {
      if data == [] || !Takes(data[0]) then 0 else 1 + Add(data[0]).Consumed(data[1..])
    }

    /** The decoder after as many bytes of `data` as it takes, and the refusal that stopped it, if any. */
    function AddAll(data: seq<byte>): Decoder
      decreases |data|
    {
      if data == [] then this
      else if !Takes(data[0]) then Add(data[0])
      else Add(data[0]).AddAll(data[1..])
    }
  }

  const FRESH := Decoder([], false)

  lemma AddKeepsWellFormed(d: Decoder, b: byte)
    requires d.WellFormed()
    ensures d.Add(b).WellFormed()
  {
    if d.Takes(b) {
      assert (d.bytes + [b])[..|d.bytes|] == d.bytes;
    }
  }

  lemma ValueSnoc(bytes: seq<byte>, b: byte)
    ensures Value(bytes + [b]) == Value(bytes) * 128 + Payload(b)
  {
    assert (bytes + [b])[..|bytes|] == bytes;
  }

  /** 128 to the power `n`. */
  function Pow128(n: nat): nat { if n == 0 then 1 else 128 * Pow128(n - 1) }

  lemma {:induction false} ValueBound(bytes: seq<byte>)
    ensures Value(bytes) < Pow128(|bytes|)
  {
    if bytes != [] { ValueBound(bytes[..|bytes| - 1]); }
  }

  lemma {:induction false} Pow128Grows(m: nat, n: nat)
    requires m <= n
    ensures 1 <= Pow128(m) <= Pow128(n)
    decreases n
  {
    if n > 0 { Pow128Grows(if m < n then m else m - 1, n - 1); }
  }

  lemma ValueFits(bytes: seq<byte>)
    requires |bytes| <= MAX_BYTES
    ensures Value(bytes) <= MAX_VALUE
    ensures |bytes| <= 7 ==> Value(bytes) < 0x2_0000_0000_0000
  {
    ValueBound(bytes);
    assert Pow128(4) == 0x1000_0000;
    assert Pow128(7) == 0x2_0000_0000_0000;
    Pow128Grows(|bytes|, if |bytes| <= 7 then 7 else 8);
  }

  /** The bytes of `v`, most significant digit first; `more` marks the last byte as well. */
  function Digits(v: nat, more: bool): (r: seq<byte>)
    ensures r != []
  {
    var last := v % 128 + (if more then 128 else 0);
    if v < 128 then [last] else Digits(v / 128, true) + [last]
  }

  function Encode(v: nat): (r: seq<byte>) { Digits(v, false) }

  /** The most significant digit comes first. */
  lemma EncodeExamples()
    ensures Encode(127) == [127] && Encode(128) == [129, 0] && Encode(65535) == [131, 255, 127]
  {
    assert Digits(1, true) == [129];
    assert Digits(3, true) == [131] && Digits(511, true) == [131, 255];
  }

  lemma {:induction false} DigitsSpec(v: nat, more: bool)
    ensures Value(Digits(v, more)) == v
    ensures if more then AllMarked(Digits(v, more)) else IsPrefixCode(Digits(v, more))
    decreases v
  {
    var r := Digits(v, more);
    if v >= 128 {
      DigitsSpec(v / 128, true);
      assert r[..|r| - 1] == Digits(v / 128, true);
    } else {
      assert r[..0] == [];
    }
  }

  /** No shorter sequence of digits holds `v`. */
  lemma {:induction false} DigitsLength(v: nat, more: bool, n: nat)
    requires v < Pow128(n) && n > 0
    ensures |Digits(v, more)| <= n
    decreases v
  {
    if v >= 128 {
      assert v / 128 < Pow128(n - 1);
      DigitsLength(v / 128, true, n - 1);
    }
  }

  // ---------- the two 64-bit words ----------

  const IS_COMPLETE_MASK: uint64 := 0x8000_0000_0000_0000
  const IS_FAIL_MASK: uint64 := 0x4000_0000_0000_0000
  const COUNT_UNIT: nat := 0x100_0000_0000_0000

  /** The bytes of a word in memory order, least significant first. */
  function Pack(bytes: seq<byte>): nat {
    if bytes == [] then 0 else bytes[0] + 256 * Pack(bytes[1..])
  }

  function Pow256(n: nat): nat { if n == 0 then 1 else 256 * Pow256(n - 1) }

  /** The accepted bytes sit at the high end of the word until the last one moves them to the low end. */
  function EncodedWord(d: Decoder): nat
    requires |d.bytes| <= MAX_BYTES
  {
    if d.Complete() then Pack(d.bytes) else Pack(d.bytes) * Pow256(8 - |d.bytes|)
  }

  /** The value in 56 bits, the count of bytes above it, then the two flags. */
  function DecodedWord(d: Decoder, count: nat): nat {
    Value(d.bytes) + count * COUNT_UNIT
    + (if d.Complete() then IS_COMPLETE_MASK else 0) + (if d.failed then IS_FAIL_MASK else 0)
  }

  lemma {:induction false} PackSnoc(bytes: seq<byte>, b: byte)
    ensures Pack(bytes + [b]) == Pack(bytes) + b * Pow256(|bytes|)
  {
    if bytes == [] {
      assert [b][1..] == [];
    } else {
      PackSnoc(bytes[1..], b);
      assert (bytes + [b])[1..] == bytes[1..] + [b];
      assert 256 * (b * Pow256(|bytes| - 1)) == b * Pow256(|bytes|);
    }
  }

  lemma {:induction false} PackBound(bytes: seq<byte>)
    ensures Pack(bytes) < Pow256(|bytes|)
  {
    if bytes != [] { PackBound(bytes[1..]); }
  }

  /** What `bytes()` shows of a word: its first `n` bytes in memory. */
  function Unpack(w: nat, n: nat): (r: seq<byte>)
    ensures |r| == n
  {
    if n == 0 then [] else [w % 256] + Unpack(w / 256, n - 1)
  }

  lemma {:induction false} UnpackPack(bytes: seq<byte>)
    ensures Unpack(Pack(bytes), |bytes|) == bytes
  {
    if bytes != [] {
      ModUnique(Pack(bytes), 256, Pack(bytes[1..]), bytes[0]);
      UnpackPack(bytes[1..]);
    }
  }

  lemma {:induction false} Pow256Adds(j: nat, k: nat)
    ensures Pow256(j + k) == Pow256(j) * Pow256(k)
  {
    if j > 0 { Pow256Adds(j - 1, k); }
  }

  lemma {:induction false} Pow256IsPow2(n: nat)
    ensures Pow256(n) == Pow2(8 * n)
  {
    if n > 0 {
      Pow256IsPow2(n - 1);
      Pow2Adds(8, 8 * (n - 1));
      PowersOfTwo();
    }
  }

  lemma Pow256Constants()
    ensures Pow256(7) == COUNT_UNIT && Pow256(8) == WORD_LIMIT
  {
    assert Pow256(2) == 65536;
    Pow256Adds(2, 2); Pow256Adds(4, 3); Pow256Adds(2, 1); Pow256Adds(7, 1);
  }

  // ---------- what the bit tests compute ----------

  lemma CompleteBit(w: uint64)
    ensures BitAnd(w, IS_COMPLETE_MASK) != 0 <==> w >= IS_COMPLETE_MASK
  {
    PowersOfTwo();
    AndHigh(w, 1, 63);
    ShiftRightDivides(w, 63);
    AndHalves(w / IS_COMPLETE_MASK, 1);
  }

  lemma FailBit(w: uint64)
    ensures BitAnd(w, IS_FAIL_MASK) != 0 <==> w / IS_FAIL_MASK % 2 == 1
  {
    PowersOfTwo();
    AndHigh(w, 1, 62);
    ShiftRightDivides(w, 62);
    AndHalves(w / IS_FAIL_MASK, 1);
  }

  lemma ValueBits(w: nat)
    ensures BitAnd(w, 0xFF_FFFF_FFFF_FFFF) == w % COUNT_UNIT
  {
    PowersOfTwo();
    AndLow(w, 56);
  }

  lemma CountBits(w: nat)
    ensures ShiftRight(BitAnd(w, 0x0F00_0000_0000_0000), 56) == w / COUNT_UNIT % 16
  {
    PowersOfTwo();
    AndHigh(w, 15, 56);
    ShiftRightDivides(w, 56);
    AndLow(w / COUNT_UNIT, 4);
    assert Pow2(4) == 16;
    ShiftRightDivides((w / COUNT_UNIT % 16) * COUNT_UNIT, 56);
  }

  lemma ByteBits(b: byte)
    ensures BitAnd(b, 0x80) != 0 <==> Marked(b)
    ensures BitAnd(b, 0x7F) == Payload(b)
  {
    PowersOfTwo();
    AndHigh(b, 1, 7);
    ShiftRightDivides(b, 7);
    AndHalves(b / 128, 1);
    AndLow(b, 7);
  }

  // ---------- one more byte ----------

  /** The byte word: one byte shifted in at the top. */
  lemma EncodedStep(d: Decoder, b: byte, w: uint64)
    requires |d.bytes| < 8 && !d.Complete() && w == EncodedWord(d)
    ensures ShiftLeft(b, 56) == b * COUNT_UNIT
    ensures BitOr(ShiftRight(w, 8), b * COUNT_UNIT) == Pack(d.bytes + [b]) * Pow256(7 - |d.bytes|)
  {
    hide BitOr, ShiftRight, Pow2, Pack;
    var k, p := |d.bytes|, Pack(d.bytes);
    PowersOfTwo();
    Pow256Constants();
    DropPadding(p, 7 - k, w);
    OrSymmetric(p * Pow256(7 - k), b * COUNT_UNIT);
    PackBelow(d.bytes, 7 - k);
    OrLow(b, 56, p * Pow256(7 - k));
    PackSnoc(d.bytes, b);
    Pow256Adds(k, 7 - k);
    Distribute(p, b, Pow256(k), Pow256(7 - k));
  }

  lemma DropPadding(p: nat, n: nat, w: nat)
    requires w == p * Pow256(n + 1)
    ensures ShiftRight(w, 8) == p * Pow256(n)
  {
    ShiftRightDivides(w, 8);
    PowersOfTwo();
    assert p * (256 * Pow256(n)) == (p * Pow256(n)) * 256;
    ModUnique(w, 256, p * Pow256(n), 0);
  }

  lemma PackBelow(bytes: seq<byte>, n: nat)
    ensures Pack(bytes) * Pow256(n) < Pow256(|bytes| + n)
  {
    hide Pack, Pow256;
    PackBound(bytes);
    Pow256Adds(|bytes|, n);
    Pow256Positive(n);
    MulLess(Pack(bytes), Pow256(|bytes|), Pow256(n));
  }

  lemma {:induction false} Pow256Grows(m: nat, n: nat)
    requires m <= n
    ensures Pow256(m) <= Pow256(n)
    decreases n
  {
    if m < n { Pow256Grows(m, n - 1); }
  }

  lemma {:induction false} Pow256Positive(n: nat)
    ensures Pow256(n) > 0
  {
    if n > 0 { Pow256Positive(n - 1); }
  }

  lemma Distribute(p: nat, b: nat, q: nat, r: nat)
    ensures (p + b * q) * r == p * r + b * (q * r)
  {
  }

  /** The final alignment takes the padding off again. */
  lemma EncodedAlign(bytes: seq<byte>, w: uint64)
    requires 0 < |bytes| <= 8 && w == Pack(bytes) * Pow256(8 - |bytes|)
    ensures ShiftRight(w, 8 * (8 - |bytes|)) == Pack(bytes)
  {
    ShiftRightDivides(w, 8 * (8 - |bytes|));
    Pow256IsPow2(8 - |bytes|);
    ModUnique(w, Pow2(8 * (8 - |bytes|)), Pack(bytes), 0);
  }

  /** Seven bits to the left, the old count is gone once bit 63 is cleared. */
  lemma CountShiftsOut(v: nat, n: nat)
    requires n < 8 && v < 0x2_0000_0000_0000
    ensures (v + n * COUNT_UNIT) * 128 % WORD_LIMIT % IS_COMPLETE_MASK == v * 128
  {
    ModUnique((v + n * COUNT_UNIT) * 128, WORD_LIMIT, n / 2, n % 2 * IS_COMPLETE_MASK + v * 128);
    ModUnique(n % 2 * IS_COMPLETE_MASK + v * 128, IS_COMPLETE_MASK, n % 2, v * 128);
  }

  lemma CountAndPayload(v: nat, n: nat, p: nat)
    requires n < 8 && v < 0x2_0000_0000_0000 && p < 128
    ensures BitOr(v * 128, (n + 1) * COUNT_UNIT) == v * 128 + (n + 1) * COUNT_UNIT
    ensures BitOr(v * 128 + (n + 1) * COUNT_UNIT, p) == v * 128 + (n + 1) * COUNT_UNIT + p
  {
    PowersOfTwo();
    OrSymmetric(v * 128, (n + 1) * COUNT_UNIT);
    OrLow(n + 1, 56, v * 128);
    OrLow(v + (n + 1) * 0x2_0000_0000_0000, 7, p);
  }

  /** The value word: seven bits shifted in, the count in bits 56 to 59 replaced. */
  lemma DecodedStep(d: Decoder, b: byte, w: uint64)
    requires |d.bytes| < 8 && !d.Complete() && !d.failed && w == DecodedWord(d, |d.bytes|)
    ensures var n := |d.bytes|; var v := Value(d.bytes);
      && BitAnd(ShiftLeft(w, 7), WORD_LIMIT - 1 - IS_COMPLETE_MASK) == v * 128
      && ShiftLeft(n + 1, 56) == (n + 1) * COUNT_UNIT
      && BitOr(v * 128, (n + 1) * COUNT_UNIT) == v * 128 + (n + 1) * COUNT_UNIT
      && BitOr(v * 128 + (n + 1) * COUNT_UNIT, Payload(b)) == Value(d.bytes + [b]) + (n + 1) * COUNT_UNIT
  {
    hide BitAnd, BitOr, Pow2;
    var n, v := |d.bytes|, Value(d.bytes);
    PowersOfTwo();
    ValueFits(d.bytes);
    ValueSnoc(d.bytes, b);
    AndLow(ShiftLeft(w, 7), 63);
    CountShiftsOut(v, n);
    CountAndPayload(v, n, Payload(b));
  }

  /** The count read while a prefix is open, and the word after a refused byte. */
  lemma OpenCount(d: Decoder, w: uint64)
    requires d.WellFormed() && d.Open() && w == DecodedWord(d, |d.bytes|)
    ensures ShiftRight(BitAnd(w, 0x0F00_0000_0000_0000), 56) == |d.bytes|
    ensures BitOr(w, IS_FAIL_MASK) == DecodedWord(d.(failed := true), |d.bytes|) < WORD_LIMIT
  {
    hide BitAnd, BitOr, ShiftRight, Value;
    ValueFits(d.bytes);
    CountBits(w);
    ModUnique(w, COUNT_UNIT, |d.bytes|, Value(d.bytes));
    FlagSteps(w);
  }

  /** The byte word after an accepted byte, as the code computes it. */
  lemma NextEncoded(d: Decoder, b: byte, w: uint64)
    requires d.WellFormed() && d.Takes(b) && w == EncodedWord(d)
    ensures var x := BitOr(ShiftRight(w, 8), ShiftLeft(b, 56));
      x < WORD_LIMIT && EncodedWord(d.Add(b)) == if Marked(b) then x else ShiftRight(x, 8 * (8 - |d.bytes| - 1))
  {
    hide BitOr, ShiftRight, ShiftLeft, Pack, Pow256;
    EncodedStep(d, b, w);
    PackFits(d.bytes + [b]);
    EncodedAlign(d.bytes + [b], BitOr(ShiftRight(w, 8), ShiftLeft(b, 56)));
  }

  /** The value word after an accepted byte, as the code computes it. */
  lemma NextDecoded(d: Decoder, b: byte, w: uint64)
    requires d.WellFormed() && d.Takes(b) && w == DecodedWord(d, |d.bytes|)
    ensures var n := |d.bytes|;
      var x0 := BitAnd(ShiftLeft(w, 7), WORD_LIMIT - 1 - IS_COMPLETE_MASK);
      && x0 < WORD_LIMIT
      && var x1 := BitOr(x0, ShiftLeft(n + 1, 56));
      && x1 < WORD_LIMIT
      && var x := BitOr(x1, Payload(b));
      && x < WORD_LIMIT
      && DecodedWord(d.Add(b), n + 1) == (if Marked(b) then x else BitOr(x, IS_COMPLETE_MASK)) < WORD_LIMIT
  {
    hide BitAnd, BitOr, ShiftLeft, Value;
    DecodedStep(d, b, w);
    ValueFits(d.bytes);
    ValueFits(d.bytes + [b]);
    FlagSteps(Value(d.bytes + [b]) + (|d.bytes| + 1) * COUNT_UNIT);
  }

  lemma FlagSteps(v: nat)
    requires v < IS_FAIL_MASK
    ensures BitOr(v, IS_COMPLETE_MASK) == v + IS_COMPLETE_MASK
    ensures BitOr(v, IS_FAIL_MASK) == v + IS_FAIL_MASK
  {
    PowersOfTwo();
    OrSymmetric(v, IS_COMPLETE_MASK);
    OrSymmetric(v, IS_FAIL_MASK);
    OrLow(1, 63, v);
    OrLow(1, 62, v);
  }

  // ---------- counting the bytes from the markers ----------

  /** The marker bits of the first `n` bytes of a word. */
  function MarkerMask(n: nat): nat { if n == 0 then 0 else 128 + 256 * MarkerMask(n - 1) }

  function Markers(bytes: seq<byte>): nat {
    if bytes == [] then 0 else (if Marked(bytes[0]) then 128 else 0) + 256 * Markers(bytes[1..])
  }

  lemma {:induction false} AndMarkers(bytes: seq<byte>, n: nat)
    requires |bytes| <= n
    ensures BitAnd(Pack(bytes), MarkerMask(n)) == Markers(bytes)
  {
    if bytes != [] {
      AndByteMask(Pack(bytes), MarkerMask(n - 1));
      ModUnique(Pack(bytes), 256, Pack(bytes[1..]), bytes[0]);
      HighBit(Pack(bytes), bytes[0], Pack(bytes[1..]));
      AndMarkers(bytes[1..], n - 1);
    }
  }

  lemma HighBit(x: nat, b: byte, y: nat)
    requires x == b + 256 * y
    ensures x / 128 % 2 == 1 <==> Marked(b)
  {
    ModUnique(x, 128, 2 * y + b / 128, b % 128);
  }

  lemma {:induction false} PrefixCodeMarkers(bytes: seq<byte>)
    requires IsPrefixCode(bytes)
    ensures Markers(bytes) == MarkerMask(|bytes| - 1)
  {
    if |bytes| > 1 {
      assert Marked(bytes[..|bytes| - 1][0]);
      assert bytes[1..][..|bytes| - 2] == bytes[..|bytes| - 1][1..];
      PrefixCodeMarkers(bytes[1..]);
    }
  }

  lemma {:induction false} PackPadded(n: nat, bytes: seq<byte>)
    ensures Pack(Zeros(n) + bytes) == Pack(bytes) * Pow256(n)
  {
    if n == 0 {
      assert Zeros(0) + bytes == bytes;
    } else {
      PackPadded(n - 1, bytes);
      Shift256(Pack(bytes), Pow256(n - 1));
      assert (Zeros(n) + bytes)[1..] == Zeros(n - 1) + bytes;
    }
  }

  lemma Shift256(p: nat, q: nat)
    ensures p * (256 * q) == 256 * (p * q)
  {
  }

  lemma MarkersPadded(n: nat, bytes: seq<byte>)
    requires n > 0
    ensures Markers(Zeros(n) + bytes) % 256 == 0
  {
    assert (Zeros(n) + bytes)[0] == 0;
  }

  lemma {:induction false} MarkersPositive(bytes: seq<byte>, i: nat)
    requires i < |bytes| && Marked(bytes[i])
    ensures Markers(bytes) > 0
  {
    if i > 0 { MarkersPositive(bytes[1..], i - 1); }
  }

  lemma MarkerMasks()
    ensures MarkerMask(1) == 0x80 && MarkerMask(2) == 0x8080 && MarkerMask(3) == 0x80_8080
    ensures MarkerMask(4) == 0x8080_8080 && MarkerMask(5) == 0x80_8080_8080
    ensures MarkerMask(6) == 0x8080_8080_8080 && MarkerMask(7) == 0x80_8080_8080_8080
    ensures MarkerMask(8) == 0x8080_8080_8080_8080
  {
    assert MarkerMask(4) == 0x8080_8080;
    assert MarkerMask(6) == 0x8080_8080_8080;
  }

  /** The marker bits of the byte word tell a complete prefix and its length from everything else. */
  lemma MarkersOfWord(d: Decoder, w: uint64)
    requires d.WellFormed() && w == EncodedWord(d)
    ensures var m := BitAnd(w, 0x8080_8080_8080_8080);
      if d.Complete() then m == MarkerMask(|d.bytes| - 1) else if d.bytes == [] then m == 0 else m % 256 == 0 && m > 0
  {
    hide BitAnd, MarkerMask, Markers, Zeros;
    MarkerMasks();
    if d.Complete() {
      AndMarkers(d.bytes, 8);
      PrefixCodeMarkers(d.bytes);
    } else if d.bytes == [] {
      AndMarkers([], 8);
      NoMarkers();
    } else {
      var padded := Zeros(8 - |d.bytes|) + d.bytes;
      PackPadded(8 - |d.bytes|, d.bytes);
      AndMarkers(padded, 8);
      MarkersPositive(padded, 7);
      MarkersPadded(8 - |d.bytes|, d.bytes);
    }
  }

  lemma NoMarkers()
    ensures Markers([]) == 0
  {
  }

  // ---------- encoding ----------

  lemma EncodeTests(v: uint64)
    ensures BitAnd(v, WORD_LIMIT - 1 - 0x7F) != 0 <==> v >= 128
    ensures BitAnd(v, 0x7F) == v % 128
    ensures ShiftRight(v, 7) == v / 128
    ensures BitOr(v % 128, 0x80) == v % 128 + 128
  {
    hide BitAnd, BitOr, ShiftRight, Pow2;
    PowersOfTwo();
    AndLow(v, 7);
    ShiftRightDivides(v, 7);
    AndHigh(v, 0x1FF_FFFF_FFFF_FFFF, 7);
    AndLow(v / 128, 57);
    OrSymmetric(v % 128, 0x80);
    OrLow(1, 7, v % 128);
  }

  lemma PushByte(suffix: seq<byte>, w: uint64, b: byte)
    requires |suffix| < 8 && w == Pack(suffix)
    ensures BitOr(ShiftLeft(w, 8), b) == Pack([b] + suffix) < WORD_LIMIT
  {
    hide BitOr, Pow2, Pow256;
    PowersOfTwo();
    Pow256Constants();
    PackBound([b] + suffix);
    Pow256Grows(|suffix| + 1, 8);
    assert ([b] + suffix)[1..] == suffix;
    OrLow(w, 8, b);
  }

  lemma EncodeFits(v: nat)
    requires v <= MAX_VALUE
    ensures |Encode(v)| <= MAX_BYTES
  {
    assert Pow128(4) == 0x1000_0000;
    assert Pow128(7) == 0x2_0000_0000_0000;
    DigitsLength(v, false, 8);
  }

  // ---------- the class ----------

  class VariableLengthSize {
    var encoded: uint64
    var decoded: uint64
    ghost var view: Decoder   // the bytes the two words stand for
    ghost var counted: bool   // whether they came in byte by byte, and so were counted

    ghost predicate Valid()
      reads this
    {
      && view.WellFormed()
      && (counted || view.Complete())
      && encoded == EncodedWord(view)
      && decoded == DecodedWord(view, if counted then |view.bytes| else 0)
    }

    constructor ()
      ensures Valid() && view == FRESH && counted
    {
      encoded, decoded := 0, 0;
      view, counted := FRESH, true;
    }

    /** Encodes `v`. Values out of range, negative ones included, leave the object empty. */
    constructor Of(v: int)
      requires -0x8000_0000_0000_0000 <= v < WORD_LIMIT
      ensures Valid()
      ensures view == if 0 <= v <= MAX_VALUE then Decoder(Encode(v), false) else FRESH
    {
      encoded, decoded := 0, 0;
      view, counted := FRESH, true;
      new;
      if 0 <= v <= MAX_VALUE {
        FlagSteps(v);
        decoded := BitOr(v, IS_COMPLETE_MASK);
        EncodeImpl(v);
        view, counted := Decoder(Encode(v), false), false;
        DigitsSpec(v, false);
        EncodeFits(v);
      }
    }

    method EncodeImpl(v: uint64)
      requires v <= MAX_VALUE && encoded == 0
      modifies this`encoded
      ensures encoded == Pack(Encode(v))
    {
      hide BitAnd, BitOr, ShiftRight, ShiftLeft, Pow2, Pow256;
      EncodeTests(v);
      if BitAnd(v, WORD_LIMIT - 1 - 0x7F) != 0 {
        EncodeFits(v);
        var current: uint64 := v;
        ghost var suffix: seq<byte> := [];
        while current != 0
          invariant current <= v
          invariant suffix == [] <==> current == v
          invariant Encode(v) == (if current == 0 then [] else Digits(current, suffix != [])) + suffix
          invariant encoded == Pack(suffix)
        {
          EncodeTests(current);
          ghost var b := current % 128 + (if suffix == [] then 0 else 128);
          PushByte(suffix, encoded, b);
          var chunk := BitAnd(current, 0x7F);
          if current != v {
            encoded := ShiftLeft(encoded, 8);
            encoded := BitOr(encoded, BitOr(chunk, 0x80));
          } else {
            OrZero(chunk);
            encoded := BitOr(encoded, chunk);
          }
          suffix := [b] + suffix;
          current := ShiftRight(current, 7);
        }
        assert [] + suffix == suffix;
      } else {
        encoded := v;
      }
    }

    predicate IsComplete()
      reads this
    {
      BitAnd(decoded, IS_COMPLETE_MASK) != 0
    }

    predicate Fail()
      reads this
    {
      BitAnd(decoded, IS_FAIL_MASK) != 0
    }

    function SizeValue(): nat
      reads this
    {
      if IsComplete() then BitAnd(decoded, 0xFF_FFFF_FFFF_FFFF) else INVALID_VALUE
    }

    /** What the three reads of the value word tell. */
    lemma Reads()
      requires Valid()
      ensures IsComplete() <==> view.Complete()
      ensures Fail() <==> view.failed
      ensures SizeValue() == view.Size()
    {
      hide BitAnd, Value;
      ValueFits(view.bytes);
      CompleteBit(decoded);
      FailBit(decoded);
      ValueBits(decoded);
    }

    /** The length of a complete prefix, read off the marker bits; zero while incomplete. */
    method BytesCount() returns (n: nat)
      requires Valid()
      ensures n == if view.Complete() then |view.bytes| else 0
    {
      MarkersOfWord(view, encoded);
      MarkerMasks();
      var markers := BitAnd(encoded, 0x8080_8080_8080_8080);
      if markers == 0 { Reads(); n := if IsComplete() then 1 else 0; }
      else if markers == 0x80 { n := 2; }
      else if markers == 0x8080 { n := 3; }
      else if markers == 0x80_8080 { n := 4; }
      else if markers == 0x8080_8080 { n := 5; }
      else if markers == 0x80_8080_8080 { n := 6; }
      else if markers == 0x8080_8080_8080 { n := 7; }
      else if markers == 0x80_8080_8080_8080 { n := 8; }
      else { n := 0; }
    }

    /** The bytes in memory: once complete, the first `BytesCount()` of them are the prefix. */
    function Bytes(n: nat): seq<byte>
      requires n <= 8
      reads this
    {
      Unpack(encoded, n)
    }

    lemma BytesAreThePrefix()
      requires Valid() && view.Complete()
      ensures Bytes(|view.bytes|) == view.bytes
    {
      UnpackPack(view.bytes);
    }

    method Reset()
      modifies this
      ensures Valid() && view == FRESH && counted
    {
      encoded, decoded := 0, 0;
      view, counted := FRESH, true;
    }

    method AddByte(b: byte) returns (taken: bool)
      requires Valid()
      modifies this
      ensures Valid() && counted == old(counted)
      ensures taken == old(view).Takes(b)
      ensures view == old(view).Add(b)
    {
      hide BitAnd, BitOr, ShiftRight, ShiftLeft, Pow2, Pack, Value, Pow256, DecodedWord, Payload, AllMarked,
        IsPrefixCode;
      Reads();
      if IsComplete() { return false; }
      if Fail() { return false; }

      AddKeepsWellFormed(view, b);
      OpenCount(view, decoded);
      ByteBits(b);
      var count := ShiftRight(BitAnd(decoded, 0x0F00_0000_0000_0000), 56);
      var shouldStop := BitAnd(b, 0x80) == 0;
      if count == 7 && !shouldStop {
        decoded := BitOr(decoded, IS_FAIL_MASK);
        view := view.Add(b);
        return false;
      }

      NextEncoded(view, b, encoded);
      NextDecoded(view, b, decoded);
      encoded := ShiftRight(encoded, 8);
      encoded := BitOr(encoded, ShiftLeft(b, 56));

      var chunk := BitAnd(b, 0x7F);
      decoded := ShiftLeft(decoded, 7);
      decoded := BitAnd(decoded, WORD_LIMIT - 1 - IS_COMPLETE_MASK);
      decoded := BitOr(decoded, ShiftLeft(count + 1, 56));
      decoded := BitOr(decoded, chunk);
      view := view.Add(b);
      if shouldStop {
        decoded := BitOr(decoded, IS_COMPLETE_MASK);
        encoded := ShiftRight(encoded, 8 * (8 - count - 1));
      }
      return true;
    }

    method AddBytes(data: seq<byte>) returns (n: nat)
      requires Valid()
      modifies this
      ensures Valid() && counted == old(counted)
      ensures n == old(view).Consumed(data)
      ensures view == old(view).AddAll(data)
    {
      n := 0;
      var more := n < |data|;
      while more
        invariant n <= |data| && Valid() && counted == old(counted)
        invariant more ==> n < |data|
        invariant old(view).Consumed(data) == n + (if more then view.Consumed(data[n..]) else 0)
        invariant old(view).AddAll(data) == if more then view.AddAll(data[n..]) else view
        decreases |data| - n, more
      {
        var taken := AddByte(data[n]);
        if taken {
          n := n + 1;
          more := n < |data|;
        } else {
          more := false;
        }
      }
    }
  }

  lemma OrZero(x: nat)
    ensures BitOr(0, x) == x
  {
  }

  lemma PackFits(bytes: seq<byte>)
    requires |bytes| <= 8
    ensures Pack(bytes) * Pow256(8 - |bytes|) < WORD_LIMIT
  {
    PackBelow(bytes, 8 - |bytes|);
    Pow256Constants();
  }

  // ---------- feeding bytes in any portions ----------

  /** Feeding two portions is feeding their concatenation, and a settled decoder never changes. */
  lemma {:induction false} AddAllInPortions(d: Decoder, a: seq<byte>, b: seq<byte>)
    ensures d.AddAll(a + b) == d.AddAll(a).AddAll(b)
    ensures !d.Open() ==> d.AddAll(b) == d && d.Consumed(b) == 0
    decreases |a|
  {
    if a == [] {
      assert a + b == b;
    } else {
      assert (a + b)[0] == a[0] && (a + b)[1..] == a[1..] + b;
      if d.Takes(a[0]) { AddAllInPortions(d.Add(a[0]), a[1..], b); }
    }
  }

  /** The first byte without marker among the first eight of `data` ends the prefix. */
  predicate EndsWithin(data: seq<byte>, n: nat) {
    exists i :: 0 <= i < n && i < |data| && !Marked(data[i])
  }

  lemma {:induction false} AddAllBytes(d: Decoder, data: seq<byte>)
    requires d.WellFormed()
    ensures d.AddAll(data).WellFormed()
    ensures d.AddAll(data).bytes == d.bytes + data[..d.Consumed(data)]
    decreases |data|
  {
    if data != [] {
      AddKeepsWellFormed(d, data[0]);
      if d.Takes(data[0]) {
        var d' := d.Add(data[0]);
        AddAllBytes(d', data[1..]);
        assert [data[0]] + data[1..][..d'.Consumed(data[1..])] == data[..d.Consumed(data)];
      }
    }
  }

  lemma {:induction false} AddAllOutcome(done: seq<byte>, rest: seq<byte>)
    requires AllMarked(done) && |done| < MAX_BYTES
    ensures var r := Decoder(done, false).AddAll(rest); var all := done + rest;
      && (r.failed <==> |all| >= MAX_BYTES && AllMarked(all[..MAX_BYTES]))
      && (r.Complete() <==> EndsWithin(all, MAX_BYTES))
    decreases |rest|
  {
    var d, all := Decoder(done, false), done + rest;
    if rest == [] {
      assert all == done;
    } else if d.Refuses(rest[0]) {
      assert all[..MAX_BYTES] == done + [rest[0]];
    } else {
      var b := rest[0];
      assert done + [b] + rest[1..] == all;
      if Marked(b) {
        AddAllOutcome(done + [b], rest[1..]);
      } else {
        AddAllInPortions(d.Add(b), [], rest[1..]);
        EndsAt(all, |done|);
      }
    }
  }

  lemma EndsAt(data: seq<byte>, i: nat)
    requires i < MAX_BYTES && i < |data| && !Marked(data[i])
    ensures EndsWithin(data, MAX_BYTES)
    ensures |data| >= MAX_BYTES ==> !AllMarked(data[..MAX_BYTES])
  {
    if |data| >= MAX_BYTES { assert data[..MAX_BYTES][i] == data[i]; }
  }

  /** What any byte sequence makes of a fresh decoder. */
  lemma AfterAnyBytes(data: seq<byte>)
    ensures var d := FRESH.AddAll(data);
      && d.WellFormed()
      && d.bytes == data[..FRESH.Consumed(data)]
      && (d.failed <==> |data| >= MAX_BYTES && AllMarked(data[..MAX_BYTES]))
      && (d.Complete() <==> EndsWithin(data, MAX_BYTES))
      && forall more :: !d.Open() ==> d.AddAll(more) == d
  {
    assert [] + data == data;
    AddAllBytes(FRESH, data);
    AddAllOutcome([], data);
    var d := FRESH.AddAll(data);
    forall more | !d.Open() ensures d.AddAll(more) == d {
      AddAllInPortions(d, [], more);
    }
  }

  // ---------- the round trip ----------

  /** Any prefix code, followed by anything, is decoded to itself and nothing more is consumed. */
  lemma {:induction false} DecodesPrefix(done: seq<byte>, rest: seq<byte>, suffix: seq<byte>)
    requires rest != [] && IsPrefixCode(done + rest) && |done + rest| <= MAX_BYTES && AllMarked(done)
    ensures Decoder(done, false).AddAll(rest + suffix) == Decoder(done + rest, false)
    ensures Decoder(done, false).Consumed(rest + suffix) == |rest|
    decreases |rest|
  {
    var d, code := Decoder(done, false), done + rest;
    var b := rest[0];
    assert code[|done|] == b;
    assert (rest + suffix)[1..] == rest[1..] + suffix;
    assert done + [b] + rest[1..] == code;
    if |rest| > 1 {
      assert code[..|code| - 1][|done|] == b;
      DecodesPrefix(done + [b], rest[1..], suffix);
    } else {
      assert code == done + [b];
      var d' := Decoder(done + [b], false);
      assert d'.Complete();
      assert d.Add(b) == d';
      assert rest[1..] + suffix == suffix;
    }
  }

  /** Decoding the bytes of an encoded value followed by anything gives that value back. */
  lemma RoundTrip(v: nat, suffix: seq<byte>)
    requires v <= MAX_VALUE
    ensures var d := FRESH.AddAll(Encode(v) + suffix);
      d == Decoder(Encode(v), false) && d.Complete() && d.Size() == v
    ensures FRESH.Consumed(Encode(v) + suffix) == |Encode(v)|
  {
    DigitsSpec(v, false);
    EncodeFits(v);
    assert [] + Encode(v) == Encode(v);
    DecodesPrefix([], Encode(v), suffix);
  }
}
