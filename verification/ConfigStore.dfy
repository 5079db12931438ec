// The CRC-guarded configuration record of ev-sdk/common/storage/sm_ev_storage.c:
// magic number, CRC and payload, written to flash in whole blocks.
module ConfigStore {
  import opened Arithmetic
  import opened Crc16
  import opened Words

  const MAGIC: Byte := 0x5A
  const HEADER: nat := 6

  // ----- the record -----------------------------------------------------------------------

  /** A uint16_t in memory order, low byte first. */
  function LittleEndian(w: Word): (b: seq<Byte>)
    ensures |b| == 2
  {
    [ByteOf(w[8..]), ByteOf(w[..8])]
  }

  function GetUint16(lo: Byte, hi: Byte): Word {
    BitsOfByte(hi) + BitsOfByte(lo)
  }

  lemma LittleEndianExact(w: Word)
    ensures GetUint16(LittleEndian(w)[0], LittleEndian(w)[1]) == w
  {
    ByteOfBits(w[8..]);
    ByteOfBits(w[..8]);
    assert w[..8] + w[8..] == w;
  }

  /** Magic number, CRC, payload; `padding` fills the last block. */
  function Encode(config: seq<Byte>, padding: seq<Byte>): (bytes: seq<Byte>)
    ensures |bytes| == HEADER + |config| + |padding|
  {
    [MAGIC, MAGIC, MAGIC, MAGIC] + LittleEndian(Crc(config)) + config + padding
  }

  datatype Loaded = NotInitialised | Invalid(config: seq<Byte>) | Valid(config: seq<Byte>)

  /** What a load makes of the bytes in flash. */
  function Decode(bytes: seq<Byte>, size: nat): Loaded
    requires |bytes| >= HEADER + size
  {
    var payload := bytes[HEADER..HEADER + size];
    if bytes[..4] != [MAGIC, MAGIC, MAGIC, MAGIC] then NotInitialised
    else if GetUint16(bytes[4], bytes[5]) != Crc(payload) then Invalid(payload)
    else Valid(payload)
  }

  lemma EncodeParts(config: seq<Byte>, padding: seq<Byte>)
    ensures var b := Encode(config, padding);
      && b[..4] == [0x5A, 0x5A, 0x5A, 0x5A] && b[6..6 + |config|] == config && b[6 + |config|..] == padding
      && GetUint16(b[4], b[5]) == Crc(config)
  {
    hide Crc, LittleEndian, GetUint16;
    LittleEndianExact(Crc(config));
    var b, crc := Encode(config, padding), LittleEndian(Crc(config));
    assert b[4] == crc[0] && b[5] == crc[1];
  }

  /** Loading what was stored returns it. */
  lemma StoreThenLoad(config: seq<Byte>, padding: seq<Byte>)
    ensures Decode(Encode(config, padding), |config|) == Valid(config)
  {
    hide Crc, LittleEndian, GetUint16, Encode;
    EncodeParts(config, padding);
  }

  lemma ByteBits(b: Byte)
    ensures ByteOf(BitsOfByte(b)) == b
  {
  }

  lemma LittleEndianInverse(lo: Byte, hi: Byte)
    ensures LittleEndian(GetUint16(lo, hi)) == [lo, hi]
  {
    ByteBits(lo);
    ByteBits(hi);
    var w := GetUint16(lo, hi);
    assert w[..8] == BitsOfByte(hi) && w[8..] == BitsOfByte(lo);
  }

  /** A load accepts nothing but the record of the configuration that it returns. */
  lemma AcceptedExactly(bytes: seq<Byte>, config: seq<Byte>)
    requires |bytes| >= HEADER + |config|
    ensures Decode(bytes, |config|) == Valid(config) <==> exists padding :: bytes == Encode(config, padding)
  {
    hide Crc, LittleEndian, GetUint16, Encode;
    var padding := bytes[HEADER + |config|..];
    if Decode(bytes, |config|) == Valid(config) {
      LittleEndianInverse(bytes[4], bytes[5]);
      assert [bytes[4], bytes[5]] == LittleEndian(Crc(config));
      RecordBytes(bytes, config);
    }
    forall p | bytes == Encode(config, p)
      ensures Decode(bytes, |config|) == Valid(config)
    {
      StoreThenLoad(config, p);
    }
  }

  lemma RecordBytes(bytes: seq<Byte>, config: seq<Byte>)
    requires |bytes| >= HEADER + |config| && bytes[..4] == [MAGIC, MAGIC, MAGIC, MAGIC]
    requires [bytes[4], bytes[5]] == LittleEndian(Crc(config)) && bytes[HEADER..HEADER + |config|] == config
    ensures bytes == Encode(config, bytes[HEADER + |config|..])
  {
    hide Crc, LittleEndian;
    var n := HEADER + |config|;
    assert bytes[..6] == bytes[..4] + [bytes[4], bytes[5]];
    assert bytes == bytes[..6] + bytes[6..n] + bytes[n..];
  }

  /** `bytes` is a stored record whose payload has been changed to `payload`, and nothing else of it. */
  ghost predicate PayloadChanged(bytes: seq<Byte>, config: seq<Byte>, padding: seq<Byte>, payload: seq<Byte>) {
    && |payload| == |config| && |bytes| == HEADER + |config| + |padding|
    && bytes[..HEADER] == Encode(config, padding)[..HEADER]
    && bytes[HEADER..HEADER + |config|] == payload
  }

  /** A changed payload is accepted only if its CRC is that of the stored one. */
  lemma ChangedPayload(bytes: seq<Byte>, config: seq<Byte>, padding: seq<Byte>, payload: seq<Byte>)
    requires PayloadChanged(bytes, config, padding, payload)
    ensures Decode(bytes, |config|) == if Crc(payload) == Crc(config) then Valid(payload) else Invalid(payload)
  {
    hide Crc, LittleEndian, GetUint16, Encode;
    EncodeParts(config, padding);
    var e := Encode(config, padding);
    assert bytes[..4] == bytes[..HEADER][..4] == e[..HEADER][..4] == e[..4];
    assert bytes[4] == bytes[..HEADER][4] == e[4] && bytes[5] == bytes[..HEADER][5] == e[5];
  }

  /** After a store, any change of the payload confined to 16 consecutive bits is reported as invalid. */
  lemma BurstReported(bytes: seq<Byte>, config: seq<Byte>, padding: seq<Byte>, payload: seq<Byte>, p: nat)
    requires PayloadChanged(bytes, config, padding, payload)
    requires DifferInBurst(BitsOf(config), BitsOf(payload), p)
    ensures Decode(bytes, |config|) == Invalid(payload)
  {
    hide Crc, Encode, Decode, BitsOf;
    ChangedPayload(bytes, config, padding, payload);
    BurstDetected(config, payload, p);
  }

  /** So is a change of any odd number of payload bits. */
  lemma OddReported(bytes: seq<Byte>, config: seq<Byte>, padding: seq<Byte>, payload: seq<Byte>)
    requires PayloadChanged(bytes, config, padding, payload)
    requires Odd(Xor(BitsOf(config), BitsOf(payload)))
    ensures Decode(bytes, |config|) == Invalid(payload)
  {
    hide Crc, Encode, Decode, BitsOf;
    ChangedPayload(bytes, config, padding, payload);
    OddErrorDetected(config, payload);
  }

  // ----- errors anywhere in the record -----------------------------------------------------

  /** The CRCs of two payloads differ by what their difference leaves in a zero register. */
  lemma CrcDifference(a: seq<Byte>, b: seq<Byte>)
    requires |a| == |b|
    ensures Xor(Crc(a), Crc(b)) == CrcBits(Zeros(16), Xor(BitsOf(a), BitsOf(b)))
  {
    hide CrcBits, BitsOf, Xor;
    CrcLinear(INIT_VALUE, INIT_VALUE, BitsOf(a), BitsOf(b));
    XorZero(INIT_VALUE, INIT_VALUE);
  }

  lemma SameDifference(a: Word, b: Word, c: Word)
    ensures Xor(a, c) == Xor(b, c) <==> a == b
  {
    if Xor(a, c) == Xor(b, c) {
      forall i | 0 <= i < 16 ensures a[i] == b[i] { assert Xor(a, c)[i] == Xor(b, c)[i]; }
    }
  }

  /** An error behind the header is an error of the payload. */
  lemma BurstBehind(h: Bits, a: Bits, b: Bits, p: nat)
    requires |a| == |b| && DifferInBurst(h + a, h + b, p)
    ensures DifferInBurst(a, b, if p < |h| then 0 else p - |h|)
  {
    forall i | 0 <= i < |a| && a[i] != b[i]
      ensures p <= |h| + i < p + 16
    {
      assert (h + a)[|h| + i] == a[i] && (h + b)[|h| + i] == b[i];
    }
  }

  lemma BurstBehindHeader(head: seq<Byte>, a: seq<Byte>, b: seq<Byte>, p: nat)
    requires |head| == HEADER && |a| == |b| && DifferInBurst(BitsOf(head + a), BitsOf(head + b), p)
    ensures DifferInBurst(BitsOf(a), BitsOf(b), if p < 8 * HEADER then 0 else p - 8 * HEADER)
  {
    hide BitsOf, DifferInBurst;
    BitsOfAppend(head, a);
    BitsOfAppend(head, b);
    BurstBehind(BitsOf(head), BitsOf(a), BitsOf(b), p);
  }

  lemma SameByte(a: Byte, b: Byte)
    requires BitsOfByte(a) == BitsOfByte(b)
    ensures a == b
  {
    var x, y := BitsOfByte(a), BitsOfByte(b);
    assert x[0] == y[0] && x[1] == y[1] && x[2] == y[2] && x[3] == y[3];
    assert x[4] == y[4] && x[5] == y[5] && x[6] == y[6] && x[7] == y[7];
  }

  /** The CRC bytes can be read off the word. */
  lemma CrcBytes(lo: Byte, hi: Byte, lo2: Byte, hi2: Byte)
    requires GetUint16(lo, hi) == GetUint16(lo2, hi2)
    ensures lo == lo2 && hi == hi2
  {
    hide BitsOfByte;
    assert BitsOfByte(hi) == GetUint16(lo, hi)[..8] && BitsOfByte(hi2) == GetUint16(lo2, hi2)[..8];
    assert BitsOfByte(lo) == GetUint16(lo, hi)[8..] && BitsOfByte(lo2) == GetUint16(lo2, hi2)[8..];
    SameByte(lo, lo2);
    SameByte(hi, hi2);
  }

  lemma XorSwap(a: Bits, b: Bits)
    requires |a| == |b|
    ensures Xor(a, b) == Xor(b, a)
  {
  }

  /** A change inside 16 consecutive bits anywhere in the record is accepted only if it changes both the CRC and the
      payload, and then exactly if the two changes fit each other; this depends on the change alone. */
  lemma RecordBurst(bytes: seq<Byte>, config: seq<Byte>, padding: seq<Byte>, p: nat)
    requires |bytes| == HEADER + |config| + |padding|
    requires var n := HEADER + |config|; DifferInBurst(BitsOf(Encode(config, padding)[..n]), BitsOf(bytes[..n]), p)
    ensures var e, payload := Encode(config, padding), bytes[HEADER..HEADER + |config|];
      && (bytes[..4] != e[..4] ==> Decode(bytes, |config|) == NotInitialised)
      && (Decode(bytes, |config|).Valid? <==>
          (bytes[..4] == e[..4]
           && Xor(GetUint16(bytes[4], bytes[5]), Crc(config)) ==
             CrcBits(Zeros(16), Xor(BitsOf(config), BitsOf(payload)))))
      && (Decode(bytes, |config|).Valid? ==> bytes[4..HEADER] != e[4..HEADER] && payload != config)
  {
    hide Crc, CrcBits, LittleEndian, GetUint16, Encode, BitsOf, Xor, DifferInBurst;
    EncodeParts(config, padding);
    var e, payload, n := Encode(config, padding), bytes[HEADER..HEADER + |config|], HEADER + |config|;
    CrcDifference(payload, config);
    XorSwap(BitsOf(payload), BitsOf(config));
    SameDifference(GetUint16(bytes[4], bytes[5]), Crc(payload), Crc(config));
    assert e[..n] == e[..HEADER] + config && bytes[..n] == bytes[..HEADER] + payload;
    assert bytes[..HEADER] == bytes[..4] + bytes[4..HEADER] && e[..HEADER] == e[..4] + e[4..HEADER];
    if GetUint16(bytes[4], bytes[5]) == GetUint16(e[4], e[5]) { CrcBytes(bytes[4], bytes[5], e[4], e[5]); }
    assert bytes[4..HEADER] == [bytes[4], bytes[5]] && e[4..HEADER] == [e[4], e[5]];
    if bytes[..HEADER] == e[..HEADER] {
      BurstBehindHeader(e[..HEADER], config, payload, p);
      BurstReported(bytes, config, padding, payload, if p < 8 * HEADER then 0 else p - 8 * HEADER);
    }
  }

  /** A byte is shifted in as eight steps of the register with the byte at its top. */
  lemma ByteInput(r: Word, b: Byte)
    ensures CrcBits(r, BitsOfByte(b)) == ShiftByte(Xor(r, BitsOfByte(b) + Zeros(8)))
  {
    hide CrcBits, ShiftByte, Xor, Zeros, BitsOfByte;
    InputAtOnce(r, BitsOfByte(b));
    EightSteps(Xor(r, BitsOfByte(b) + Zeros(8)));
  }

  /** `n` zero bytes shifted in. */
  function ShiftMany(w: bv16, n: nat): bv16
    decreases n
  {
    if n == 0 then w else ShiftMany(Shift16(w), n - 1)
  }

  lemma ShiftOne(w: bv16, next: bv16, n: nat)
    requires Shift16(w) == next
    ensures ShiftMany(w, n + 1) == ShiftMany(next, n)
  {
    hide Shift16;
  }

  lemma NoBits(r: Word)
    ensures CrcBits(r, Zeros(8 * 0)) == r
  {
  }

  lemma ZeroByte()
    ensures BitsOfByte(0x00) == Zeros(8)
  {
  }

  lemma {:induction false} ZeroBytes(w: bv16, n: nat)
    ensures CrcBits(WordOf(w), Zeros(8 * n)) == WordOf(ShiftMany(w, n))
    decreases n
  {
    hide CrcBits, ShiftByte, Xor, Shift16, WordOf, BitsOfByte;
    if n == 0 {
      NoBits(WordOf(w));
    } else {
      ZeroByte();
      assert Zeros(8 * n) == Zeros(8) + Zeros(8 * (n - 1));
      CrcBitsAppend(WordOf(w), Zeros(8), Zeros(8 * (n - 1)));
      ByteInput(WordOf(w), 0x00);
      assert Zeros(8) + Zeros(8) == Zeros(16);
      XorZero(WordOf(w), WordOf(w));
      ShiftOfWord(w);
      ZeroBytes(Shift16(w), n - 1);
    }
  }

  lemma CrossingBytes(x: bv16, w: bv16)
    requires x == Shift16(0x1900) ^ 0xC000 && w == Shift16(x)
    ensures WordOf(0x1900) == BitsOfByte(0x19) + Zeros(8)
    ensures Xor(WordOf(Shift16(0x1900)), BitsOfByte(0xC0) + Zeros(8)) == WordOf(x)
    ensures w == 0x60A7 && WordOf(0x0100) == BitsOfByte(0x01) + BitsOfByte(0x00)
  {
    assert Shift16(0x1900) == 0x8318 && x == 0x4318;
  }

  lemma CrossingStart()
    ensures CrcBits(Zeros(16), BitsOfByte(0x19) + BitsOfByte(0xC0)) == WordOf(0x60A7)
  {
    hide CrcBits, ShiftByte, Xor, Shift16, WordOf, BitsOfByte;
    var x: bv16 := Shift16(0x1900) ^ 0xC000;
    CrossingBytes(x, Shift16(x));
    CrcBitsAppend(Zeros(16), BitsOfByte(0x19), BitsOfByte(0xC0));
    ByteInput(Zeros(16), 0x19);
    ByteInput(WordOf(Shift16(0x1900)), 0xC0);
    XorSwap(Zeros(16), WordOf(0x1900));
    XorZero(WordOf(0x1900), WordOf(0x1900));
    ShiftOfWord(0x1900);
    ShiftOfWord(x);
  }

  const CROSSING_SIZE: nat := 48

  lemma CrossingChain1()
    ensures ShiftMany(0x60A7, 46) == ShiftMany(0xB98D, 34)
  {
    hide ShiftMany;
    ShiftOne(0x60A7, 0xCBA6, 45); ShiftOne(0xCBA6, 0xCE27, 44); ShiftOne(0xCE27, 0x1F82, 43);
    ShiftOne(0x1F82, 0x61DE, 42); ShiftOne(0x61DE, 0xA287, 41); ShiftOne(0xA287, 0x12A8, 40);
    ShiftOne(0x12A8, 0x9A73, 39); ShiftOne(0x9A73, 0x51F3, 38); ShiftOne(0x51F3, 0xB9D4, 37);
    ShiftOne(0xB9D4, 0xE2F2, 36); ShiftOne(0xE2F2, 0x2F6C, 35); ShiftOne(0x2F6C, 0xB98D, 34);
  }

  lemma CrossingChain2()
    ensures ShiftMany(0xB98D, 34) == ShiftMany(0x49A6, 22)
  {
    hide ShiftMany;
    ShiftOne(0xB98D, 0xBBF2, 33); ShiftOne(0xBBF2, 0xE4B0, 32); ShiftOne(0xE4B0, 0x0DAA, 31);
    ShiftOne(0x0DAA, 0x7BAD, 30); ShiftOne(0x7BAD, 0x62FC, 29); ShiftOne(0x62FC, 0xB0E4, 28);
    ShiftOne(0xB0E4, 0x43DB, 27); ShiftOne(0x43DB, 0xA3A7, 26); ShiftOne(0xA3A7, 0x2289, 25);
    ShiftOne(0x2289, 0x8D20, 24); ShiftOne(0x8D20, 0x6025, 23); ShiftOne(0x6025, 0x49A6, 22);
  }

  lemma CrossingChain3()
    ensures ShiftMany(0x49A6, 22) == ShiftMany(0x17B9, 10)
  {
    hide ShiftMany;
    ShiftOne(0x49A6, 0x7FED, 21); ShiftOne(0x7FED, 0x6278, 20); ShiftOne(0x6278, 0x34E4, 19);
    ShiftOne(0x34E4, 0x92D7, 18); ShiftOne(0x92D7, 0x74FB, 17); ShiftOne(0x74FB, 0xC513, 16);
    ShiftOne(0xC513, 0x9AE9, 15); ShiftOne(0x9AE9, 0xCBF3, 14); ShiftOne(0xCBF3, 0x9B27, 13);
    ShiftOne(0x9B27, 0x15D2, 12); ShiftOne(0x15D2, 0x9094, 11); ShiftOne(0x9094, 0x17B9, 10);
  }

  lemma CrossingChain4()
    ensures ShiftMany(0x17B9, 10) == ShiftMany(0x0100, 0)
  {
    hide ShiftMany;
    ShiftOne(0x17B9, 0xDBD6, 9); ShiftOne(0xDBD6, 0xAC16, 8); ShiftOne(0xAC16, 0x6266, 7);
    ShiftOne(0x6266, 0x2AE4, 6); ShiftOne(0x2AE4, 0x6128, 5); ShiftOne(0x6128, 0x5487, 4);
    ShiftOne(0x5487, 0x9D71, 3); ShiftOne(0x9D71, 0x2314, 2); ShiftOne(0x2314, 0x0001, 1);
    ShiftOne(0x0001, 0x0100, 0);
  }

  lemma ShiftNone(w: bv16)
    ensures ShiftMany(w, 0) == w
  {
  }

  lemma CrossingChain()
    ensures ShiftMany(0x60A7, CROSSING_SIZE - 2) == 0x0100
  {
    hide ShiftMany;
    CrossingChain1();
    CrossingChain2();
    CrossingChain3();
    CrossingChain4();
    ShiftNone(0x0100);
  }

  /** The error in the first two of 48 bytes leaves one bit in the register, the last but eight. */
  lemma CrossingWord()
    ensures CrcBits(Zeros(16), BitsOfByte(0x19) + BitsOfByte(0xC0) + Zeros(8 * (CROSSING_SIZE - 2)))
      == BitsOfByte(0x01) + BitsOfByte(0x00)
  {
    hide CrcBits, WordOf, BitsOfByte, Shift16, ShiftMany, Xor;
    CrossingStart();
    CrcBitsAppend(Zeros(16), BitsOfByte(0x19) + BitsOfByte(0xC0), Zeros(8 * (CROSSING_SIZE - 2)));
    ZeroBytes(0x60A7, CROSSING_SIZE - 2);
    CrossingChain();
    var x: bv16 := Shift16(0x1900) ^ 0xC000;
    CrossingBytes(x, Shift16(x));
  }

  /** A byte with the bits of `mask` inverted. */
  function Flip(b: Byte, mask: Byte): (f: Byte)
    ensures BitsOfByte(f) == Xor(BitsOfByte(b), BitsOfByte(mask))
  {
    ByteOfBits(Xor(BitsOfByte(b), BitsOfByte(mask)));
    ByteOf(Xor(BitsOfByte(b), BitsOfByte(mask)))
  }

  lemma TwoBytes(a: Byte, b: Byte)
    ensures BitsOf([a, b]) == BitsOfByte(a) + BitsOfByte(b)
  {
    var first: seq<Byte>, second: seq<Byte> := [a], [b];
    assert first + second == [a, b];
    BitsOfAppend(first, second);
    BitsOfSingle(a);
    BitsOfSingle(b);
  }

  lemma XorParts(a: Bits, b: Bits, c: Bits, d: Bits)
    requires |a| == |c| && |b| == |d|
    ensures Xor(a + b, c + d) == Xor(a, c) + Xor(b, d)
  {
  }

  lemma XorBack(a: Bits, m: Bits)
    requires |a| == |m|
    ensures Xor(Xor(a, m), a) == m && Xor(a, a) == Zeros(|a|)
  {
  }

  lemma BitsOfFirst(bytes: seq<Byte>)
    requires |bytes| >= 2
    ensures BitsOf(bytes) == BitsOfByte(bytes[0]) + BitsOfByte(bytes[1]) + BitsOf(bytes[2..])
  {
    hide BitsOfByte, BitsOf;
    var first: seq<Byte> := [bytes[0], bytes[1]];
    assert bytes == first + bytes[2..];
    BitsOfAppend(first, bytes[2..]);
    TwoBytes(bytes[0], bytes[1]);
  }

  /** The CRCs of a payload and of the same with the error in its first two bytes differ by the error in the CRC. */
  lemma CrossingError(was: seq<Byte>, now: seq<Byte>, lo: Byte, hi: Byte)
    requires |was| == CROSSING_SIZE && now == [Flip(was[0], 0x19), Flip(was[1], 0xC0)] + was[2..]
    requires GetUint16(lo, hi) == Crc(was)
    ensures GetUint16(lo, Flip(hi, 0x01)) == Crc(now)
  {
    hide Crc, BitsOf, Xor, BitsOfByte, Flip, CrcBits, Zeros;
    assert now[2..] == was[2..];
    BitsOfFirst(was);
    BitsOfFirst(now);
    CrcDifference(now, was);
    var rest := BitsOf(was[2..]);
    var a, b := BitsOfByte(was[0]), BitsOfByte(was[1]);
    XorParts(Xor(a, BitsOfByte(0x19)) + Xor(b, BitsOfByte(0xC0)), rest, a + b, rest);
    XorParts(Xor(a, BitsOfByte(0x19)), Xor(b, BitsOfByte(0xC0)), a, b);
    XorBack(a, BitsOfByte(0x19));
    XorBack(b, BitsOfByte(0xC0));
    XorBack(rest, rest);
    CrossingWord();
    XorParts(Xor(BitsOfByte(hi), BitsOfByte(0x01)), BitsOfByte(lo), BitsOfByte(hi), BitsOfByte(lo));
    XorBack(BitsOfByte(hi), BitsOfByte(0x01));
    XorBack(BitsOfByte(lo), BitsOfByte(lo));
    ZeroByte();
    SameDifference(GetUint16(lo, Flip(hi, 0x01)), Crc(now), Crc(was));
  }

  lemma ThreeBytes(head: seq<Byte>, a: Byte, b: Byte, c: Byte, rest: seq<Byte>)
    ensures BitsOf(head + [a, b, c] + rest)
      == BitsOf(head) + (BitsOfByte(a) + BitsOfByte(b) + BitsOfByte(c)) + BitsOf(rest)
  {
    hide BitsOfByte;
    var two: seq<Byte>, last: seq<Byte> := [a, b], [c];
    assert [a, b, c] == two + last;
    BitsOfAppend(head + [a, b, c], rest);
    BitsOfAppend(head, [a, b, c]);
    BitsOfAppend(two, last);
    TwoBytes(a, b);
    BitsOfSingle(c);
  }

  /** A difference inside a window of the middle part is one inside the same window of the whole. */
  lemma WindowBurst(h: Bits, x: Bits, y: Bits, c: Bits, p: nat)
    requires DifferInBurst(x, y, p)
    ensures DifferInBurst(h + x + c, h + y + c, |h| + p)
  {
    var a, b := h + x + c, h + y + c;
    var i :| 0 <= i < |x| && x[i] != y[i];
    assert a[|h| + i] == x[i] && b[|h| + i] == y[i];
    forall j | 0 <= j < |a| && a[j] != b[j]
      ensures |h| + p <= j < |h| + p + 16
    {
      if |h| <= j < |h| + |x| { assert a[j] == x[j - |h|] && b[j] == y[j - |h|]; }
    }
  }

  lemma XorThree(a: Bits, b: Bits, c: Bits, l: Bits, m: Bits, n: Bits)
    requires |a| == |l| && |b| == |m| && |c| == |n|
    ensures Xor(a, l) + Xor(b, m) + Xor(c, n) == Xor(a + b + c, l + m + n)
  {
  }

  lemma MaskBits()
    ensures var m := BitsOfByte(0x01) + BitsOfByte(0x19) + BitsOfByte(0xC0);
      m[7] && forall i :: 0 <= i < 24 && m[i] ==> 7 <= i < 23
  {
  }

  /** The three error bytes: the last bit of the first, bits 3, 4 and 7 of the second, bits 0 and 1 of the third. */
  lemma CrossingWindow(a: Byte, b: Byte, c: Byte)
    ensures DifferInBurst(BitsOfByte(a) + BitsOfByte(b) + BitsOfByte(c),
                          BitsOfByte(Flip(a, 0x01)) + BitsOfByte(Flip(b, 0x19)) + BitsOfByte(Flip(c, 0xC0)), 7)
  {
    hide Flip;
    var x := BitsOfByte(a) + BitsOfByte(b) + BitsOfByte(c);
    var m := BitsOfByte(0x01) + BitsOfByte(0x19) + BitsOfByte(0xC0);
    var y := BitsOfByte(Flip(a, 0x01)) + BitsOfByte(Flip(b, 0x19)) + BitsOfByte(Flip(c, 0xC0));
    MaskBits();
    XorThree(BitsOfByte(a), BitsOfByte(b), BitsOfByte(c), BitsOfByte(0x01), BitsOfByte(0x19), BitsOfByte(0xC0));
    hide BitsOfByte;
    assert y == Xor(x, m);
    assert x[7] != y[7];
  }

  lemma FlipDiffers(b: Byte)
    ensures Flip(b, 0x19) != b
  {
    assert BitsOfByte(Flip(b, 0x19))[3] != BitsOfByte(b)[3];
  }

  lemma CrossingBurst(head: seq<Byte>, a: Byte, b: Byte, c: Byte, rest: seq<Byte>)
    requires |head| == 5
    ensures DifferInBurst(BitsOf(head + [a, b, c] + rest),
                          BitsOf(head + [Flip(a, 0x01), Flip(b, 0x19), Flip(c, 0xC0)] + rest), 47)
  {
    hide BitsOf, Flip, DifferInBurst, BitsOfByte;
    ThreeBytes(head, a, b, c, rest);
    ThreeBytes(head, Flip(a, 0x01), Flip(b, 0x19), Flip(c, 0xC0), rest);
    CrossingWindow(a, b, c);
    WindowBurst(BitsOf(head), BitsOfByte(a) + BitsOfByte(b) + BitsOfByte(c),
                BitsOfByte(Flip(a, 0x01)) + BitsOfByte(Flip(b, 0x19)) + BitsOfByte(Flip(c, 0xC0)), BitsOf(rest), 7);
  }

  /** There are such changes: in every record with a 48-byte payload, the size of the option record, this change of the
      last bit of the CRC bytes and of the payload bits 3, 4, 7, 8 and 9 is accepted. */
  lemma BurstAcrossAccepted(config: seq<Byte>, padding: seq<Byte>)
    requires |config| == CROSSING_SIZE
    ensures var e, n := Encode(config, padding), HEADER + CROSSING_SIZE;
      var bytes := e[5 := Flip(e[5], 0x01)][6 := Flip(e[6], 0x19)][7 := Flip(e[7], 0xC0)];
      && DifferInBurst(BitsOf(e[..n]), BitsOf(bytes[..n]), 47)
      && bytes[HEADER..n] != config && Decode(bytes, CROSSING_SIZE) == Valid(bytes[HEADER..n])
  {
    hide Crc, LittleEndian, GetUint16, BitsOf, Flip, DifferInBurst, Encode;
    EncodeParts(config, padding);
    var e, n := Encode(config, padding), HEADER + CROSSING_SIZE;
    var bytes := e[5 := Flip(e[5], 0x01)][6 := Flip(e[6], 0x19)][7 := Flip(e[7], 0xC0)];
    var payload := bytes[HEADER..n];
    assert bytes[..4] == e[..4] && e[HEADER..n] == config;
    assert payload == [Flip(config[0], 0x19), Flip(config[1], 0xC0)] + config[2..];
    CrossingError(config, payload, e[4], e[5]);
    FlipDiffers(e[6]);
    assert e[..n] == e[..5] + [e[5], e[6], e[7]] + e[8..n];
    assert bytes[..n] == e[..5] + [bytes[5], bytes[6], bytes[7]] + e[8..n];
    CrossingBurst(e[..5], e[5], e[6], e[7], e[8..n]);
  }

  // ----- the store ----------------------------------------------------------------------------

  lemma Rounding(total: nat, block: nat)
    requires block > 0
    ensures (total / block) * block % block == 0 && (total / block + 1) * block % block == 0
    ensures total == (total / block) * block + total % block
    ensures (total / block + 1) * block == (total / block) * block + block
  {
    MultipleOf(total / block, block);
    MultipleOf(total / block + 1, block);
    assert (total / block + 1) * block == (total / block) * block + block;
  }

  /** The record size rounded up to whole blocks. */
  function BufferSize(size: nat, block: nat): (n: nat)
    requires block > 0
    ensures n % block == 0 && HEADER + size <= n < HEADER + size + block
  {
    var total := HEADER + size;
    var n := if total % block != 0 then (total / block + 1) * block else (total / block) * block;
    Rounding(total, block);
    n
  }

  /** The flash with `data` written at `start`. */
  function Splice(flash: seq<Byte>, start: nat, data: seq<Byte>): (f: seq<Byte>)
    requires start + |data| <= |flash|
    ensures |f| == |flash| && f[start..start + |data|] == data
    ensures f[..start] == flash[..start] && f[start + |data|..] == flash[start + |data|..]
  {
    flash[..start] + data + flash[start + |data|..]
  }

  /** How the flash driver ends a write: done, or failed with whatever is then in the range. */
  datatype WriteOutcome = Written | Failed(left: seq<Byte>)

  lemma RecordLayout(data: seq<Byte>, config: seq<Byte>, crc: Word)
    requires |data| >= HEADER + |config| && crc == Crc(config)
    requires data[0] == data[1] == data[2] == data[3] == MAGIC
    requires data[4] == LittleEndian(crc)[0] && data[5] == LittleEndian(crc)[1]
    requires forall i :: 0 <= i < |config| ==> data[HEADER + i] == config[i]
    ensures data == Encode(config, data[HEADER + |config|..])
  {
    hide Crc, LittleEndian;
  }

  /** Fills a buffer of `n` bytes with the record; the bytes behind it stay as they were. */
  method BuildRecord(config: array<Byte>, n: nat, garbage: Byte) returns (data: array<Byte>)
    requires n >= HEADER + config.Length
    ensures fresh(data) && data.Length == n
    ensures data[..] == Encode(config[..], data[HEADER + config.Length..])
    ensures forall i :: HEADER + config.Length <= i < n ==> data[i] == garbage
  {
    hide Crc, LittleEndian, Encode;
    ghost var c := config[..];
    data := new Byte[n](_ => garbage);
    var crc := CalculateCrc16(config, 0, config.Length);
    assert config[0..0 + config.Length] == c;
    var bytes := LittleEndian(crc);
    data[0], data[1], data[2], data[3] := MAGIC, MAGIC, MAGIC, MAGIC;
    data[4], data[5] := bytes[0], bytes[1];
    forall i | 0 <= i < config.Length {
      data[HEADER + i] := config[i];
    }
    RecordLayout(data[..], c, crc);
    assert config[..] == c && data[..][HEADER + config.Length..] == data[HEADER + config.Length..];
  }

  lemma SmallRemainder(n: nat, block: nat)
    requires n < block
    ensures n % block == n
  {
  }

  lemma BlockCount(size: nat, block: nat)
    requires block > 0
    ensures BufferSize(size, block) / block >= 1
  {
    var n := BufferSize(size, block);
    if n < block {
      SmallRemainder(n, block);
      assert false;
    }
  }

  lemma SliceParts(f: seq<Byte>, start: nat, n: nat, k: nat, l: nat)
    requires start + n <= |f| && k + l <= n
    ensures f[start..start + n][..k] == f[..start + k][start..]
    ensures f[start..start + n][k..k + l] == f[start + k..start + k + l]
  {
    var g := f[start..start + n];
    assert forall i :: 0 <= i < n ==> g[i] == f[start + i];
    assert g[..k] == f[..start + k][start..];
    assert g[k..k + l] == f[start + k..start + k + l];
  }

  lemma CorruptedImage(flash: seq<Byte>, start: nat, config: seq<Byte>, padding: seq<Byte>, payload: seq<Byte>)
    requires |payload| == |config|
    requires var n := HEADER + |config| + |padding|;
      start + n <= |flash| && flash[start..start + n] == Encode(config, padding)
    ensures var n := HEADER + |config| + |padding|;
      PayloadChanged(Splice(flash, start + HEADER, payload)[start..start + n], config, padding, payload)
  {
    hide Encode, Splice;
    var n := HEADER + |config| + |padding|;
    var f := Splice(flash, start + HEADER, payload);
    SliceParts(f, start, n, HEADER, |payload|);
    SliceParts(flash, start, n, HEADER, |payload|);
  }

  class Storage {
    var flash: seq<Byte>      // the data flash
    const start: nat          // m_start_address
    const size: nat           // m_config_size
    const block: nat          // block size of the flash

    ghost predicate Ready()
      reads this
    {
      block > 0 && start + BufferSize(size, block) <= |flash|
    }

    constructor (f: seq<Byte>, startAddress: nat, configSize: nat, blockSize: nat)
      requires blockSize > 0 && startAddress + BufferSize(configSize, blockSize) <= |f|
      ensures Ready() && flash == f && start == startAddress && size == configSize && block == blockSize
    {
      flash, start, size, block := f, startAddress, configSize, blockSize;
    }

    /** The bytes of the record in flash. */
    ghost function Image(): (b: seq<Byte>)
      requires Ready()
      reads this
      ensures |b| == BufferSize(size, block)
    {
      flash[start..start + BufferSize(size, block)]
    }

    /** `sm_ev_config_store`.  `garbage` is what the uninitialised buffer holds. */
    method Store(config: array<Byte>, garbage: Byte, outcome: WriteOutcome) returns (r: int)
      requires Ready() && config.Length == size
      requires outcome.Failed? ==> |outcome.left| == BufferSize(size, block)
      modifies this
      ensures Ready() && flash == Splice(old(flash), start, Image())
      ensures outcome.Failed? ==> r == -1
      ensures outcome.Written? ==>
        && r == BufferSize(size, block) / block && r >= 1
        && exists padding :: Image() == Encode(config[..], padding)
    {
      hide BufferSize, Encode, Splice;
      var n := BufferSize(size, block);
      var data := BuildRecord(config, n, garbage);
      if outcome.Failed? {
        flash := Splice(flash, start, outcome.left);
        return -1;
      }
      ghost var padding, c := data[HEADER + size..], config[..];
      flash := Splice(flash, start, data[..]);
      assert Image() == Encode(c, padding) && config[..] == c;
      BlockCount(size, block);
      r := n / block;
    }

    /** `sm_ev_config_load`: -1 without a record or when reading fails, -2 for a record whose CRC does not match
        (its payload is still handed out), otherwise the number of blocks. */
    method Load(readOk: bool, config: array<Byte>) returns (r: int)
      requires Ready() && config.Length == size
      modifies config
      ensures !readOk ==> r == -1 && config[..] == old(config[..])
      ensures readOk ==>
        match Decode(Image(), size)
        case NotInitialised => r == -1 && config[..] == old(config[..])
        case Invalid(payload) => r == -2 && config[..] == payload
        case Valid(payload) => r == BufferSize(size, block) / block && r >= 1 && config[..] == payload
    {
      hide Crc, GetUint16, BufferSize;
      var n := BufferSize(size, block);
      if !readOk {
        return -1;
      }
      ghost var image := flash[start..start + n];
      var data := new Byte[n](i requires 0 <= i < n reads this => if start + i < |flash| then flash[start + i] else 0);
      assert data[..] == image;
      if data[..4] != [MAGIC, MAGIC, MAGIC, MAGIC] {
        return -1;
      }
      var crc := CalculateCrc16(data, HEADER, size);
      var stored := GetUint16(data[4], data[5]);
      forall i | 0 <= i < size {
        config[i] := data[HEADER + i];
      }
      assert config[..] == image[HEADER..HEADER + size];
      if stored != crc {
        return -2;
      }
      BlockCount(size, block);
      r := n / block;
    }

    /** Store, change the payload in flash inside 16 consecutive bits, load: never a success, always -2. */
    method LoadAfterBurst(config: array<Byte>, garbage: Byte, payload: seq<Byte>, out: array<Byte>, ghost p: nat)
      returns (r: int)
      requires Ready() && config.Length == out.Length == size == |payload| && config != out
      requires DifferInBurst(BitsOf(config[..]), BitsOf(payload), p)
      modifies this, out
      ensures r == -2 && out[..] == payload
    {
      hide Crc, BitsOf, BufferSize, Splice, Encode, Decode, DifferInBurst;
      var _ := Store(config, garbage, Written);
      ghost var image, padding :| image == Image() && image == Encode(config[..], padding);
      CorruptedImage(flash, start, config[..], padding, payload);
      flash := Splice(flash, start + HEADER, payload);
      BurstReported(Image(), config[..], padding, payload, p);
      r := Load(true, out);
    }
  }
}
