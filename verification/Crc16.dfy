// CRC-16 of ev-sdk/libs/canopen/CO_CRC.c and ev-sdk/utils/algorithms/sm_crc.c:
// polynomial 0x1021, initial value 0xFFFF, most significant bit first, no final XOR.
//
// The source computes it byte by byte through a 256-entry table.  Here the table
// form is proved equal to the bit-serial definition for every byte sequence, and
// the bit-serial form is used to prove which errors the CRC always detects.
//
// A uint16_t is modelled by its 16 bits, most significant first: `x << 8` is
// `x[8..] + Zeros(8)`, `x >> 8` is `x[..8]` and `^` is `Xor`.
module Crc16 {
  import opened Words

  type Bits = seq<bool>
  type Word = w: Bits | |w| == 16 witness Zeros(16)

  function Zeros(n: nat): (z: Bits)
    ensures |z| == n && forall i :: 0 <= i < n ==> !z[i]
  {
    seq(n, _ => false)
  }

  function Xor(a: Bits, b: Bits): (x: Bits)
    requires |a| == |b|
    ensures |x| == |a| && forall i :: 0 <= i < |a| ==> x[i] == (a[i] != b[i])
  {
    seq(|a|, i requires 0 <= i < |a| => a[i] != b[i])
  }

  // ----- the bit-serial definition ---------------------------------------------

  /** x^12 + x^5 + 1, the generator 0x1021 without its leading term. */
  function Generator(): Word {
    seq(16, i => i == 3 || i == 10 || i == 15)
  }

  const INIT_VALUE: Word :=
    [true, true, true, true, true, true, true, true, true, true, true, true, true, true, true, true]

  /** One shift of the register: multiplication by x modulo the generator. */
  function ZeroStep(r: Word): Word {
    var shifted := r[1..] + [false];
    if r[0] then Xor(shifted, Generator()) else shifted
  }

  /** The register with an input bit added at its top. */
  function AddTop(r: Word, b: bool): Word {
    r[0 := r[0] != b]
  }

  /** The register after shifting in `bits`, first bit first. */
  function CrcBits(r: Word, bits: Bits): Word
    decreases bits
  {
    if bits == [] then r else CrcBits(ZeroStep(AddTop(r, bits[0])), bits[1..])
  }

  /** The bits of a byte, most significant first. */
  function BitsOfByte(b: Byte): (bits: Bits)
    ensures |bits| == 8
  {
    [b & 0x80 != 0, b & 0x40 != 0, b & 0x20 != 0, b & 0x10 != 0,
     b & 0x08 != 0, b & 0x04 != 0, b & 0x02 != 0, b & 0x01 != 0]
  }

  function BitsOf(bytes: seq<Byte>): (bits: Bits)
    ensures |bits| == 8 * |bytes|
  {
    if bytes == [] then [] else BitsOfByte(bytes[0]) + BitsOf(bytes[1..])
  }

  /** The CRC of a byte sequence. */
  function Crc(bytes: seq<Byte>): Word {
    CrcBits(INIT_VALUE, BitsOf(bytes))
  }

  // ----- the table ---------------------------------------------------------------

  /** The lookup table, in the rows of eight in which the source lays it out. */
  const LUT: seq<seq<bv16>> := [
    [0x0000, 0x1021, 0x2042, 0x3063, 0x4084, 0x50a5, 0x60c6, 0x70e7],
    [0x8108, 0x9129, 0xa14a, 0xb16b, 0xc18c, 0xd1ad, 0xe1ce, 0xf1ef],
    [0x1231, 0x0210, 0x3273, 0x2252, 0x52b5, 0x4294, 0x72f7, 0x62d6],
    [0x9339, 0x8318, 0xb37b, 0xa35a, 0xd3bd, 0xc39c, 0xf3ff, 0xe3de],
    [0x2462, 0x3443, 0x0420, 0x1401, 0x64e6, 0x74c7, 0x44a4, 0x5485],
    [0xa56a, 0xb54b, 0x8528, 0x9509, 0xe5ee, 0xf5cf, 0xc5ac, 0xd58d],
    [0x3653, 0x2672, 0x1611, 0x0630, 0x76d7, 0x66f6, 0x5695, 0x46b4],
    [0xb75b, 0xa77a, 0x9719, 0x8738, 0xf7df, 0xe7fe, 0xd79d, 0xc7bc],
    [0x48c4, 0x58e5, 0x6886, 0x78a7, 0x0840, 0x1861, 0x2802, 0x3823],
    [0xc9cc, 0xd9ed, 0xe98e, 0xf9af, 0x8948, 0x9969, 0xa90a, 0xb92b],
    [0x5af5, 0x4ad4, 0x7ab7, 0x6a96, 0x1a71, 0x0a50, 0x3a33, 0x2a12],
    [0xdbfd, 0xcbdc, 0xfbbf, 0xeb9e, 0x9b79, 0x8b58, 0xbb3b, 0xab1a],
    [0x6ca6, 0x7c87, 0x4ce4, 0x5cc5, 0x2c22, 0x3c03, 0x0c60, 0x1c41],
    [0xedae, 0xfd8f, 0xcdec, 0xddcd, 0xad2a, 0xbd0b, 0x8d68, 0x9d49],
    [0x7e97, 0x6eb6, 0x5ed5, 0x4ef4, 0x3e13, 0x2e32, 0x1e51, 0x0e70],
    [0xff9f, 0xefbe, 0xdfdd, 0xcffc, 0xbf1b, 0xaf3a, 0x9f59, 0x8f78],
    [0x9188, 0x81a9, 0xb1ca, 0xa1eb, 0xd10c, 0xc12d, 0xf14e, 0xe16f],
    [0x1080, 0x00a1, 0x30c2, 0x20e3, 0x5004, 0x4025, 0x7046, 0x6067],
    [0x83b9, 0x9398, 0xa3fb, 0xb3da, 0xc33d, 0xd31c, 0xe37f, 0xf35e],
    [0x02b1, 0x1290, 0x22f3, 0x32d2, 0x4235, 0x5214, 0x6277, 0x7256],
    [0xb5ea, 0xa5cb, 0x95a8, 0x8589, 0xf56e, 0xe54f, 0xd52c, 0xc50d],
    [0x34e2, 0x24c3, 0x14a0, 0x0481, 0x7466, 0x6447, 0x5424, 0x4405],
    [0xa7db, 0xb7fa, 0x8799, 0x97b8, 0xe75f, 0xf77e, 0xc71d, 0xd73c],
    [0x26d3, 0x36f2, 0x0691, 0x16b0, 0x6657, 0x7676, 0x4615, 0x5634],
    [0xd94c, 0xc96d, 0xf90e, 0xe92f, 0x99c8, 0x89e9, 0xb98a, 0xa9ab],
    [0x5844, 0x4865, 0x7806, 0x6827, 0x18c0, 0x08e1, 0x3882, 0x28a3],
    [0xcb7d, 0xdb5c, 0xeb3f, 0xfb1e, 0x8bf9, 0x9bd8, 0xabbb, 0xbb9a],
    [0x4a75, 0x5a54, 0x6a37, 0x7a16, 0x0af1, 0x1ad0, 0x2ab3, 0x3a92],
    [0xfd2e, 0xed0f, 0xdd6c, 0xcd4d, 0xbdaa, 0xad8b, 0x9de8, 0x8dc9],
    [0x7c26, 0x6c07, 0x5c64, 0x4c45, 0x3ca2, 0x2c83, 0x1ce0, 0x0cc1],
    [0xef1f, 0xff3e, 0xcf5d, 0xdf7c, 0xaf9b, 0xbfba, 0x8fd9, 0x9ff8],
    [0x6e17, 0x7e36, 0x4e55, 0x5e74, 0x2e93, 0x3eb2, 0x0ed1, 0x1ef0]
  ]

  /** `ZeroStep` on machine words, used only to evaluate the table. */
  function Step16(r: bv16): bv16 {
    if r & 0x8000 != 0 then (r << 1) ^ 0x1021 else r << 1
  }

  function Shift16(r: bv16): bv16 {
    Step16(Step16(Step16(Step16(Step16(Step16(Step16(Step16(r))))))))
  }

  ghost predicate RowCorrect(row: seq<bv16>, k: bv16) {
    && |row| == 8
    && row[0] == Shift16(k << 11)
    && row[1] == Shift16((k << 11) | 0x0100)
    && row[2] == Shift16((k << 11) | 0x0200)
    && row[3] == Shift16((k << 11) | 0x0300)
    && row[4] == Shift16((k << 11) | 0x0400)
    && row[5] == Shift16((k << 11) | 0x0500)
    && row[6] == Shift16((k << 11) | 0x0600)
    && row[7] == Shift16((k << 11) | 0x0700)
  }

  lemma Rows0(k: bv16)
    requires k < 8
    ensures |LUT| == 32 && RowCorrect(LUT[k as int], k)
  {
  }

  lemma Rows8(k: bv16)
    requires 8 <= k < 16
    ensures |LUT| == 32 && RowCorrect(LUT[k as int], k)
  {
  }

  lemma Rows16(k: bv16)
    requires 16 <= k < 24
    ensures |LUT| == 32 && RowCorrect(LUT[k as int], k)
  {
  }

  lemma Rows24(k: bv16)
    requires 24 <= k < 32
    ensures |LUT| == 32 && RowCorrect(LUT[k as int], k)
  {
  }

  lemma RowOf(i: bv16)
    requires i < 256
    ensures |LUT| == 32 && i >> 3 < 32 && RowCorrect(LUT[(i >> 3) as int], i >> 3)
  {
    hide RowCorrect;
    var k := i >> 3;
    if k < 8 {
      Rows0(k);
    } else if k < 16 {
      Rows8(k);
    } else if k < 24 {
      Rows16(k);
    } else {
      Rows24(k);
    }
  }

  /** The table entry the source reads: `CRC16Table[i]`. */
  function Entry(i: bv16): bv16
    requires i < 256
  {
    RowOf(i);
    LUT[(i >> 3) as int][(i & 7) as int]
  }

  lemma EntryCorrect(i: bv16)
    requires i < 256
    ensures Entry(i) == Shift16(i << 8)
  {
    RowOf(i);
    var j := i & 7;
    assert j == 0 || j == 1 || j == 2 || j == 3 || j == 4 || j == 5 || j == 6 || j == 7;
    assert i << 8 == ((i >> 3) << 11) | (j << 8);
  }

  /** The bits of a machine word, most significant first. */
  function WordOf(r: bv16): Word {
    [r & 0x8000 != 0, r & 0x4000 != 0, r & 0x2000 != 0, r & 0x1000 != 0,
     r & 0x0800 != 0, r & 0x0400 != 0, r & 0x0200 != 0, r & 0x0100 != 0,
     r & 0x0080 != 0, r & 0x0040 != 0, r & 0x0020 != 0, r & 0x0010 != 0,
     r & 0x0008 != 0, r & 0x0004 != 0, r & 0x0002 != 0, r & 0x0001 != 0]
  }

  lemma ShiftedWord(r: bv16)
    ensures WordOf(r << 1) == WordOf(r)[1..] + [false]
  {
  }

  lemma ReducedBits(s: bv16)
    ensures ((s ^ 0x1021) & 0x8000 != 0) == (s & 0x8000 != 0)
    ensures ((s ^ 0x1021) & 0x4000 != 0) == (s & 0x4000 != 0)
    ensures ((s ^ 0x1021) & 0x2000 != 0) == (s & 0x2000 != 0)
    ensures ((s ^ 0x1021) & 0x1000 == 0) == (s & 0x1000 != 0)
    ensures ((s ^ 0x1021) & 0x0800 != 0) == (s & 0x0800 != 0)
    ensures ((s ^ 0x1021) & 0x0400 != 0) == (s & 0x0400 != 0)
    ensures ((s ^ 0x1021) & 0x0200 != 0) == (s & 0x0200 != 0)
    ensures ((s ^ 0x1021) & 0x0100 != 0) == (s & 0x0100 != 0)
    ensures ((s ^ 0x1021) & 0x0080 != 0) == (s & 0x0080 != 0)
    ensures ((s ^ 0x1021) & 0x0040 != 0) == (s & 0x0040 != 0)
    ensures ((s ^ 0x1021) & 0x0020 == 0) == (s & 0x0020 != 0)
    ensures ((s ^ 0x1021) & 0x0010 != 0) == (s & 0x0010 != 0)
    ensures ((s ^ 0x1021) & 0x0008 != 0) == (s & 0x0008 != 0)
    ensures ((s ^ 0x1021) & 0x0004 != 0) == (s & 0x0004 != 0)
    ensures ((s ^ 0x1021) & 0x0002 != 0) == (s & 0x0002 != 0)
    ensures ((s ^ 0x1021) & 0x0001 == 0) == (s & 0x0001 != 0)
  {
  }

  lemma SixteenBits(x: Word)
    ensures x == [x[0], x[1], x[2], x[3], x[4], x[5], x[6], x[7],
                  x[8], x[9], x[10], x[11], x[12], x[13], x[14], x[15]]
  {
  }

  lemma GeneratorBits()
    ensures Generator() == [false, false, false, true, false, false, false, false,
                            false, false, true, false, false, false, false, true]
  {
  }

  lemma XorGenerator(w: Word)
    ensures Xor(w, Generator()) ==
      [w[0], w[1], w[2], !w[3], w[4], w[5], w[6], w[7],
       w[8], w[9], !w[10], w[11], w[12], w[13], w[14], !w[15]]
  {
    var x := Xor(w, Generator());
    GeneratorBits();
    hide Xor, Generator;
    SixteenBits(x);
  }

  lemma ReducedWord(s: bv16)
    ensures WordOf(s ^ 0x1021) == Xor(WordOf(s), Generator())
  {
    ReducedBits(s);
    XorGenerator(WordOf(s));
  }

  lemma StepOfWord(r: bv16)
    ensures WordOf(Step16(r)) == ZeroStep(WordOf(r))
  {
    ShiftedWord(r);
    ReducedWord(r << 1);
  }

  /** Eight zero steps. */
  function ShiftByte(r: Word): Word {
    ZeroStep(ZeroStep(ZeroStep(ZeroStep(ZeroStep(ZeroStep(ZeroStep(ZeroStep(r))))))))
  }

  lemma ShiftOfWord(r: bv16)
    ensures WordOf(Shift16(r)) == ShiftByte(WordOf(r))
  {
    var r1 := Step16(r);
    var r2 := Step16(r1);
    var r3 := Step16(r2);
    var r4 := Step16(r3);
    StepOfWord(r); StepOfWord(r1); StepOfWord(r2); StepOfWord(r3);
    var r5 := Step16(r4);
    var r6 := Step16(r5);
    var r7 := Step16(r6);
    StepOfWord(r4); StepOfWord(r5); StepOfWord(r6); StepOfWord(r7);
  }

  /** The byte with the given bits. */
  function ByteOf(x: Bits): Byte
    requires |x| == 8
  {
    (if x[0] then 0x80 else 0) | (if x[1] then 0x40 else 0) | (if x[2] then 0x20 else 0) | (if x[3] then 0x10 else 0)
    | (if x[4] then 0x08 else 0) | (if x[5] then 0x04 else 0) | (if x[6] then 0x02 else 0) | (if x[7] then 0x01 else 0)
  }

  lemma ByteOfBools(x0: bool, x1: bool, x2: bool, x3: bool, x4: bool, x5: bool, x6: bool, x7: bool)
    ensures
      var b: Byte :=
        (if x0 then 0x80 else 0) | (if x1 then 0x40 else 0) | (if x2 then 0x20 else 0) | (if x3 then 0x10 else 0)
        | (if x4 then 0x08 else 0) | (if x5 then 0x04 else 0) | (if x6 then 0x02 else 0) | (if x7 then 0x01 else 0);
      && (b & 0x80 != 0) == x0 && (b & 0x40 != 0) == x1 && (b & 0x20 != 0) == x2 && (b & 0x10 != 0) == x3
      && (b & 0x08 != 0) == x4 && (b & 0x04 != 0) == x5 && (b & 0x02 != 0) == x6 && (b & 0x01 != 0) == x7
  {
  }

  lemma ByteOfBits(x: Bits)
    requires |x| == 8
    ensures BitsOfByte(ByteOf(x)) == x
  {
    ByteOfBools(x[0], x[1], x[2], x[3], x[4], x[5], x[6], x[7]);
    assert x == [x[0], x[1], x[2], x[3], x[4], x[5], x[6], x[7]];
  }

  /** The table as a function of the eight index bits. */
  function Lut(i: Bits): Word
    requires |i| == 8
  {
    var b := ByteOf(i) as bv16;
    assert b < 256;
    WordOf(Entry(b))
  }

  lemma HighByte(b: Byte)
    ensures WordOf((b as bv16) << 8) == BitsOfByte(b) + Zeros(8)
  {
  }

  /** Every table entry is eight zero steps of its index. */
  lemma TableEntry(i: Bits)
    requires |i| == 8
    ensures Lut(i) == ShiftByte(i + Zeros(8))
  {
    var b := ByteOf(i);
    EntryCorrect(b as bv16);
    ShiftOfWord((b as bv16) << 8);
    HighByte(b);
    ByteOfBits(i);
  }

  // ----- linearity -----------------------------------------------------------------

  lemma StepLinear(a: Word, b: Word)
    ensures ZeroStep(Xor(a, b)) == Xor(ZeroStep(a), ZeroStep(b))
  {
    var x, y := ZeroStep(Xor(a, b)), Xor(ZeroStep(a), ZeroStep(b));
    forall i | 0 <= i < 16
      ensures x[i] == y[i]
    {
    }
  }

  /** The register is linear in its start value and its input together. */
  lemma {:induction false} CrcLinear(r: Word, s: Word, m: Bits, e: Bits)
    requires |m| == |e|
    ensures CrcBits(Xor(r, s), Xor(m, e)) == Xor(CrcBits(r, m), CrcBits(s, e))
    decreases m
  {
    if m == [] {
    } else {
      assert Xor(m, e)[1..] == Xor(m[1..], e[1..]);
      assert AddTop(Xor(r, s), Xor(m, e)[0]) == Xor(AddTop(r, m[0]), AddTop(s, e[0]));
      StepLinear(AddTop(r, m[0]), AddTop(s, e[0]));
      CrcLinear(ZeroStep(AddTop(r, m[0])), ZeroStep(AddTop(s, e[0])), m[1..], e[1..]);
    }
  }

  lemma XorZero(a: Bits, b: Bits)
    requires |a| == |b|
    ensures Xor(a, b) == Zeros(|a|) <==> a == b
    ensures Xor(a, Zeros(|a|)) == a
  {
    if Xor(a, b) == Zeros(|a|) {
      forall i | 0 <= i < |a| ensures a[i] == b[i] { assert !Xor(a, b)[i]; }
    }
  }

  /** Two inputs of equal length have the same CRC exactly when their difference leaves a zero register zero. */
  lemma SameCrc(a: Bits, b: Bits)
    requires |a| == |b|
    ensures CrcBits(INIT_VALUE, a) == CrcBits(INIT_VALUE, b) <==> CrcBits(Zeros(16), Xor(a, b)) == Zeros(16)
  {
    CrcLinear(INIT_VALUE, INIT_VALUE, a, b);
    XorZero(INIT_VALUE, INIT_VALUE);
    XorZero(CrcBits(INIT_VALUE, a), CrcBits(INIT_VALUE, b));
  }

  lemma {:induction false} CrcBitsAppend(r: Word, a: Bits, b: Bits)
    ensures CrcBits(r, a + b) == CrcBits(CrcBits(r, a), b)
    decreases a
  {
    if a == [] {
      assert a + b == b;
    } else {
      assert (a + b)[1..] == a[1..] + b;
      CrcBitsAppend(ZeroStep(AddTop(r, a[0])), a[1..], b);
    }
  }

  // ----- the table form is the bit-serial form ----------------------------------------

  function ZeroSteps(r: Word, n: nat): Word
    decreases n
  {
    if n == 0 then r else ZeroSteps(ZeroStep(r), n - 1)
  }

  lemma EightSteps(r: Word)
    ensures ZeroSteps(r, 8) == ShiftByte(r)
  {
    var r4 := ZeroStep(ZeroStep(ZeroStep(ZeroStep(r))));
    assert ZeroSteps(r, 8) == ZeroSteps(ZeroStep(ZeroStep(r)), 6);
    assert ZeroSteps(ZeroStep(ZeroStep(r)), 6) == ZeroSteps(r4, 4);
    assert ZeroSteps(r4, 4) == ZeroSteps(ZeroStep(ZeroStep(r4)), 2);
  }

  lemma {:induction false} StepsLinear(a: Word, b: Word, n: nat)
    ensures ZeroSteps(Xor(a, b), n) == Xor(ZeroSteps(a, n), ZeroSteps(b, n))
    decreases n
  {
    if n > 0 {
      StepLinear(a, b);
      StepsLinear(ZeroStep(a), ZeroStep(b), n - 1);
    }
  }

  lemma PadShift(b: Bits, n: nat)
    requires b != []
    ensures b + Zeros(n) == [b[0]] + (b[1..] + Zeros(n))
    ensures (b[1..] + Zeros(n)) + [false] == b[1..] + Zeros(n + 1)
  {
  }

  /** Input that waits below the top bit only moves up one place. */
  lemma PendingStep(r: Word, top: bool, rest: Bits)
    requires |rest| == 15
    ensures ZeroStep(Xor(r, [top] + rest)) == Xor(ZeroStep(AddTop(r, top)), rest + [false])
  {
    var x, pending := AddTop(r, top), [false] + rest;
    assert Xor(r, [top] + rest) == Xor(x, pending);
    assert pending[1..] == rest;
    StepLinear(x, pending);
  }

  /** Up to 16 input bits may be added to the top of the register all at once. */
  lemma {:induction false} InputAtOnce(r: Word, b: Bits)
    requires |b| <= 16
    ensures CrcBits(r, b) == ZeroSteps(Xor(r, b + Zeros(16 - |b|)), |b|)
    decreases b
  {
    hide Xor, Zeros, ZeroStep;
    if b == [] {
      assert b + Zeros(16) == Zeros(16);
      XorZero(r, Zeros(16));
    } else {
      PadShift(b, 16 - |b|);
      PendingStep(r, b[0], b[1..] + Zeros(16 - |b|));
      InputAtOnce(ZeroStep(AddTop(r, b[0])), b[1..]);
    }
  }

  lemma ShiftedZeros(r: Word, n: nat)
    requires 1 <= n <= 16
    ensures (r[1..] + [false])[n - 1..] + Zeros(n - 1) == r[n..] + Zeros(n)
  {
    hide Zeros;
  }

  /** Zero bits at the top are shifted out without reduction. */
  lemma {:induction false} LowBitsMoveUp(r: Word, n: nat)
    requires n <= 16 && forall i :: 0 <= i < n ==> !r[i]
    ensures ZeroSteps(r, n) == r[n..] + Zeros(n)
    decreases n
  {
    hide Xor, Generator, Zeros;
    if n == 0 {
      assert r[0..] + Zeros(0) == r;
    } else {
      var s := r[1..] + [false];
      assert ZeroStep(r) == s;
      LowBitsMoveUp(s, n - 1);
      ShiftedZeros(r, n);
    }
  }

  /** The source's byte step, `(r << 8) ^ CRC16Table[(r >> 8) ^ byte]`. */
  function TableStep(r: Word, b: Byte): Word {
    Xor(r[8..] + Zeros(8), Lut(Xor(r[..8], BitsOfByte(b))))
  }

  /** A byte at the top of the register changes its upper half and leaves its lower half. */
  lemma SplitInput(r: Word, byte: Bits)
    requires |byte| == 8
    ensures Xor(r, byte + Zeros(8)) == Xor(Zeros(8) + r[8..], Xor(r[..8], byte) + Zeros(8))
  {
  }

  /** One table lookup does eight bit-serial shifts. */
  lemma TableStepCorrect(r: Word, b: Byte)
    ensures TableStep(r, b) == CrcBits(r, BitsOfByte(b))
  {
    hide Xor, Zeros, ZeroStep, ZeroSteps, ShiftByte, CrcBits, Lut, BitsOfByte;
    var byte := BitsOfByte(b);
    var top, low := Xor(r[..8], byte) + Zeros(8), Zeros(8) + r[8..];
    InputAtOnce(r, byte);
    SplitInput(r, byte);
    StepsLinear(low, top, 8);
    LowBitsMoveUp(low, 8);
    assert low[8..] == r[8..];
    EightSteps(top);
    TableEntry(Xor(r[..8], byte));
  }

  lemma Assoc(a: Bits, b: Bits, c: Bits)
    ensures a + b + c == a + (b + c)
  {
  }

  lemma {:induction false} BitsOfAppend(a: seq<Byte>, b: seq<Byte>)
    ensures BitsOf(a + b) == BitsOf(a) + BitsOf(b)
  {
    if a == [] {
      assert a + b == b;
    } else {
      assert (a + b)[1..] == a[1..] + b;
      BitsOfAppend(a[1..], b);
      Assoc(BitsOfByte(a[0]), BitsOf(a[1..]), BitsOf(b));
    }
  }

  lemma BitsOfSingle(b: Byte)
    ensures BitsOf([b]) == BitsOfByte(b)
  {
    var none: seq<Byte> := [b][1..];
    assert BitsOf(none) == [];
    assert BitsOf([b]) == BitsOfByte(b) + BitsOf(none);
  }

  lemma CrcExtend(bytes: seq<Byte>, b: Byte)
    ensures Crc(bytes + [b]) == CrcBits(Crc(bytes), BitsOfByte(b))
  {
    BitsOfAppend(bytes, [b]);
    BitsOfSingle(b);
    CrcBitsAppend(INIT_VALUE, BitsOf(bytes), BitsOfByte(b));
  }

  lemma CrcEmpty(bytes: seq<Byte>)
    requires bytes == []
    ensures Crc(bytes) == INIT_VALUE
  {
  }

  /** The table-driven loop of the source computes the bit-serial CRC of the `length` bytes at `start`;
      a null buffer gives 0. */
  method CalculateCrc16(buffer: array?<Byte>, start: nat, length: nat) returns (r: Word)
    requires buffer != null ==> start + length <= buffer.Length
    ensures buffer == null ==> r == Zeros(16)
    ensures buffer != null ==> r == Crc(buffer[start..start + length])
  {
    hide Crc, CrcBits, BitsOf, BitsOfByte, TableStep;
    r := Zeros(16);
    if buffer != null {
      r := INIT_VALUE;
      CrcEmpty(buffer[start..start]);
      for i := 0 to length
        invariant r == Crc(buffer[start..start + i])
      {
        var b := buffer[start + i];
        assert buffer[start..start + i + 1] == buffer[start..start + i] + [b];
        CrcExtend(buffer[start..start + i], b);
        TableStepCorrect(r, b);
        r := TableStep(r, b);
      }
    }
  }

  // ----- the parameters ----------------------------------------------------------------

  lemma OneByte(bytes: seq<Byte>, r: bv16, b: Byte, x: bv16)
    requires Crc(bytes) == WordOf(r) && WordOf(x) == Xor(WordOf(r), WordOf((b as bv16) << 8))
    ensures Crc(bytes + [b]) == WordOf(Shift16(x))
  {
    hide Xor, Zeros, ZeroStep, ZeroSteps, ShiftByte, Shift16, Crc, CrcBits, WordOf, BitsOfByte;
    CrcExtend(bytes, b);
    InputAtOnce(WordOf(r), BitsOfByte(b));
    HighByte(b);
    EightSteps(WordOf(x));
    ShiftOfWord(x);
  }

  lemma DigitShifts()
    ensures Shift16(0xCEFF) == 0xC782
    ensures Shift16(0xF582) == 0x3DBA
    ensures Shift16(0x0EBA) == 0x5BCE
    ensures Shift16(0x6FCE) == 0x5349
    ensures Shift16(0x6649) == 0x4560
    ensures Shift16(0x7360) == 0x2EF4
    ensures Shift16(0x19F4) == 0x7718
    ensures Shift16(0x4F18) == 0xA12B
    ensures Shift16(0x982B) == 0x29B1
  {
  }

  lemma Digit1(bytes: seq<Byte>)
    requires Crc(bytes) == WordOf(0xFFFF)
    ensures Crc(bytes + [0x31]) == WordOf(0xC782)
  {
    hide Crc, Shift16;
    assert WordOf(0xCEFF) == Xor(WordOf(0xFFFF), WordOf(0x3100));
    DigitShifts();
    OneByte(bytes, 0xFFFF, 0x31, 0xCEFF);
  }

  lemma Digit2(bytes: seq<Byte>)
    requires Crc(bytes) == WordOf(0xC782)
    ensures Crc(bytes + [0x32]) == WordOf(0x3DBA)
  {
    hide Crc, Shift16;
    assert WordOf(0xF582) == Xor(WordOf(0xC782), WordOf(0x3200));
    DigitShifts();
    OneByte(bytes, 0xC782, 0x32, 0xF582);
  }

  lemma Digit3(bytes: seq<Byte>)
    requires Crc(bytes) == WordOf(0x3DBA)
    ensures Crc(bytes + [0x33]) == WordOf(0x5BCE)
  {
    hide Crc, Shift16;
    assert WordOf(0x0EBA) == Xor(WordOf(0x3DBA), WordOf(0x3300));
    DigitShifts();
    OneByte(bytes, 0x3DBA, 0x33, 0x0EBA);
  }

  lemma Digit4(bytes: seq<Byte>)
    requires Crc(bytes) == WordOf(0x5BCE)
    ensures Crc(bytes + [0x34]) == WordOf(0x5349)
  {
    hide Crc, Shift16;
    assert WordOf(0x6FCE) == Xor(WordOf(0x5BCE), WordOf(0x3400));
    DigitShifts();
    OneByte(bytes, 0x5BCE, 0x34, 0x6FCE);
  }

  lemma Digit5(bytes: seq<Byte>)
    requires Crc(bytes) == WordOf(0x5349)
    ensures Crc(bytes + [0x35]) == WordOf(0x4560)
  {
    hide Crc, Shift16;
    assert WordOf(0x6649) == Xor(WordOf(0x5349), WordOf(0x3500));
    DigitShifts();
    OneByte(bytes, 0x5349, 0x35, 0x6649);
  }

  lemma Digit6(bytes: seq<Byte>)
    requires Crc(bytes) == WordOf(0x4560)
    ensures Crc(bytes + [0x36]) == WordOf(0x2EF4)
  {
    hide Crc, Shift16;
    assert WordOf(0x7360) == Xor(WordOf(0x4560), WordOf(0x3600));
    DigitShifts();
    OneByte(bytes, 0x4560, 0x36, 0x7360);
  }

  lemma Digit7(bytes: seq<Byte>)
    requires Crc(bytes) == WordOf(0x2EF4)
    ensures Crc(bytes + [0x37]) == WordOf(0x7718)
  {
    hide Crc, Shift16;
    assert WordOf(0x19F4) == Xor(WordOf(0x2EF4), WordOf(0x3700));
    DigitShifts();
    OneByte(bytes, 0x2EF4, 0x37, 0x19F4);
  }

  lemma Digit8(bytes: seq<Byte>)
    requires Crc(bytes) == WordOf(0x7718)
    ensures Crc(bytes + [0x38]) == WordOf(0xA12B)
  {
    hide Crc, Shift16;
    assert WordOf(0x4F18) == Xor(WordOf(0x7718), WordOf(0x3800));
    DigitShifts();
    OneByte(bytes, 0x7718, 0x38, 0x4F18);
  }

  lemma Digit9(bytes: seq<Byte>)
    requires Crc(bytes) == WordOf(0xA12B)
    ensures Crc(bytes + [0x39]) == WordOf(0x29B1)
  {
    hide Crc, Shift16;
    assert WordOf(0x982B) == Xor(WordOf(0xA12B), WordOf(0x3900));
    DigitShifts();
    OneByte(bytes, 0xA12B, 0x39, 0x982B);
  }

  lemma EmptyValue()
    ensures Crc([]) == WordOf(0xFFFF)
  {
  }

  /** The CRC of no bytes is 0xFFFF, and that of the digits "123456789" is the published check value. */
  lemma CheckValue()
    ensures Crc([]) == WordOf(0xFFFF)
    ensures Crc([0x31, 0x32, 0x33, 0x34, 0x35, 0x36, 0x37, 0x38, 0x39]) == WordOf(0x29B1)
  {
    hide Crc, WordOf;
    EmptyValue();
    Digit1([]);
    var m1: seq<Byte> := [] + [0x31];
    Digit2(m1);
    var m2: seq<Byte> := m1 + [0x32];
    Digit3(m2);
    var m3: seq<Byte> := m2 + [0x33];
    Digit4(m3);
    var m4: seq<Byte> := m3 + [0x34];
    Digit5(m4);
    var m5: seq<Byte> := m4 + [0x35];
    Digit6(m5);
    var m6: seq<Byte> := m5 + [0x36];
    Digit7(m6);
    var m7: seq<Byte> := m6 + [0x37];
    Digit8(m7);
    var m8: seq<Byte> := m7 + [0x38];
    Digit9(m8);
    var m9: seq<Byte> := m8 + [0x39];
    assert m9 == [0x31, 0x32, 0x33, 0x34, 0x35, 0x36, 0x37, 0x38, 0x39];
  }

  // ----- burst errors ----------------------------------------------------------------

  /** A step reaches a register whose last bit is zero only by a plain shift. */
  lemma StepOnto(x: Word, y: Word)
    requires !y[15]
    ensures ZeroStep(x) == y <==> !x[0] && x[1..] == y[..15]
  {
    assert ZeroStep(x)[15] == x[0];
    if !x[0] && x[1..] == y[..15] {
      assert x[1..] + [false] == y;
    }
    if ZeroStep(x) == y {
      assert ZeroStep(x) == x[1..] + [false];
      assert (x[1..] + [false])[..15] == x[1..];
    }
  }

  /** A step is injective at zero: the generator's last term keeps the bit that falls out. */
  lemma {:induction false} ZeroInput(r: Word, z: Bits)
    requires z == Zeros(|z|)
    ensures CrcBits(r, z) == Zeros(16) <==> r == Zeros(16)
    decreases z
  {
    if z == [] {
    } else {
      assert AddTop(r, z[0]) == r;
      assert z[1..] == Zeros(|z| - 1);
      ZeroInput(ZeroStep(r), z[1..]);
      StepOnto(r, Zeros(16));
      if !r[0] && r[1..] == Zeros(16)[..15] {
        forall i | 1 <= i < 16 ensures !r[i] { assert r[i] == r[1..][i - 1]; }
      }
    }
  }

  lemma StepOntoPadded(s: Word, top: bool, rest: Bits)
    requires |rest| == 15
    ensures ZeroStep(AddTop(s, top)) == rest + [false] <==> s == [top] + rest
  {
    var x := AddTop(s, top);
    StepOnto(x, rest + [false]);
    assert (rest + [false])[..15] == rest && x[1..] == s[1..];
    assert s == [s[0]] + s[1..];
  }

  /** At most 16 bits clear the register only if they are what stands at its top. */
  lemma {:induction false} ShortInputClears(s: Word, b: Bits)
    requires |b| <= 16
    ensures CrcBits(s, b) == Zeros(16) <==> s == b + Zeros(16 - |b|)
    decreases b
  {
    hide Zeros, ZeroStep;
    if b == [] {
      assert b + Zeros(16) == Zeros(16);
    } else {
      PadShift(b, 16 - |b|);
      StepOntoPadded(s, b[0], b[1..] + Zeros(16 - |b|));
      ShortInputClears(ZeroStep(AddTop(s, b[0])), b[1..]);
    }
  }

  /** `a` and `b` differ, and only inside the bit window [p, p + 16). */
  ghost predicate DifferInBurst(a: Bits, b: Bits, p: nat) {
    && |a| == |b|
    && a != b
    && forall i :: 0 <= i < |a| && a[i] != b[i] ==> p <= i < p + 16
  }

  lemma ZerosOutside(e: Bits, p: nat, q: nat)
    requires p <= q <= |e| && forall j :: 0 <= j < |e| && e[j] ==> p <= j < q
    ensures e == Zeros(p) + e[p..q] + Zeros(|e| - q)
  {
  }

  lemma BurstNoticed(b: Bits, i: nat)
    requires i < |b| <= 16 && b[i]
    ensures CrcBits(Zeros(16), b) != Zeros(16)
  {
    ShortInputClears(Zeros(16), b);
    assert (b + Zeros(16 - |b|))[i] != Zeros(16)[i];
  }

  /** Zero bits before and after an error do not decide whether it is noticed. */
  lemma PaddedRemainder(before: nat, e: Bits, after: nat, padded: Bits)
    requires padded == Zeros(before) + e + Zeros(after)
    ensures CrcBits(Zeros(16), padded) == Zeros(16) <==> CrcBits(Zeros(16), e) == Zeros(16)
  {
    CrcBitsAppend(Zeros(16), Zeros(before) + e, Zeros(after));
    CrcBitsAppend(Zeros(16), Zeros(before), e);
    ZeroInput(Zeros(16), Zeros(before));
    ZeroInput(CrcBits(Zeros(16), e), Zeros(after));
  }

  lemma BurstRemainder(e: Bits, p: nat, q: nat, i: nat)
    requires p <= i < q <= |e| && q <= p + 16
    requires e[i] && forall j :: 0 <= j < |e| && e[j] ==> p <= j < q
    ensures CrcBits(Zeros(16), e) != Zeros(16)
  {
    var burst := e[p..q];
    ZerosOutside(e, p, q);
    PaddedRemainder(p, burst, |e| - q, e);
    BurstNoticed(burst, i - p);
  }

  /** Whatever the length, two messages that differ only inside 16 consecutive bits have different CRCs. */
  lemma BurstDetected(a: seq<Byte>, b: seq<Byte>, p: nat)
    requires DifferInBurst(BitsOf(a), BitsOf(b), p)
    ensures Crc(a) != Crc(b)
  {
    var x, y := BitsOf(a), BitsOf(b);
    var i :| 0 <= i < |x| && x[i] != y[i];
    BurstRemainder(Xor(x, y), p, if p + 16 <= |x| then p + 16 else |x|, i);
    SameCrc(x, y);
  }

  lemma GeneratorRemainder()
    ensures CrcBits(Zeros(16), [true] + Generator()) == Zeros(16)
  {
    var g := [true] + Generator();
    var x := AddTop(Zeros(16), true);
    assert x[1..] + [false] == Zeros(16);
    XorZero(Zeros(16), Generator());
    assert Xor(Zeros(16), Generator()) == Generator();
    assert ZeroStep(x) == Generator();
    assert g[1..] == Generator();
    assert Generator() + Zeros(0) == Generator();
    ShortInputClears(Generator(), Generator());
  }

  /** The bound is tight: at any place in any message, the 17-bit pattern of the generator goes unnoticed. */
  lemma GeneratorUndetected(before: Bits, m: Bits, after: Bits)
    requires |m| == 17
    ensures CrcBits(INIT_VALUE, before + m + after) ==
      CrcBits(INIT_VALUE, before + Xor(m, [true] + Generator()) + after)
  {
    var g := [true] + Generator();
    var a, b := before + m + after, before + Xor(m, g) + after;
    assert Xor(a, b) == Zeros(|before|) + g + Zeros(|after|);
    PaddedRemainder(|before|, g, |after|, Xor(a, b));
    GeneratorRemainder();
    SameCrc(a, b);
  }

  // ----- odd errors ------------------------------------------------------------------

  /** Whether the number of set bits is odd. */
  function Odd(b: Bits): bool {
    if b == [] then false else b[0] != Odd(b[1..])
  }

  lemma {:induction false} OddXor(a: Bits, b: Bits)
    requires |a| == |b|
    ensures Odd(Xor(a, b)) == (Odd(a) != Odd(b))
  {
    if a != [] {
      assert Xor(a, b)[1..] == Xor(a[1..], b[1..]);
      OddXor(a[1..], b[1..]);
    }
  }

  lemma {:induction false} OddShift(a: Bits)
    ensures Odd(a + [false]) == Odd(a)
  {
    if a != [] {
      assert (a + [false])[1..] == a[1..] + [false];
      OddShift(a[1..]);
    }
  }

  lemma {:induction false} OddZeros(n: nat)
    ensures !Odd(Zeros(n))
  {
    if n > 0 {
      assert Zeros(n)[1..] == Zeros(n - 1);
      OddZeros(n - 1);
    }
  }

  lemma {:induction false} OddTail(a: Bits, b: Bits)
    ensures Odd(a + b) == (Odd(a) != Odd(b))
  {
    if a == [] {
      assert a + b == b;
    } else {
      assert (a + b)[1..] == a[1..] + b;
      OddTail(a[1..], b);
    }
  }

  lemma GeneratorOdd()
    ensures Odd(Generator())
  {
    var g := Generator();
    OddZeros(3); OddZeros(4); OddZeros(6);
    assert g[12..] == Zeros(3) + [true];
    OddTail(Zeros(3), [true]);
    assert g[11..] == [false] + g[12..];
    assert g[3..] == [true] + (Zeros(6) + ([true] + (Zeros(4) + [true])));
    assert g == Zeros(3) + g[3..];
    OddTail(Zeros(3), g[3..]);
    OddTail(Zeros(6), [true] + (Zeros(4) + [true]));
    OddTail(Zeros(4), [true]);
    OddTail([true], Zeros(6) + ([true] + (Zeros(4) + [true])));
    OddTail([true], Zeros(4) + [true]);
  }

  /** The full generator has an even number of terms, so a step keeps the parity of the register. */
  lemma StepKeepsParity(r: Word)
    ensures Odd(ZeroStep(r)) == Odd(r)
  {
    OddShift(r[1..]);
    OddXor(r[1..] + [false], Generator());
    GeneratorOdd();
  }

  lemma {:induction false} ParityOfCrc(r: Word, b: Bits)
    ensures Odd(CrcBits(r, b)) == (Odd(r) != Odd(b))
    decreases b
  {
    if b != [] {
      var x := AddTop(r, b[0]);
      assert x[1..] == r[1..];
      StepKeepsParity(x);
      ParityOfCrc(ZeroStep(x), b[1..]);
    }
  }

  /** Two messages that differ in an odd number of bits, wherever they are, have different CRCs. */
  lemma OddErrorDetected(a: seq<Byte>, b: seq<Byte>)
    requires |a| == |b| && Odd(Xor(BitsOf(a), BitsOf(b)))
    ensures Crc(a) != Crc(b)
  {
    OddZeros(16);
    ParityOfCrc(Zeros(16), Xor(BitsOf(a), BitsOf(b)));
    SameCrc(BitsOf(a), BitsOf(b));
  }
}
