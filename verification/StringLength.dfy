// The word-at-a-time string length `slen` of ev-sdk/utils/sm_string_util.c.
module StringLength {
  import opened Words

  function Word(b0: Byte, b1: Byte, b2: Byte, b3: Byte): bv32 {
    (b0 as bv32) | ((b1 as bv32) << 8) | ((b2 as bv32) << 16) | ((b3 as bv32) << 24)
  }

  /** The little-endian 32-bit word at address `a`. */
  function WordAt(mem: seq<Byte>, a: nat): bv32
    requires a + 4 <= |mem|
  {
    Word(mem[a], mem[a + 1], mem[a + 2], mem[a + 3])
  }

  /** The test of the source: `(w - 0x01010101) & ~w & 0x80808080`. */
  function ZeroByteMask(w: bv32): bv32 {
    (w - 0x0101_0101) & !w & 0x8080_8080
  }

  /** The mask is non-zero exactly when the word holds a zero byte: the test never misfires. */
  lemma MaskExact(b0: Byte, b1: Byte, b2: Byte, b3: Byte)
    ensures ZeroByteMask(Word(b0, b1, b2, b3)) != 0 <==> b0 == 0 || b1 == 0 || b2 == 0 || b3 == 0
  {
  }

  /** The string at `str` has `len` bytes before its terminator, and the aligned word that holds the
      terminator is readable; nothing is assumed about the memory behind that word. */
  ghost predicate StringAt(mem: seq<Byte>, str: nat, len: nat) {
    && (str + len) / 4 * 4 + 4 <= |mem|
    && mem[str + len] == 0
    && forall k :: str <= k < str + len ==> mem[k] != 0
  }

  /** The length of the string modulo 2^16, for every string and every alignment of its start. */
  method Slen(mem: seq<Byte>, str: nat, ghost len: nat) returns (r: nat)
    requires StringAt(mem, str, len)
    ensures r == len % 0x1_0000
  {
    hide Word, ZeroByteMask;
    var p := str;
    while p % 4 != 0
      invariant str <= p <= str + len + 1 && forall k :: str <= k < p ==> mem[k] != 0
      decreases str + len - p
    {
      if mem[p] == 0 {
        return (p - str) % 0x1_0000;
      }
      p := p + 1;
    }
    while true
      invariant str <= p <= str + len && p % 4 == 0
      decreases str + len - p
    {
      var word := WordAt(mem, p);
      MaskExact(mem[p], mem[p + 1], mem[p + 2], mem[p + 3]);
      if ZeroByteMask(word) != 0 {
        if mem[p] == 0 { return (p - str) % 0x1_0000; }
        if mem[p + 1] == 0 { return (p - str + 1) % 0x1_0000; }
        if mem[p + 2] == 0 { return (p - str + 2) % 0x1_0000; }
        if mem[p + 3] == 0 { return (p - str + 3) % 0x1_0000; }
      }
      p := p + 4;
    }
  }
}
