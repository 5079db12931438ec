// The flash of ev-sdk/cores/storage/sm_core_param.c: two sections of 256 words, of which
// one is active.  Word 0 of a section is its header, the other words are entries.
module ParamFlash {
  import opened Optional
  import opened Arithmetic

  type Word16 = x: int | 0 <= x < 0x1_0000

  /** One 32-bit flash word: `nParam` in its low half, `nValue` in its high half. */
  datatype Cell = Cell(param: Word16, value: Word16)

  const ACTIVE_FLAG := Cell(0xF50A, 0x55AA)
  const UNUSED_FLAG := Cell(0x0000, 0x0000)
  const ZERO_BLOCK := Cell(0x0000, 0xFFFF)
  const FREE_BLOCK := Cell(0xFFFF, 0xFFFF)

  const SECTION_SIZE: nat := 256
  const MAX_PARAM_ITEM: nat := 50

  datatype Section = Low | High {
    function Other(): Section {
      if Low? then High else Low
    }
  }

  /** The word address of a section. */
  function SectionBase(s: Section): nat {
    if s.Low? then 0xFE00 else 0xFF00
  }

  /** The guard of the source's scans. */
  predicate ScanGoesOn(addr: Word16, s: Section) {
    addr < SectionBase(s) + SECTION_SIZE
  }

  /** For a 16-bit counter the guard never becomes false in the High section, and the erase-block number
      `base >> 9` is the same for both sections.  The model therefore uses a wider counter and an erase that is
      confined to its section. */
  lemma AddressLimits(s: Section)
    ensures (forall a: Word16 :: ScanGoesOn(a, s)) <==> s.High?
    ensures SectionBase(Low) / 512 == SectionBase(High) / 512
  {
    assert !ScanGoesOn(0xFFFF, Low);
  }

  type Cells = c: seq<Cell> | |c| == SECTION_SIZE witness Erased()

  function Erased(): (c: seq<Cell>)
    ensures |c| == SECTION_SIZE && forall a :: 0 <= a < SECTION_SIZE ==> c[a] == FREE_BLOCK
  {
    seq(SECTION_SIZE, _ => FREE_BLOCK)
  }

  datatype Flash = Flash(low: Cells, high: Cells) {
    function At(s: Section): Cells {
      if s.Low? then low else high
    }

    function With(s: Section, cells: Cells): (f: Flash)
      ensures f.At(s) == cells && f.At(s.Other()) == At(s.Other())
    {
      if s.Low? then Flash(cells, high) else Flash(low, cells)
    }
  }

  /** Bitwise conjunction. */
  function And(a: nat, b: nat): (c: nat)
    ensures c <= a
  {
    if a == 0 then 0 else 2 * And(a / 2, b / 2) + (if a % 2 == 1 && b % 2 == 1 then 1 else 0)
  }

  lemma {:induction false} AndOnes(ones: nat, b: nat, n: nat)
    requires ones == Pow2(n) - 1 && b <= ones
    ensures And(ones, b) == b && And(b, ones) == b && And(b, 0) == 0
    decreases n
  {
    if n > 0 {
      AndOnes(ones / 2, b / 2, n - 1);
    }
  }

  /** Programming flash only clears bits. */
  function Program(was: Cell, word: Cell): (now: Cell)
    ensures was == FREE_BLOCK ==> now == word
    ensures word == ZERO_BLOCK ==> now == Cell(0, was.value)
    ensures word == UNUSED_FLAG ==> now == UNUSED_FLAG
  {
    PowersOfTwo();
    AndOnes(0xFFFF, was.param, 16);
    AndOnes(0xFFFF, was.value, 16);
    AndOnes(0xFFFF, word.param, 16);
    AndOnes(0xFFFF, word.value, 16);
    Cell(And(was.param, word.param), And(was.value, word.value))
  }

  /** The address of a word in flash. */
  datatype Ref = Ref(section: Section, addr: nat)

  // ----- what a flash image holds -----------------------------------------------------

  /** The entries up to `used` are taken and all later ones are free. */
  ghost predicate UsedPrefix(cells: Cells, used: nat) {
    used < SECTION_SIZE && forall a :: 1 <= a < SECTION_SIZE ==> (cells[a] == FREE_BLOCK <==> used < a)
  }

  /** The entry at `a` is the only one for parameter `id`. */
  ghost predicate OnlyEntry(cells: Cells, id: Word16, a: nat) {
    && 1 <= a < SECTION_SIZE && cells[a].param == id
    && forall b :: 1 <= b < SECTION_SIZE && cells[b].param == id ==> b == a
  }

  ghost predicate NoEntry(cells: Cells, id: Word16) {
    forall a :: 1 <= a < SECTION_SIZE ==> cells[a].param != id
  }

  ghost predicate Stores(cells: Cells, id: Word16, value: Word16) {
    exists a: nat :: OnlyEntry(cells, id, a) && cells[a].value == value
  }

  /** The section that initialisation chooses: Low if its header is valid, else High. */
  function BootSection(f: Flash): Option<Section> {
    if f.low[0] == ACTIVE_FLAG then Some(Low)
    else if f.high[0] == ACTIVE_FLAG then Some(High)
    else None
  }

  /** Clearing a header leaves the other section as the one a restart chooses. */
  lemma RetireSection(f: Flash, s: Section)
    requires f.At(s.Other())[0] == ACTIVE_FLAG
    ensures BootSection(f.With(s, f.At(s)[0 := Program(f.At(s)[0], UNUSED_FLAG)])) == Some(s.Other())
  {
    assert Program(f.At(s)[0], UNUSED_FLAG) == UNUSED_FLAG;
  }

  /** Parameter ids: distinct, and neither the dead id 0 nor the erased id 0xFFFF. */
  ghost predicate GoodIds(ids: seq<Word16>) {
    && |ids| <= MAX_PARAM_ITEM
    && (forall i :: 0 <= i < |ids| ==> ids[i] != 0 && ids[i] != 0xFFFF)
    && (forall i, j :: 0 <= i < j < |ids| ==> ids[i] != ids[j])
  }
}
