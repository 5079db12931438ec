// Range splitting in the serial NOR flash driver ev-sdk/drivers/at25xe/sm_at25xe.c.
//
// `at25xe_read` and `at25xe_write` split a byte range into sectors, these into pages,
// and each page becomes one device command.  The three levels together are proved
// equal to one flat operation on the byte range.
module SerialFlash {
  import opened Words

  const PAGE: nat := 256
  const SECTOR: nat := 4096

  // ----- the flat operations ----------------------------------------------------------

  /** Programming only clears bits: the bytes from `addr` on become their conjunction with `data`. */
  function Programmed(mem: seq<Byte>, addr: nat, data: seq<Byte>): (m: seq<Byte>)
    requires addr + |data| <= |mem|
    ensures |m| == |mem|
  {
    seq(|mem|, i requires 0 <= i < |mem| => if addr <= i < addr + |data| then mem[i] & data[i - addr] else mem[i])
  }

  /** `s` with `data` at `pos`. */
  function Overwritten(s: seq<Byte>, pos: nat, data: seq<Byte>): (r: seq<Byte>)
    requires pos + |data| <= |s|
    ensures |r| == |s|
  {
    s[..pos] + data + s[pos + |data|..]
  }

  /** Adjacent programs combine. */
  lemma ProgramTwice(mem: seq<Byte>, addr: nat, x: seq<Byte>, y: seq<Byte>)
    requires addr + |x| + |y| <= |mem|
    ensures Programmed(Programmed(mem, addr, x), addr + |x|, y) == Programmed(mem, addr, x + y)
  {
    var a, b := Programmed(Programmed(mem, addr, x), addr + |x|, y), Programmed(mem, addr, x + y);
    forall i | 0 <= i < |mem|
      ensures a[i] == b[i]
    {
    }
  }

  lemma OverwrittenIs(s: seq<Byte>, pos: nat, data: seq<Byte>, r: seq<Byte>)
    requires pos + |data| <= |s| == |r|
    requires forall i :: 0 <= i < |s| ==> r[i] == if pos <= i < pos + |data| then data[i - pos] else s[i]
    ensures r == Overwritten(s, pos, data)
  {
  }

  lemma OverwriteTwice(s: seq<Byte>, pos: nat, x: seq<Byte>, y: seq<Byte>)
    requires pos + |x| + |y| <= |s|
    ensures Overwritten(Overwritten(s, pos, x), pos + |x|, y) == Overwritten(s, pos, x + y)
  {
  }

  lemma Adjacent(s: seq<Byte>, a: nat, b: nat, c: nat)
    requires a <= b <= c <= |s|
    ensures s[a..b] + s[b..c] == s[a..c] && (a == 0 ==> s[a..b] == s[..b] && s[a..c] == s[..c])
  {
  }

  lemma NothingDone(mem: seq<Byte>, addr: nat)
    requires addr <= |mem|
    ensures Programmed(mem, addr, []) == mem && Overwritten(mem, addr, []) == mem
  {
  }

  /** Reading back what was programmed into erased bytes gives the data; in general its conjunction with the old
      bytes. */
  lemma ProgramErased(mem: seq<Byte>, addr: nat, data: seq<Byte>)
    requires addr + |data| <= |mem| && forall i :: addr <= i < addr + |data| ==> mem[i] == 0xFF
    ensures Programmed(mem, addr, data)[addr..addr + |data|] == data
  {
    var m := Programmed(mem, addr, data);
    forall k | 0 <= k < |data|
      ensures m[addr..addr + |data|][k] == data[k]
    {
      assert m[addr + k] == 0xFF & data[k];
    }
  }

  // ----- the device -----------------------------------------------------------------------

  /** The address that arrives in the three address bytes of a command. */
  function Wire(addr: nat): nat {
    (addr / 0x10000) % 256 * 0x10000 + (addr / 0x100) % 256 * 0x100 + addr % 256
  }

  lemma WireExact(addr: nat)
    ensures Wire(addr) == addr <==> addr < 0x100_0000
  {
  }

  /** The page program command: the internal byte counter wraps round inside the page. */
  function PageProgram(mem: seq<Byte>, addr: nat, data: seq<Byte>): (m: seq<Byte>)
    ensures |m| == |mem|
  {
    seq(|mem|, i requires 0 <= i < |mem| =>
      if i / PAGE == addr / PAGE && (i - addr) % PAGE < |data| then mem[i] & data[(i - addr) % PAGE] else mem[i])
  }

  lemma InPage(i: nat, addr: nat, n: nat)
    requires n >= 1 && addr % PAGE + n <= PAGE
    ensures i / PAGE == addr / PAGE && (i - addr) % PAGE < n <==> addr <= i < addr + n
    ensures addr <= i < addr + n ==> (i - addr) % PAGE == i - addr
  {
    if i / PAGE == addr / PAGE {
      assert i - addr == i % PAGE - addr % PAGE;
      if i < addr {
        assert (i - addr) % PAGE == i - addr + PAGE;
      }
    }
  }

  /** A command that stays inside its page programs the flat range. */
  lemma PageProgramFlat(mem: seq<Byte>, addr: nat, data: seq<Byte>)
    requires |data| >= 1 && addr % PAGE + |data| <= PAGE && addr + |data| <= |mem|
    ensures PageProgram(mem, addr, data) == Programmed(mem, addr, data)
  {
    var a, b := PageProgram(mem, addr, data), Programmed(mem, addr, data);
    forall i | 0 <= i < |mem|
      ensures a[i] == b[i]
    {
      InPage(i, addr, |data|);
    }
  }

  // ----- page and sector arithmetic --------------------------------------------------------

  function PageToSector(page: nat): nat {
    page * PAGE / SECTOR
  }

  function SectorToPage(sector: nat): nat {
    sector * SECTOR / PAGE
  }

  /** Sixteen pages to a sector: the conversions agree on every page of a sector. */
  lemma PageSector(sector: nat, k: nat)
    requires k < 16
    ensures SectorToPage(sector) == 16 * sector && PageToSector(SectorToPage(sector) + k) == sector
  {
  }

  lemma PageOffset(page: nat, off: nat)
    requires off < PAGE
    ensures (page * PAGE + off) % PAGE == off
  {
  }

  /** The byte count WritePage uses. */
  function PageCount(off: nat, n: nat): (c: nat)
    requires off < PAGE
    ensures 1 <= c && off + c <= PAGE && (if n >= 1 && off + n <= PAGE then c == n else c == PAGE - off)
  {
    if n + off > PAGE || n == 0 then PAGE - off else n
  }

  /** The byte count WriteSector and ReadSector use; 0 stands for a whole sector. */
  function SectorCount(off: nat, n: nat): (c: nat)
    requires off < SECTOR
    ensures 1 <= c && off + c <= SECTOR && (if n >= 1 && off + n <= SECTOR then c == n else c == SECTOR - off)
  {
    var m := if n > SECTOR || n == 0 then SECTOR else n;
    if off + m > SECTOR then SECTOR - off else m
  }

  /** The number of bytes a call moves: `len`, except that 0 means "up to the end of the sector". */
  function EffectiveLength(addr: nat, len: nat): nat {
    if len == 0 then SECTOR - addr % SECTOR else len
  }

  lemma Sectors(addr: nat, size: nat)
    requires addr < size && size % SECTOR == 0
    ensures addr / SECTOR * SECTOR + addr % SECTOR == addr && addr / SECTOR * SECTOR + SECTOR <= size
  {
  }

  /** How the driver splits off the part of the next sector: all that is left, or up to the end of the sector. */
  ghost predicate Split(begin: nat, left: nat, remain: nat) {
    1 <= remain <= left && remain <= SECTOR - begin % SECTOR && (remain < left ==> remain == SECTOR - begin % SECTOR)
  }

  lemma SplitStart(begin: nat, len: nat)
    requires len > 0
    ensures SECTOR - begin % SECTOR > 0
    ensures Split(begin, len, if len <= SECTOR - begin % SECTOR then len else SECTOR - begin % SECTOR)
  {
  }

  lemma SplitNext(begin: nat, left: nat, remain: nat)
    requires Split(begin, left, remain) && left != remain
    ensures Split(begin + remain, left - remain, if left - remain > SECTOR then SECTOR else left - remain)
  {
    assert (begin + remain) % SECTOR == 0;
  }

  lemma SplitCount(begin: nat, left: nat, remain: nat, size: nat)
    requires if left == 0 then remain == 0 else Split(begin, left, remain)
    requires begin < size && size % SECTOR == 0
    ensures begin % SECTOR < SECTOR && 0 <= remain <= left && (left > 0 ==> remain > 0)
    ensures SectorCount(begin % SECTOR, remain) == if left == 0 then SECTOR - begin % SECTOR else remain
    ensures begin / SECTOR * SECTOR + begin % SECTOR == begin && begin / SECTOR * SECTOR + SECTOR <= size
  {
    Sectors(begin, size);
  }

  class At25xe {
    var mem: seq<Byte>
    var lock: nat

    /** A part with three-byte addresses that is not busy. */
    ghost predicate Valid()
      reads this
    {
      lock == 0 && |mem| % SECTOR == 0 && |mem| <= 64 * 0x10000
    }

    constructor (blockCount: nat)
      requires blockCount in {2, 4, 8, 16, 32, 64}
      ensures Valid() && |mem| == blockCount * 0x10000 && forall i :: 0 <= i < |mem| ==> mem[i] == 0xFF
    {
      mem := seq(blockCount * 0x10000, _ => 0xFF);
      lock := 0;
    }

    method EraseSector(sector: nat)
      requires Valid() && sector * SECTOR < |mem|
      modifies this
      ensures Valid() && |mem| == |old(mem)|
      ensures forall i :: 0 <= i < |mem| ==> mem[i] == if i / SECTOR == sector then 0xFF else old(mem[i])
    {
      lock := 1;
      var addr := sector * SECTOR;
      WireExact(addr);
      var base := Wire(addr);
      mem := seq(|mem|, i requires 0 <= i < |mem| reads this => if base <= i < base + SECTOR then 0xFF else mem[i]);
      lock := 0;
    }

    method WritePage(buf: seq<Byte>, pos: nat, page: nat, off: nat, n: nat)
      requires Valid() && off < PAGE && page * PAGE + PAGE <= |mem| && pos + PageCount(off, n) <= |buf|
      modifies this
      ensures Valid() && mem == Programmed(old(mem), page * PAGE + off, buf[pos..pos + PageCount(off, n)])
    {
      hide Programmed, PageProgram, Wire, PageCount;
      lock := 1;
      var count := n;
      if count + off > PAGE || count == 0 {
        count := PAGE - off;
      }
      if off + count > PAGE {
        count := PAGE - off;
      }
      var addr := page * PAGE + off;
      WireExact(addr);
      PageOffset(page, off);
      PageProgramFlat(mem, addr, buf[pos..pos + count]);
      mem := PageProgram(mem, Wire(addr), buf[pos..pos + count]);
      lock := 0;
    }

    /** Splits a range of one sector into pages.  The source's do-while always has bytes left on entry. */
    method WriteSector(buf: seq<Byte>, start: nat, sector: nat, off: nat, n: nat)
      requires Valid() && sector * SECTOR + SECTOR <= |mem|
      requires off < SECTOR ==> start + SectorCount(off, n) <= |buf|
      modifies this
      ensures Valid()
      ensures off >= SECTOR ==> mem == old(mem)
      ensures off < SECTOR ==>
        mem == Programmed(old(mem), sector * SECTOR + off, buf[start..start + SectorCount(off, n)])
    {
      hide Programmed, PageCount, SectorCount, SectorToPage;
      PageSector(sector, 0);
      if off >= SECTOR {
        return;
      }
      ghost var total, base := SectorCount(off, n), sector * SECTOR + off;
      assert base + total <= sector * SECTOR + SECTOR <= |mem|;
      var bytes: int := SectorCount(off, n);
      var page := SectorToPage(sector) + off / PAGE;
      var local := off % PAGE;
      var pos := start;
      ghost var done := 0;
      NothingDone(mem, base);
      assert buf[start..start] == [];
      while bytes > 0
        invariant Valid() && |mem| == |old(mem)|
        invariant 0 <= done <= total && bytes <= total - done && (bytes > 0 ==> bytes == total - done)
        invariant bytes > 0 ==> pos == start + done && 0 <= local < PAGE && page * PAGE + local == base + done
        invariant bytes <= 0 ==> done == total
        invariant mem == Programmed(old(mem), base, buf[start..start + done])
      {
        assert page + 1 <= 16 * sector + 16;
        ghost var count := PageCount(local, bytes);
        WritePage(buf, pos, page, local, bytes);
        ProgramTwice(old(mem), base, buf[start..start + done], buf[pos..pos + count]);
        Adjacent(buf, start, pos, pos + count);
        done := done + count;
        page := page + 1;
        bytes := bytes - (PAGE - local);
        pos := pos + (PAGE - local);
        local := 0;
      }
    }

    /** Any byte range inside the part is programmed as one flat range, whatever sectors and pages it crosses. */
    method Write(addr: nat, buf: seq<Byte>, len: nat)
      requires Valid() && addr + EffectiveLength(addr, len) <= |mem| && EffectiveLength(addr, len) <= |buf|
      modifies this
      ensures Valid() && mem == Programmed(old(mem), addr, buf[..EffectiveLength(addr, len)])
    {
      hide Programmed, SectorCount, Split;
      if len > 0 { SplitStart(addr, len); }
      var begin, left, pos := addr, len, 0;
      var remain := SECTOR - begin % SECTOR;
      if left <= remain {
        remain := left;
      }
      NothingDone(mem, addr);
      assert buf[..0] == [];
      ghost var total := EffectiveLength(addr, len);
      while true
        invariant Valid() && |mem| == |old(mem)|
        invariant begin == addr + pos && left == len - pos && 0 <= remain <= left && (len > 0 ==> remain > 0)
        invariant if len == 0 then remain == 0 else Split(begin, left, remain)
        invariant mem == Programmed(old(mem), addr, buf[..pos])
        decreases left
      {
        ghost var count := SectorCount(begin % SECTOR, remain);
        SplitCount(begin, left, remain, |mem|);
        WriteSector(buf, pos, begin / SECTOR, begin % SECTOR, remain);
        ProgramTwice(old(mem), addr, buf[..pos], buf[pos..pos + count]);
        Adjacent(buf, 0, pos, pos + count);
        if left == remain {
          break;
        }
        SplitNext(begin, left, remain);
        pos := pos + remain;
        begin := begin + remain;
        left := left - remain;
        remain := if left > SECTOR then SECTOR else left;
      }
    }

    method ReadPage(buf: array<Byte>, pos: nat, page: nat, off: nat, n: nat)
      requires Valid() && off < PAGE && page * PAGE + PAGE <= |mem| && pos + PageCount(off, n) <= buf.Length
      modifies this`lock, buf
      ensures Valid()
      ensures var a, c := page * PAGE + off, PageCount(off, n);
        buf[..] == Overwritten(old(buf[..]), pos, mem[a..a + c])
    {
      hide Overwritten, Wire, PageCount;
      lock := 1;
      ghost var was := buf[..];
      var count := n;
      if count > PAGE || count == 0 {
        count := PAGE;
      }
      if off + count > PAGE {
        count := PAGE - off;
      }
      var addr := page * PAGE + off;
      WireExact(addr);
      addr := Wire(addr);
      forall k | 0 <= k < count {
        buf[pos + k] := mem[addr + k];
      }
      OverwrittenIs(was, pos, mem[addr..addr + count], buf[..]);
      lock := 0;
    }

    method ReadSector(buf: array<Byte>, start: nat, sector: nat, off: nat, n: nat)
      requires Valid() && sector * SECTOR + SECTOR <= |mem|
      requires off < SECTOR ==> start + SectorCount(off, n) <= buf.Length
      modifies this`lock, buf
      ensures Valid()
      ensures off >= SECTOR ==> buf[..] == old(buf[..])
      ensures off < SECTOR ==> var a := sector * SECTOR + off;
        buf[..] == Overwritten(old(buf[..]), start, mem[a..a + SectorCount(off, n)])
    {
      hide Overwritten, PageCount, SectorCount, SectorToPage;
      PageSector(sector, 0);
      if off >= SECTOR {
        return;
      }
      ghost var total, base, was := SectorCount(off, n), sector * SECTOR + off, buf[..];
      var bytes: int := SectorCount(off, n);
      var page := SectorToPage(sector) + off / PAGE;
      var local := off % PAGE;
      var pos := start;
      ghost var done := 0;
      NothingDone(was, start);
      assert mem[base..base] == [];
      while bytes > 0
        invariant Valid()
        invariant 0 <= done <= total && (bytes > 0 ==> bytes == total - done) && (bytes <= 0 ==> done == total)
        invariant bytes > 0 ==> pos == start + done && 0 <= local < PAGE && page * PAGE + local == base + done
        invariant buf[..] == Overwritten(was, start, mem[base..base + done])
      {
        assert page + 1 <= 16 * sector + 16;
        ghost var count := PageCount(local, bytes);
        ReadPage(buf, pos, page, local, bytes);
        OverwriteTwice(was, start, mem[base..base + done], mem[base + done..base + done + count]);
        Adjacent(mem, base, base + done, base + done + count);
        done := done + count;
        page := page + 1;
        bytes := bytes - (PAGE - local);
        pos := pos + (PAGE - local);
        local := 0;
      }
    }

    /** Any byte range inside the part is read as one flat range; the rest of the buffer is untouched. */
    method Read(addr: nat, buf: array<Byte>, len: nat)
      requires Valid() && addr + EffectiveLength(addr, len) <= |mem| && EffectiveLength(addr, len) <= buf.Length
      modifies this`lock, buf
      ensures Valid()
      ensures buf[..] == Overwritten(old(buf[..]), 0, mem[addr..addr + EffectiveLength(addr, len)])
    {
      hide Overwritten, SectorCount, Split;
      if len > 0 { SplitStart(addr, len); }
      var begin, left, pos := addr, len, 0;
      var remain := SECTOR - begin % SECTOR;
      if left <= remain {
        remain := left;
      }
      ghost var total, was := EffectiveLength(addr, len), buf[..];
      NothingDone(was, 0);
      assert mem[addr..addr] == [];
      while true
        invariant Valid()
        invariant begin == addr + pos && left == len - pos && 0 <= remain <= left && (len > 0 ==> remain > 0)
        invariant if len == 0 then remain == 0 else Split(begin, left, remain)
        invariant buf[..] == Overwritten(was, 0, mem[addr..begin])
        decreases left
      {
        ghost var count := SectorCount(begin % SECTOR, remain);
        SplitCount(begin, left, remain, |mem|);
        ReadSector(buf, pos, begin / SECTOR, begin % SECTOR, remain);
        OverwriteTwice(was, 0, mem[addr..begin], mem[begin..begin + count]);
        Adjacent(mem, addr, begin, begin + count);
        if left == remain {
          break;
        }
        SplitNext(begin, left, remain);
        pos := pos + remain;
        begin := begin + remain;
        left := left - remain;
        remain := if left > SECTOR then SECTOR else left;
      }
    }

    /** Writing into erased flash and reading the range back returns the buffer. */
    method WriteThenRead(addr: nat, data: seq<Byte>, out: array<Byte>)
      requires Valid() && addr + |data| <= |mem| && 1 <= |data| <= out.Length
      requires forall i :: addr <= i < addr + |data| ==> mem[i] == 0xFF
      modifies this, out
      ensures out[..|data|] == data
    {
      ghost var was := mem;
      Write(addr, data, |data|);
      assert data[..|data|] == data;
      Read(addr, out, |data|);
      ProgramErased(was, addr, data);
    }
  }
}
