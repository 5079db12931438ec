// The flash parameter log of ev-sdk/cores/storage/sm_core_param.c.
//
// Two flash sections of 256 words; one is active.  Word 0 of a section is its
// header, the other words are (parameter, value) entries appended in order.  An
// update zeroes the parameter's old entry and appends a new one; when the section
// is full the live entries are copied to the other section, which becomes active.
//
// Every operation is proved to leave, after each single write, exactly the state that
// ParamDisk gives for it.
module ParamLog {
  import opened Optional
  import opened Arithmetic
  import opened ParamFlash
  import opened ParamDisk

  // ----- flash images and the states they show -----------------------------------------

  /** The used entries form a prefix, each stored parameter has one entry, the others none. */
  ghost predicate Holds(cells: Cells, m: map<Word16, Word16>, used: nat, ids: seq<Word16>) {
    && UsedPrefix(cells, used)
    && forall i :: 0 <= i < |ids| ==>
         if ids[i] in m then Stores(cells, ids[i], m[ids[i]]) else NoEntry(cells, ids[i])
  }

  /** The image `f` shows the state `d`. */
  ghost predicate Shows(f: Flash, d: Disk, ids: seq<Word16>) {
    && Sound(d, ids)
    && if d.Blank? then BootSection(f).None?
       else BootSection(f) == Some(d.section) && Holds(f.At(d.section), d.stored, d.used, ids)
  }

  /** The images show the states of a trace, one by one. */
  ghost predicate Traced(images: seq<Flash>, trace: seq<Disk>, ids: seq<Word16>) {
    |images| == |trace| && forall k :: 0 <= k < |trace| ==> Shows(images[k], trace[k], ids)
  }

  /** `now` continues the history `was` with images that show `trace`. */
  ghost predicate Continues(was: seq<Flash>, now: seq<Flash>, trace: seq<Disk>, ids: seq<Word16>) {
    was <= now && Traced(now[|was|..], trace, ids)
  }

  lemma ContinuesNone(was: seq<Flash>, ids: seq<Word16>)
    ensures Continues(was, was, [], ids)
  {
  }

  lemma ContinuesJoin(was: seq<Flash>, mid: seq<Flash>, now: seq<Flash>, a: seq<Disk>, b: seq<Disk>, ids: seq<Word16>)
    requires Continues(was, mid, a, ids) && Continues(mid, now, b, ids)
    ensures Continues(was, now, a + b, ids)
  {
    hide Shows;
    assert now[|was|..] == mid[|was|..] + now[|mid|..];
  }

  lemma ContinuesOne(was: seq<Flash>, f: Flash, d: Disk, ids: seq<Word16>)
    requires Shows(f, d, ids)
    ensures Continues(was, was + [f], [d], ids)
  {
    hide Shows;
  }

  lemma TraceParts(trace: seq<Disk>, k: nat)
    requires 2 <= k < |trace|
    ensures trace[..2] + trace[2..k] + [trace[k]] == trace[..k + 1]
  {
    assert trace[..2] + trace[2..k] == trace[..k];
  }

  lemma TraceStep(was: seq<Flash>, mid: seq<Flash>, f: Flash, trace: seq<Disk>, k: nat, ids: seq<Word16>)
    requires 2 <= k < |trace| && Continues(was, mid, trace[2..k], ids) && Shows(f, trace[k], ids)
    ensures Continues(was, mid + [f], trace[2..k + 1], ids)
  {
    hide Shows, Continues;
    ContinuesOne(mid, f, trace[k], ids);
    ContinuesJoin(was, mid, mid + [f], trace[2..k], [trace[k]], ids);
    assert trace[2..k] + [trace[k]] == trace[2..k + 1];
  }

  /** The entry of every parameter but `id` stays where it is. */
  ghost predicate SameEntries(was: Cells, now: Cells, id: Word16) {
    forall x, a: nat :: x != id && x != 0 && x != 0xFFFF && OnlyEntry(was, x, a) ==>
      OnlyEntry(now, x, a) && now[a] == was[a]
  }

  lemma ZeroHolds(cells: Cells, m: map<Word16, Word16>, used: nat, ids: seq<Word16>, id: Word16, a: nat)
    requires Holds(cells, m, used, ids) && GoodIds(ids) && id in ids && OnlyEntry(cells, id, a)
    ensures var now := cells[a := Cell(0, cells[a].value)];
      Holds(now, m - {id}, used, ids) && SameEntries(cells, now, id) && NoEntry(now, id) && a <= used
  {
    var now := cells[a := Cell(0, cells[a].value)];
    forall i | 0 <= i < |ids|
      ensures if ids[i] in m - {id} then Stores(now, ids[i], m[ids[i]]) else NoEntry(now, ids[i])
    {
      if ids[i] in m - {id} {
        var b: nat :| OnlyEntry(cells, ids[i], b) && cells[b].value == m[ids[i]];
        assert OnlyEntry(now, ids[i], b) && now[b].value == m[ids[i]];
      }
    }
  }

  lemma AppendHolds(cells: Cells, m: map<Word16, Word16>, used: nat, ids: seq<Word16>, entry: Cell)
    requires Holds(cells, m, used, ids) && GoodIds(ids) && entry.param in ids && NoEntry(cells, entry.param)
    requires used < SECTION_SIZE - 1
    ensures var now := cells[used + 1 := entry];
      && Holds(now, m[entry.param := entry.value], used + 1, ids) && SameEntries(cells, now, entry.param)
      && OnlyEntry(now, entry.param, used + 1)
  {
    var now := cells[used + 1 := entry];
    assert OnlyEntry(now, entry.param, used + 1) && now[used + 1].value == entry.value;
    forall i | 0 <= i < |ids| && ids[i] != entry.param
      ensures if ids[i] in m then Stores(now, ids[i], m[ids[i]]) else NoEntry(now, ids[i])
    {
      if ids[i] in m {
        var b: nat :| OnlyEntry(cells, ids[i], b) && cells[b].value == m[ids[i]];
        assert OnlyEntry(now, ids[i], b) && now[b].value == m[ids[i]];
      }
    }
  }

  lemma EmptyHolds(ids: seq<Word16>)
    requires GoodIds(ids)
    ensures Holds(Erased()[0 := ACTIVE_FLAG], map[], 0, ids)
  {
  }

  lemma FreeWord(cells: Cells, m: map<Word16, Word16>, used: nat, ids: seq<Word16>)
    requires Holds(cells, m, used, ids)
    ensures used < SECTION_SIZE && (used + 1 < SECTION_SIZE ==> cells[used + 1] == FREE_BLOCK)
  {
  }

  /** The only entry of a stored parameter has its value. */
  lemma EntryValue(cells: Cells, m: map<Word16, Word16>, used: nat, ids: seq<Word16>, i: nat, a: nat)
    requires Holds(cells, m, used, ids) && i < |ids| && 1 <= a < SECTION_SIZE && cells[a].param == ids[i]
    ensures ids[i] in m && OnlyEntry(cells, ids[i], a) && cells[a].value == m[ids[i]]
  {
    if ids[i] in m {
      var b: nat :| OnlyEntry(cells, ids[i], b) && cells[b].value == m[ids[i]];
    }
  }

  /** Where a swap puts item `n` when item `z` is the dead one: dense, in order. */
  function NewAddr(n: nat, z: nat): (a: nat) {
    if n <= z then n + 1 else n
  }

  lemma RestrictStep(m: map<Word16, Word16>, keep: seq<Word16>, c: nat)
    requires c < |keep| && keep[c] in m
    ensures Restrict(m, keep[..c + 1]) == Restrict(m, keep[..c])[keep[c] := m[keep[c]]]
  {
    assert keep[..c + 1] == keep[..c] + [keep[c]];
  }

  /** The image after `c` entries have been copied. */
  lemma CopyShows(f: Flash, d: Disk, keep: seq<Word16>, entry: Cell, c: nat, ids: seq<Word16>)
    requires d.Disk? && Sound(d, ids) && c <= |keep| < MAX_PARAM_ITEM
    requires Holds(f.At(d.section), d.stored, d.used, ids) && f.At(d.section)[0] == ACTIVE_FLAG
    requires f.At(d.section.Other())[0] == ACTIVE_FLAG
    requires Holds(f.At(d.section.Other()), Restrict(d.stored, keep[..c]), c, ids)
    ensures c + 1 < |SwapTrace(d, keep, entry)| - 2
    ensures Shows(f, SwapTrace(d, keep, entry)[c + 1], ids)
  {
    hide Holds;
  }

  /** The part of an update's trace before a swap: zero the old entry, then append if there is room. */
  function ScanTrace(d: Disk, entry: Cell): seq<Disk>
    requires d.Disk?
  {
    var zeroed := d.(stored := d.stored - {entry.param});
    (if entry.param in d.stored then [zeroed] else []) +
      (if d.used < SECTION_SIZE - 1 then [Add(zeroed, entry)] else [])
  }

  lemma ScanParts(d: Disk, entry: Cell)
    requires d.Disk?
    ensures var zeroed := d.(stored := d.stored - {entry.param});
      var zero := if entry.param in d.stored then [zeroed] else [];
      ScanTrace(d, entry) == if d.used < SECTION_SIZE - 1 then zero + [Add(zeroed, entry)] else zero
  {
  }

  lemma PutParts(d: Disk, keep: seq<Word16>, entry: Cell)
    requires d.Disk?
    ensures PutTrace(d, keep, entry) == if d.used < SECTION_SIZE - 1 then ScanTrace(d, entry)
      else ScanTrace(d, entry) + SwapTrace(d.(stored := d.stored - {entry.param}), keep, entry)
  {
  }

  lemma UpdateParts(d: Disk, ids: seq<Word16>, z: nat, value: Word16)
    requires GoodIds(ids) && z < |ids| && Complete(d, ids)
    ensures var t, e := PutTrace(d, Others(ids, z), Cell(ids[z], value)), Last(d, UpdateTrace(d, ids, z, value));
      && UpdateTrace(d, ids, z, value) == t && e == Last(d, t) && e.Disk?
      && e.stored == d.stored[ids[z] := value]
      && e.used == (if d.used < SECTION_SIZE - 1 then d.used + 1 else |ids|)
      && e.section == (if d.used < SECTION_SIZE - 1 then d.section else d.section.Other())
    ensures d.used < SECTION_SIZE
  {
    hide PutTrace;
    UpdateComplete(d, ids, z, value);
  }

  lemma SwapEnd(d: Disk, keep: seq<Word16>, entry: Cell)
    requires d.Disk?
    ensures var t, copied := SwapTrace(d, keep, entry), Disk(d.section.Other(), Restrict(d.stored, keep), |keep|);
      |t| == |keep| + 4 && t == t[..|keep| + 3] + [Add(copied, entry)]
  {
  }

  lemma EntryKnown(f: Flash, d: Disk, ids: seq<Word16>, i: nat)
    requires d.Disk? && Shows(f, d, ids) && i < |ids|
    ensures ids[i] in d.stored <==> !NoEntry(f.At(d.section), ids[i])
    ensures forall a: nat :: 1 <= a < SECTION_SIZE && f.At(d.section)[a].param == ids[i] ==>
      OnlyEntry(f.At(d.section), ids[i], a)
  {
  }

  lemma FreeAt(f: Flash, d: Disk, ids: seq<Word16>)
    requires d.Disk? && Shows(f, d, ids)
    ensures d.used < SECTION_SIZE && (d.used + 1 < SECTION_SIZE ==> f.At(d.section)[d.used + 1] == FREE_BLOCK)
  {
  }

  lemma KeptWithout(ids: seq<Word16>, count: nat, z: nat)
    requires GoodIds(ids) && z <= count <= |ids| && z < |ids|
    ensures ids[z] !in Others(ids[..count], z) && |Others(ids[..count], z)| < MAX_PARAM_ITEM
  {
  }

  lemma StoredOrNot(f: Flash, d: Disk, ids: seq<Word16>, i: nat)
    requires d.Disk? && Shows(f, d, ids) && i < |ids| && ids[i] !in d.stored
    ensures NoEntry(f.At(d.section), ids[i])
  {
  }

  /** The first `n` items, except `z`, have been copied to `dst`, in order, and refer to it. */
  ghost predicate Copied(m: map<Word16, Word16>, dst: Cells, was: seq<Ref>, now: seq<Ref>, ids: seq<Word16>,
                         target: Section, n: nat, z: nat)
  {
    && n <= |was| == |now| <= |ids| && z <= |was|
    && NewAddr(n, z) - 1 <= |Others(ids[..|was|], z)|
    && dst[0] == ACTIVE_FLAG
    && Holds(dst, Restrict(m, Others(ids[..|was|], z)[..NewAddr(n, z) - 1]), NewAddr(n, z) - 1, ids)
    && (forall i :: n <= i < |was| ==> now[i] == was[i])
    && (forall i :: 0 <= i < n && i != z ==>
          now[i] == Ref(target, NewAddr(i, z)) && OnlyEntry(dst, ids[i], NewAddr(i, z)))
  }

  lemma CopyStart(m: map<Word16, Word16>, dst: Cells, was: seq<Ref>, ids: seq<Word16>, target: Section, z: nat)
    requires GoodIds(ids) && z <= |was| <= |ids| && dst == Erased()[0 := ACTIVE_FLAG]
    ensures Copied(m, dst, was, was, ids, target, 0, z)
  {
    hide Holds;
    assert Restrict(m, []) == map[];
    EmptyHolds(ids);
  }

  lemma GoodPair(ids: seq<Word16>, n: nat, i: nat)
    requires GoodIds(ids) && n < |ids| && i < |ids|
    ensures ids[i] != 0 && ids[i] != 0xFFFF && ids[n] in ids && (i != n ==> ids[i] != ids[n])
  {
  }

  lemma KeptAt(ids: seq<Word16>, count: nat, n: nat, z: nat)
    requires GoodIds(ids) && n < count <= |ids| && z <= count && z < |ids| && n != z
    ensures var keep, b := Others(ids[..count], z), NewAddr(n, z);
      1 <= b <= |keep| < MAX_PARAM_ITEM && keep[b - 1] == ids[n] && ids[n] !in keep[..b - 1]
  {
    var keep, b := Others(ids[..count], z), NewAddr(n, z);
    hide Others;
    forall j | 0 <= j < b - 1
      ensures keep[j] != ids[n]
    {
      GoodPair(ids, n, if j < z then j else j + 1);
    }
  }

  lemma NotCopied(dst: Cells, m: map<Word16, Word16>, ids: seq<Word16>, count: nat, n: nat, z: nat)
    requires GoodIds(ids) && n < count <= |ids| && z <= count && z < |ids| && n != z
    requires Holds(dst, Restrict(m, Others(ids[..count], z)[..NewAddr(n, z) - 1]), NewAddr(n, z) - 1, ids)
    ensures NoEntry(dst, ids[n])
  {
    KeptAt(ids, count, n, z);
  }

  /** Item `n` goes to the next free word of the target section. */
  lemma CopyOne(cells: Cells, m: map<Word16, Word16>, used: nat, dst: Cells, ids: seq<Word16>, count: nat, n: nat,
                z: nat, a: nat)
    requires GoodIds(ids) && n < count <= |ids| && z <= count && z < |ids| && n != z
    requires Holds(cells, m, used, ids) && 1 <= a < SECTION_SIZE && cells[a].param == ids[n]
    requires Holds(dst, Restrict(m, Others(ids[..count], z)[..NewAddr(n, z) - 1]), NewAddr(n, z) - 1, ids)
    ensures var keep, b := Others(ids[..count], z), NewAddr(n, z);
      && 1 <= b <= |keep| < MAX_PARAM_ITEM && dst[b] == FREE_BLOCK
      && Holds(dst[b := cells[a]], Restrict(m, keep[..b]), b, ids)
      && SameEntries(dst, dst[b := cells[a]], ids[n]) && OnlyEntry(dst[b := cells[a]], ids[n], b)
  {
    hide Restrict, Holds, GoodIds, Others, NewAddr, SameEntries, OnlyEntry;
    var keep, b := Others(ids[..count], z), NewAddr(n, z);
    EntryValue(cells, m, used, ids, n, a);
    KeptAt(ids, count, n, z);
    FreeWord(dst, Restrict(m, keep[..b - 1]), b - 1, ids);
    RestrictStep(m, keep, b - 1);
    NotCopied(dst, m, ids, count, n, z);
    AppendHolds(dst, Restrict(m, keep[..b - 1]), b - 1, ids, cells[a]);
  }

  lemma KeepsEntry(was: Cells, now: Cells, id: Word16, x: Word16, a: nat)
    requires SameEntries(was, now, id) && OnlyEntry(was, x, a) && x != id && x != 0 && x != 0xFFFF
    ensures OnlyEntry(now, x, a) && now[a] == was[a]
  {
  }

  /** One step of the copying loop. */
  lemma CopyStep(cells: Cells, m: map<Word16, Word16>, used: nat, dst: Cells, was: seq<Ref>, now: seq<Ref>,
                 ids: seq<Word16>, target: Section, n: nat, z: nat)
    requires GoodIds(ids) && Copied(m, dst, was, now, ids, target, n, z) && n < |was| && z < |ids| && n != z
    requires Holds(cells, m, used, ids) && 1 <= now[n].addr < SECTION_SIZE && cells[now[n].addr].param == ids[n]
    ensures var keep, b, cell := Others(ids[..|was|], z), NewAddr(n, z), cells[now[n].addr];
      && 1 <= b <= |keep| < MAX_PARAM_ITEM && dst[b] == FREE_BLOCK && dst[0] == ACTIVE_FLAG
      && Holds(dst[b := cell], Restrict(m, keep[..b]), b, ids)
      && Copied(m, dst[b := cell], was, now[n := Ref(target, b)], ids, target, n + 1, z)
  {
    hide Restrict, Holds, SameEntries, OnlyEntry, Others, GoodIds;
    var b, cell := NewAddr(n, z), cells[now[n].addr];
    CopyOne(cells, m, used, dst, ids, |was|, n, z, now[n].addr);
    forall i | 0 <= i < n && i != z
      ensures OnlyEntry(dst[b := cell], ids[i], NewAddr(i, z))
    {
      GoodPair(ids, n, i);
      KeepsEntry(dst, dst[b := cell], ids[n], ids[i], NewAddr(i, z));
    }
  }

  lemma CopySkip(m: map<Word16, Word16>, dst: Cells, was: seq<Ref>, now: seq<Ref>, ids: seq<Word16>, target: Section,
                 z: nat)
    requires Copied(m, dst, was, now, ids, target, z, z) && z < |was|
    ensures Copied(m, dst, was, now, ids, target, z + 1, z)
  {
    hide Holds, OnlyEntry, Restrict;
  }

  lemma CopiedEnd(m: map<Word16, Word16>, dst: Cells, was: seq<Ref>, now: seq<Ref>, ids: seq<Word16>, target: Section,
                  z: nat)
    requires Copied(m, dst, was, now, ids, target, |was|, z)
    ensures var keep := Others(ids[..|was|], z);
      && |now| == |was| && dst[0] == ACTIVE_FLAG && Holds(dst, Restrict(m, keep), |keep|, ids)
    ensures forall i :: 0 <= i < |was| && i != z ==>
      now[i] == Ref(target, NewAddr(i, z)) && OnlyEntry(dst, ids[i], NewAddr(i, z))
  {
    hide Holds, OnlyEntry, Restrict;
    assert var keep := Others(ids[..|was|], z); keep[..|keep|] == keep;
  }

  lemma FirstState(d: Disk, keep: seq<Word16>, entry: Cell)
    requires d.Disk?
    ensures SwapTrace(d, keep, entry)[0] == d
  {
  }

  /** Formatting the section that is not chosen. */
  lemma FormatShows(f: Flash, d: Disk, keep: seq<Word16>, entry: Cell, ids: seq<Word16>, was: seq<Flash>,
                    now: seq<Flash>)
    requires d.Disk? && GoodIds(ids) && Shows(f, d, ids) && |keep| < MAX_PARAM_ITEM
    requires var s := d.section.Other(); now == was + [f.With(s, Erased()), f.With(s, Erased()[0 := ACTIVE_FLAG])]
    ensures Continues(was, now, SwapTrace(d, keep, entry)[..2], ids)
    ensures Sound(d, ids) && f.At(d.section)[0] == ACTIVE_FLAG && Holds(f.At(d.section), d.stored, d.used, ids)
  {
    hide Holds, SwapTrace;
    var s, trace := d.section.Other(), SwapTrace(d, keep, entry);
    var erased, formatted := f.With(s, Erased()), f.With(s, Erased()[0 := ACTIVE_FLAG]);
    FirstState(d, keep, entry);
    assert Shows(erased, trace[0], ids);
    EmptyHolds(ids);
    assert Restrict(d.stored, keep[..0]) == map[];
    CopyShows(formatted, d, keep, entry, 0, ids);
    assert now[|was|..] == [erased, formatted];
  }

  /** Clearing the old header. */
  lemma RetireShows(f: Flash, d: Disk, keep: seq<Word16>, entry: Cell, ids: seq<Word16>)
    requires d.Disk? && GoodIds(ids) && Sound(d, ids) && |keep| < MAX_PARAM_ITEM
    requires f.At(d.section.Other())[0] == ACTIVE_FLAG
    requires Holds(f.At(d.section.Other()), Restrict(d.stored, keep), |keep|, ids)
    ensures Shows(f.With(d.section, f.At(d.section)[0 := Program(f.At(d.section)[0], UNUSED_FLAG)]),
                  SwapTrace(d, keep, entry)[|keep| + 2], ids)
    ensures SwapTrace(d, keep, entry)[|keep| + 2] == Disk(d.section.Other(), Restrict(d.stored, keep), |keep|)
  {
    hide Holds;
    RetireSection(f, d.section);
  }

  /** The address of the old entry, or SECTION_SIZE if there is none. */
  lemma OldEntry(f: Flash, d: Disk, source: Cell, ids: seq<Word16>) returns (e: nat)
    requires d.Disk? && GoodIds(ids) && source.param in ids && Shows(f, d, ids)
    ensures if source.param in d.stored
      then 1 <= e <= d.used && OnlyEntry(f.At(d.section), source.param, e)
      else e == SECTION_SIZE && NoEntry(f.At(d.section), source.param)
    ensures UsedPrefix(f.At(d.section), d.used)
  {
    var i := IndexOf(ids, source.param);
    if source.param in d.stored {
      e :| OnlyEntry(f.At(d.section), ids[i], e) && f.At(d.section)[e].value == d.stored[ids[i]];
    } else {
      e := SECTION_SIZE;
    }
  }

  /** The flash after the scan has zeroed the entry at `e`, if there is one. */
  function Zeroed(f: Flash, s: Section, e: nat): Flash {
    if e < SECTION_SIZE then f.With(s, f.At(s)[e := Cell(0, f.At(s)[e].value)]) else f
  }

  lemma Unchanged(cells: Cells, id: Word16)
    ensures SameEntries(cells, cells, id)
  {
  }

  lemma ZeroShows(f: Flash, d: Disk, source: Cell, ids: seq<Word16>, e: nat, images: seq<Flash>)
    requires d.Disk? && GoodIds(ids) && source.param in ids && Shows(f, d, ids) && e >= 1
    requires if source.param in d.stored then OnlyEntry(f.At(d.section), source.param, e)
             else e == SECTION_SIZE && NoEntry(f.At(d.section), source.param)
    ensures var now, zeroed := Zeroed(f, d.section, e), d.(stored := d.stored - {source.param});
      && Shows(now, zeroed, ids) && NoEntry(now.At(d.section), source.param)
      && SameEntries(f.At(d.section), now.At(d.section), source.param)
      && (forall b :: 1 <= b < SECTION_SIZE && f.At(d.section)[b].param == source.param ==>
            now.At(d.section)[b].param == 0)
      && Continues(images, if e < SECTION_SIZE then images + [now] else images,
                   if source.param in d.stored then [zeroed] else [], ids)
  {
    hide Holds, SameEntries, Continues;
    var now, zeroed := Zeroed(f, d.section, e), d.(stored := d.stored - {source.param});
    if source.param in d.stored {
      ZeroHolds(f.At(d.section), d.stored, d.used, ids, source.param, e);
      ContinuesOne(images, now, zeroed, ids);
    } else {
      assert zeroed == d;
      Unchanged(f.At(d.section), source.param);
      ContinuesNone(images, ids);
    }
  }

  lemma AppendShows(f: Flash, d: Disk, source: Cell, ids: seq<Word16>, images: seq<Flash>)
    requires d.Disk? && GoodIds(ids) && source.param in ids && Shows(f, d, ids)
    requires NoEntry(f.At(d.section), source.param)
    requires d.used < SECTION_SIZE - 1
    ensures var now := f.With(d.section, f.At(d.section)[d.used + 1 := source]);
      && Shows(now, Add(d, source), ids) && OnlyEntry(now.At(d.section), source.param, d.used + 1)
      && SameEntries(f.At(d.section), now.At(d.section), source.param)
      && Continues(images, images + [now], [Add(d, source)], ids)
  {
    hide Holds, SameEntries, Continues;
    var now := f.With(d.section, f.At(d.section)[d.used + 1 := source]);
    AppendHolds(f.At(d.section), d.stored, d.used, ids, source);
    ContinuesOne(images, now, Add(d, source), ids);
  }

  lemma SameTwice(a: Cells, b: Cells, c: Cells, id: Word16)
    requires SameEntries(a, b, id) && SameEntries(b, c, id)
    ensures SameEntries(a, c, id)
  {
  }

  lemma NoneAt(cells: Cells, id: Word16, a: nat)
    requires NoEntry(cells, id) && 1 <= a < SECTION_SIZE
    ensures cells[a].param != id
  {
  }

  /** What the scan finds at `a`, before or after it has zeroed the entry at `e`. */
  lemma ScanAt(f: Flash, d: Disk, source: Cell, ids: seq<Word16>, e: nat, a: nat)
    requires d.Disk? && GoodIds(ids) && source.param in ids && Shows(f, d, ids) && 1 <= a < SECTION_SIZE
    requires if source.param in d.stored then 1 <= e <= d.used && OnlyEntry(f.At(d.section), source.param, e)
             else e == SECTION_SIZE && NoEntry(f.At(d.section), source.param)
    ensures var now := if e < a then Zeroed(f, d.section, e) else f;
      var item := now.At(d.section)[a];
      && (item.param == source.param <==> a == e) && (item == FREE_BLOCK <==> d.used < a)
  {
    hide Stores, NoEntry;
    var i := IndexOf(ids, source.param);
    EntryKnown(f, d, ids, i);
    if source.param !in d.stored { NoneAt(f.At(d.section), source.param, a); }
  }

  /** What the scan leaves behind, with and without a free word. */
  lemma ScanShows(f: Flash, d: Disk, source: Cell, ids: seq<Word16>, e: nat, images: seq<Flash>)
    requires d.Disk? && GoodIds(ids) && source.param in ids && Shows(f, d, ids) && e >= 1
    requires if source.param in d.stored then OnlyEntry(f.At(d.section), source.param, e)
             else e == SECTION_SIZE && NoEntry(f.At(d.section), source.param)
    ensures var scanned, zeroed := Zeroed(f, d.section, e), d.(stored := d.stored - {source.param});
      var seen := if e < SECTION_SIZE then images + [scanned] else images;
      if d.used < SECTION_SIZE - 1 then
        var now := scanned.With(d.section, scanned.At(d.section)[d.used + 1 := source]);
        && zeroed.stored[source.param := source.value] == d.stored[source.param := source.value]
        && Shows(now, Add(d, source), ids) && OnlyEntry(now.At(d.section), source.param, d.used + 1)
        && SameEntries(f.At(d.section), now.At(d.section), source.param)
        && Continues(images, seen + [now], ScanTrace(d, source), ids)
      else
        && Shows(scanned, zeroed, ids) && SameEntries(f.At(d.section), scanned.At(d.section), source.param)
        && (forall b :: 1 <= b < SECTION_SIZE && f.At(d.section)[b].param == source.param ==>
              scanned.At(d.section)[b].param == 0)
        && Continues(images, seen, ScanTrace(d, source), ids)
  {
    hide Shows, SameEntries, Continues, ScanTrace, GoodIds;
    var scanned, zeroed := Zeroed(f, d.section, e), d.(stored := d.stored - {source.param});
    var seen := if e < SECTION_SIZE then images + [scanned] else images;
    var zero := if source.param in d.stored then [zeroed] else [];
    ZeroShows(f, d, source, ids, e, images);
    ScanParts(d, source);
    if d.used < SECTION_SIZE - 1 {
      var now := scanned.With(d.section, scanned.At(d.section)[d.used + 1 := source]);
      assert zeroed.stored[source.param := source.value] == d.stored[source.param := source.value];
      AppendShows(scanned, zeroed, source, ids, seen);
      SameTwice(f.At(d.section), scanned.At(d.section), now.At(d.section), source.param);
      ContinuesJoin(images, seen, seen + [now], zero, [Add(zeroed, source)], ids);
    }
  }

  lemma StartNone(d: Disk, defs: seq<Cell>)
    requires d.Disk?
    ensures StartTrace(d, defs, 0) == [] && Started(d, defs, 0) == d
    ensures d.used < SECTION_SIZE ==> Fits(d, defs, 0)
  {
  }

  /** Start-up swaps at the definition at which there is no room. */
  lemma SwapWhere(d: Disk, defs: seq<Cell>, n: nat)
    requires d.Disk? && GoodIds(Params(defs)) && Sound(d, Params(defs)) && n < |defs|
    ensures var e := Started(d, defs, n);
      if defs[n].param !in e.stored && e.used == SECTION_SIZE - 1
      then Fits(d, defs, n) && !Fits(d, defs, n + 1)
      else Fits(d, defs, n + 1) <==> Fits(d, defs, n)
  {
    hide Started;
    StartedSound(d, defs, n);
    if Fits(d, defs, n) {
      StartedFits(d, defs, n);
      NotDefined(defs, n, n);
    } else {
      StartedSwapped(d, defs, n);
      if Fits(d, defs, n + 1) { FitsBefore(d, defs, n, n + 1); }
    }
  }

  /** The first two writes on a blank flash. */
  lemma BlankShows(f: Flash, g: Flash, defs: seq<Cell>, was: seq<Flash>, now: seq<Flash>)
    requires BootSection(f).None? && GoodIds(Params(defs)) && g == f.With(Low, Erased()[0 := ACTIVE_FLAG])
    requires now == was + [f.With(Low, Erased()), g]
    ensures Shows(g, Started(Blank, defs, 0), Params(defs)) && Started(Blank, defs, 0) == Disk(Low, map[], 0)
    ensures Continues(was, now, StartTrace(Blank, defs, 0), Params(defs))
  {
    EmptyHolds(Params(defs));
    assert now[|was|..] == [f.With(Low, Erased()), g];
  }

  lemma BlankMissing(defs: seq<Cell>, n: nat)
    requires GoodIds(Params(defs)) && n < |defs|
    ensures defs[n].param !in Started(Blank, defs, n).stored
  {
    hide Started;
    StartedBlank(defs, n);
    NotDefined(defs, n, n);
    if Fits(Opened(Blank), defs, n) {
      StartedFits(Opened(Blank), defs, n);
    } else {
      StartedSwapped(Opened(Blank), defs, n);
    }
  }

  /** One more default on a formatted section. */
  lemma CreateStep(defs: seq<Cell>, n: nat)
    requires GoodIds(Params(defs)) && n < |defs| && Started(Blank, defs, n).used == n
    ensures var d := Started(Blank, defs, n);
      && defs[n].param !in d.stored && n < MAX_PARAM_ITEM
      && Started(Blank, defs, n + 1) == Add(d, defs[n])
      && StartTrace(Blank, defs, n + 1) == StartTrace(Blank, defs, n) + [Add(d, defs[n])]
  {
    assert n < MAX_PARAM_ITEM;
    hide Started, StartTrace, Params, PutTrace, GoodIds;
    BlankMissing(defs, n);
    StartedStep(Blank, defs, n);
    StartedLast(Blank, defs, n);
    AddShape(Started(Blank, defs, n), Params(defs)[..n], defs[n]);
  }

  lemma ShowsSound(f: Flash, d: Disk, ids: seq<Word16>)
    requires Shows(f, d, ids)
    ensures Sound(d, ids) && (d.Disk? ==> d.used < SECTION_SIZE)
    ensures BootSection(f) == if d.Blank? then None else Some(d.section)
  {
  }

  lemma {:induction false} MissingBound(m: map<Word16, Word16>, defs: seq<Cell>, n: nat)
    requires n <= |defs|
    ensures Missing(m, defs, n) <= n
  {
    if n > 0 { MissingBound(m, defs, n - 1); }
  }

  lemma BlankFits(defs: seq<Cell>)
    requires GoodIds(Params(defs))
    ensures Fits(Opened(Blank), defs, |defs|) && StartTrace(Blank, defs, |defs|) != []
  {
    hide StartTrace;
    BlankTrace(defs, |defs|);
    MissingBound(map[], defs, |defs|);
  }

  lemma CompleteUsed(d: Disk, ids: seq<Word16>)
    requires Complete(d, ids)
    ensures d.Disk? && d.used < SECTION_SIZE
  {
  }

  lemma CompleteAt(d: Disk, defs: seq<Cell>, n: nat)
    requires Complete(d, Params(defs)) && n < |defs|
    ensures d.Disk? && defs[n].param in d.stored
  {
    assert Params(defs)[n] == defs[n].param;
  }

  lemma LocateNone(d: Disk, keep: seq<Word16>, def: Cell)
    requires d.Disk? && def.param in d.stored
    ensures LocateTrace(d, keep, def) == [] && Last(d, []) == d
  {
  }

  /** Where all parameters are stored, start-up changes nothing. */
  lemma {:induction false} CompleteStart(d: Disk, defs: seq<Cell>, n: nat)
    requires Complete(d, Params(defs)) && n <= |defs|
    ensures StartTrace(d, defs, n) == [] && Started(d, defs, n) == d
    ensures Fits(d, defs, n) && Missing(d.stored, defs, n) == 0
  {
    hide LocateTrace, StartTrace, Started, Params, Complete;
    if n == 0 {
      CompleteUsed(d, Params(defs));
      StartNone(d, defs);
    } else {
      CompleteStart(d, defs, n - 1);
      CompleteAt(d, defs, n - 1);
      StartedLast(d, defs, n - 1);
      LocateNone(d, Params(defs)[..n - 1], defs[n - 1]);
    }
  }

  /** What is in flash when power fails after `k` writes that took it from `was` to `now`. */
  function Surviving(images: seq<Flash>, before: nat, was: Flash, now: Flash, k: nat): Flash
    requires before <= |images|
  {
    if k == 0 then was else if before + k <= |images| then images[before + k - 1] else now
  }

  lemma CutShows(history: seq<Flash>, images: seq<Flash>, was: Flash, now: Flash, d: Disk, trace: seq<Disk>, k: nat,
                 ids: seq<Word16>)
    requires Continues(history, images, trace, ids) && Shows(was, d, ids) && Shows(now, Last(d, trace), ids)
    ensures |history| <= |images| && Shows(Surviving(images, |history|, was, now, k), AfterWrites(d, trace, k), ids)
  {
    hide Shows;
    if 0 < k <= |trace| {
      assert images[|history| + k - 1] == images[|history|..][k - 1];
    }
  }

  /** The device after an event, by the event's trace of writes. */
  lemma NextTrace(v: Device, ids: seq<Word16>, e: Event, trace: seq<Disk>)
    requires trace == if e.Start? then StartTrace(v.disk, e.defs, |e.defs|)
                      else if Effective(v, ids, e) then UpdateTrace(v.disk, ids, IndexOf(ids, e.param), e.value)
                      else []
    ensures e.cut.Some? ==> Next(v, ids, e) == Device(AfterWrites(v.disk, trace, e.cut.value), false)
    ensures e.cut.None? ==> Next(v, ids, e) == Device(Last(v.disk, trace), e.Start? || v.on)
  {
    hide StartTrace, UpdateTrace;
  }

  lemma RunStart(v: Device, ids: seq<Word16>, events: seq<Event>)
    ensures Run(v, ids, events[..0]) == v
  {
  }

  lemma RunStep(v: Device, ids: seq<Word16>, events: seq<Event>, n: nat)
    requires n < |events|
    ensures Run(v, ids, events[..n + 1]) == Next(Run(v, ids, events[..n]), ids, events[n])
  {
    hide Next;
    assert events[..n + 1][..n] == events[..n];
  }

  // ----- runs ------------------------------------------------------------------------------

  /** A `set_value` call, or a restart with the same parameters. */
  datatype Action = Update(param: Word16, value: Word16) | PowerCycle(defs: seq<Cell>)

  predicate Accepts(m: map<Word16, Word16>, a: Action) {
    a.Update? && a.param in m
  }

  /** The plain map after a run; updates of unknown parameters are refused. */
  ghost function Updated(m: map<Word16, Word16>, actions: seq<Action>): map<Word16, Word16> {
    if actions == [] then m else
      var a := actions[|actions| - 1];
      var before := Updated(m, actions[..|actions| - 1]);
      if Accepts(m, a) then before[a.param := a.value] else before
  }

  ghost function Accepted(m: map<Word16, Word16>, actions: seq<Action>): nat {
    if actions == [] then 0 else
      Accepted(m, actions[..|actions| - 1]) + (if Accepts(m, actions[|actions| - 1]) then 1 else 0)
  }

  /** Entries in use after `n` accepted updates of `k` parameters: one more each time, or `k` after a swap. */
  function UsedAfter(used: nat, k: nat, n: nat): nat {
    if n == 0 then used
    else if UsedAfter(used, k, n - 1) == SECTION_SIZE - 1 then k
    else UsedAfter(used, k, n - 1) + 1
  }

  function SwapsAfter(used: nat, k: nat, n: nat): nat {
    if n == 0 then 0
    else SwapsAfter(used, k, n - 1) + (if UsedAfter(used, k, n - 1) == SECTION_SIZE - 1 then 1 else 0)
  }

  lemma CountStart(m: map<Word16, Word16>, actions: seq<Action>, used: nat, k: nat)
    ensures Updated(m, actions[..0]) == m && Accepted(m, actions[..0]) == 0
    ensures UsedAfter(used, k, 0) == used && SwapsAfter(used, k, 0) == 0
  {
  }

  lemma CountStep(used: nat, k: nat, n: nat)
    ensures UsedAfter(used, k, n) == SECTION_SIZE - 1 ==>
      UsedAfter(used, k, n + 1) == k && SwapsAfter(used, k, n + 1) == SwapsAfter(used, k, n) + 1
    ensures UsedAfter(used, k, n) != SECTION_SIZE - 1 ==>
      UsedAfter(used, k, n + 1) == UsedAfter(used, k, n) + 1 && SwapsAfter(used, k, n + 1) == SwapsAfter(used, k, n)
  {
  }

  /** The first swap comes when the section is full, and then one for every 256 - k updates: exactly
      255 - k updates fit between two swaps. */
  lemma {:induction false} SwapPeriod(used: nat, k: nat, n: nat)
    requires used < SECTION_SIZE && 1 <= k <= MAX_PARAM_ITEM
    ensures var free := 255 - used;
      if n <= free then SwapsAfter(used, k, n) == 0 && UsedAfter(used, k, n) == used + n
      else
        && SwapsAfter(used, k, n) == 1 + (n - free - 1) / (256 - k)
        && UsedAfter(used, k, n) == k + (n - free - 1) % (256 - k)
  {
    if n > 0 {
      SwapPeriod(used, k, n - 1);
      var free := SECTION_SIZE - 1 - used;
      if n == free + 1 {
        DivMod(0, SECTION_SIZE - k, 0, 0);
      } else if n > free + 1 {
        NextDivMod(n - free - 2, SECTION_SIZE - k);
      }
    }
  }

  lemma ActionStep(m: map<Word16, Word16>, actions: seq<Action>, n: nat)
    requires n < |actions|
    ensures Accepts(m, actions[n]) <==> actions[n].Update? && actions[n].param in m
    ensures var a := actions[n];
      && Updated(m, actions[..n + 1]) ==
        (if Accepts(m, a) then Updated(m, actions[..n])[a.param := a.value] else Updated(m, actions[..n]))
      && Accepted(m, actions[..n + 1]) == Accepted(m, actions[..n]) + (if Accepts(m, a) then 1 else 0)
  {
    assert actions[..n + 1][..n] == actions[..n];
  }

  class Log {
    var flash: Flash
    var active: Section
    var items: seq<Ref>                        // g_pParamItems; g_nParamCount is its length
    var images: seq<Flash>                     // the flash after every erase and every write
    ghost var ids: seq<Word16>                 // the parameters being defined, in order
    ghost var stored: map<Word16, Word16>      // the values in the active section
    ghost var used: nat                        // number of entries taken in the active section
    ghost var swaps: nat                       // number of section swaps so far

    constructor (f: Flash)
      ensures flash == f && images == [] && swaps == 0
    {
      flash := f;
      active := Low;
      items, images, ids, stored, used, swaps := [], [], [], map[], 0, 0;
    }

    ghost function Active(): Cells
      reads this
    {
      flash.At(active)
    }

    ghost function State(): Disk
      reads this
    {
      Disk(active, stored, used)
    }

    /** Item `i` refers to the only entry of its parameter in the active section. */
    ghost predicate ItemAt(i: nat)
      requires i < |items| <= |ids|
      reads this
    {
      items[i].section == active && OnlyEntry(Active(), ids[i], items[i].addr)
    }

    /** The first parameters have been located, except possibly `z`; the active section is the one that a restart
        would choose, and its used entries form a prefix. */
    ghost predicate Located(z: nat)
      reads this
    {
      && GoodIds(ids) && |items| <= |ids| && Shows(flash, State(), ids)
      && forall i :: 0 <= i < |items| && i != z ==> ItemAt(i)
    }

    /** All parameters have been located. */
    ghost predicate Valid()
      reads this
    {
      Located(|ids|) && |items| == |ids|
    }

    /** The abstract parameter map. */
    ghost function Values(): map<Word16, Word16>
      requires Valid()
      reads this
    {
      stored
    }

    lemma ItemValue(i: nat)
      requires Located(|ids|) && i < |items|
      ensures items[i].addr < SECTION_SIZE && ids[i] in stored
      ensures Active()[items[i].addr] == Cell(ids[i], stored[ids[i]])
    {
      assert ItemAt(i);
      EntryValue(Active(), stored, used, ids, i, items[i].addr);
    }

    lemma ValidComplete()
      requires Valid()
      ensures Complete(State(), ids)
    {
      forall id | id in ids
        ensures id in stored
      {
        var i := IndexOf(ids, id);
        assert ItemAt(i);
        ItemValue(i);
      }
    }

    lemma ItemWord(i: nat)
      requires Located(|ids|) && i < |items|
      ensures items[i].section == active && 1 <= items[i].addr < SECTION_SIZE && Active()[items[i].addr].param == ids[i]
    {
      assert ItemAt(i);
    }

    // -- flash primitives

    method WriteFlash(word: Cell, s: Section, a: nat)
      requires a < SECTION_SIZE
      modifies this`flash, this`images
      ensures flash == old(flash).With(s, old(flash.At(s))[a := Program(old(flash.At(s)[a]), word)])
      ensures images == old(images) + [flash]
    {
      flash := flash.With(s, flash.At(s)[a := Program(flash.At(s)[a], word)]);
      images := images + [flash];
    }

    /** Erases one section only, then writes its header. */
    method Format(s: Section)
      modifies this`flash, this`images
      ensures flash == old(flash).With(s, Erased()[0 := Cell(0xF50A, 0x55AA)])
      ensures images == old(images) + [old(flash).With(s, Erased()), flash]
    {
      flash := flash.With(s, Erased());
      images := images + [flash];
      WriteFlash(ACTIVE_FLAG, s, 0);
    }

    // -- SwapSections

    /** Item `z`, if there is one, refers to a zeroed entry, all others to their live one. */
    ghost predicate SwapReady(z: nat)
      reads this
    {
      && GoodIds(ids) && |items| <= |ids| && z <= |items| && z < |ids| && Shows(flash, State(), ids)
      && (forall i :: 0 <= i < |items| ==> items[i].section == active && 1 <= items[i].addr < SECTION_SIZE)
      && (forall i :: 0 <= i < |items| ==> Active()[items[i].addr].param == if i == z then 0 else ids[i])
    }

    /** The parameters whose entries a swap copies. */
    ghost function Kept(z: nat): (keep: seq<Word16>)
      requires z <= |items| <= |ids|
      reads this
    {
      Others(ids[..|items|], z)
    }

    /** SwapReady after the other section has been formatted. */
    ghost predicate SwapFormatted(z: nat)
      reads this
    {
      && GoodIds(ids) && |items| <= |ids| && z <= |items| && z < |ids| && Sound(State(), ids)
      && Active()[0] == ACTIVE_FLAG && Holds(Active(), stored, used, ids)
      && (forall i :: 0 <= i < |items| ==> items[i].section == active && 1 <= items[i].addr < SECTION_SIZE)
      && (forall i :: 0 <= i < |items| ==> Active()[items[i].addr].param == if i == z then 0 else ids[i])
      && flash.At(active.Other()) == Erased()[0 := ACTIVE_FLAG]
    }

    /** The copying loop of the swap. */
    method CopyItems(target: Section, ghost z: nat, ghost entry: Cell) returns (addr: nat)
      requires SwapFormatted(z) && target == active.Other()
      modifies this`flash, this`items, this`images
      ensures |items| == |old(items)| && addr == |old(Kept(z))| + 1 && flash.At(active) == old(Active())
      ensures Copied(stored, flash.At(target), old(items), items, ids, target, |items|, z)
      ensures Continues(old(images), images, SwapTrace(State(), old(Kept(z)), entry)[2..|old(Kept(z))| + 2], ids)
    {
      hide Program, Holds, Restrict, OnlyEntry, Continues, SwapTrace, Shows, Copied;
      ghost var keep, trace, was := Kept(z), SwapTrace(State(), Kept(z), entry), items;
      addr := 1;
      CopyStart(stored, flash.At(target), was, ids, target, z);
      ContinuesNone(images, ids);
      assert trace[2..2] == [];
      for n := 0 to |items|
        invariant |items| == |was| && addr == NewAddr(n, z)
        invariant flash.At(active) == old(Active())
        invariant Copied(stored, flash.At(target), was, items, ids, target, n, z)
        invariant forall i :: n <= i < |was| ==> items[i] == was[i]
        invariant Continues(old(images), images, trace[2..addr + 1], ids)
      {
        var cell := flash.At(items[n].section)[items[n].addr];
        if cell.param != 0 {
          ghost var before := images;
          CopyStep(Active(), stored, used, flash.At(target), was, items, ids, target, n, z);
          WriteFlash(cell, target, addr);
          CopyShows(flash, State(), keep, entry, addr, ids);
          TraceStep(old(images), before, flash, trace, addr + 1, ids);
          items := items[n := Ref(target, addr)];
          addr := addr + 1;
        } else {
          CopySkip(stored, flash.At(target), was, items, ids, target, z);
        }
      }
    }

    /** Copies the live entries to the other section, in order, and makes it the active one. */
    method SwapSections(ghost z: nat, ghost entry: Cell) returns (addr: nat)
      requires SwapReady(z)
      modifies this
      ensures ids == old(ids) && |items| == |old(items)| && swaps == old(swaps) + 1
      ensures active == old(active).Other() && stored == Restrict(old(stored), old(Kept(z))) && used == |old(Kept(z))|
      ensures addr == used + 1 && Shows(flash, State(), ids)
      ensures forall i :: 0 <= i < |items| && i != z ==> items[i] == Ref(active, NewAddr(i, z)) && ItemAt(i)
      ensures Continues(old(images), images, SwapTrace(old(State()), old(Kept(z)), entry)[..|old(Kept(z))| + 3], ids)
    {
      hide Program, Holds, Restrict, OnlyEntry, Continues, SwapTrace, Shows, Copied;
      ghost var d, keep := State(), Kept(z);
      ghost var trace := SwapTrace(d, keep, entry);
      var target := active.Other();
      Format(target);
      FormatShows(old(flash), d, keep, entry, ids, old(images), images);
      ghost var formatted := images;
      addr := CopyItems(target, z, entry);
      ContinuesJoin(old(images), formatted, images, trace[..2], trace[2..|keep| + 2], ids);
      CopiedEnd(stored, flash.At(target), old(items), items, ids, target, z);
      RetireShows(flash, d, keep, entry, ids);
      ghost var copied := images;
      WriteFlash(UNUSED_FLAG, active, 0);
      ContinuesOne(copied, flash, trace[|keep| + 2], ids);
      ContinuesJoin(old(images), copied, images, trace[..2] + trace[2..|keep| + 2], [trace[|keep| + 2]], ids);
      TraceParts(trace, |keep| + 2);
      active := target;
      swaps := swaps + 1;
      stored, used := Restrict(stored, keep), |keep|;
    }

    // -- NewItem

    /** The scan of NewItem: zeroes the parameter's old entry and takes the first free word, if there is one. */
    method AppendEntry(source: Cell) returns (a: nat)
      requires GoodIds(ids) && source.param in ids && Shows(flash, State(), ids)
      modifies this`flash, this`images, this`stored, this`used
      ensures a == old(used) + 1 && Shows(flash, State(), ids)
      ensures SameEntries(old(Active()), Active(), source.param)
      ensures if old(used) < SECTION_SIZE - 1
        then State() == Add(old(State()), source) && OnlyEntry(Active(), source.param, a) && Active()[a] == source
        else
          && stored == old(stored) - {source.param} && used == old(used)
          && forall b :: 1 <= b < SECTION_SIZE && old(Active())[b].param == source.param ==> Active()[b].param == 0
      ensures Continues(old(images), images, ScanTrace(old(State()), source), ids)
    {
      hide Program, Continues, Shows, Holds, SameEntries, ScanTrace, OnlyEntry, GoodIds;
      ghost var d := State();
      ghost var e := OldEntry(flash, d, source, ids);
      ScanShows(flash, d, source, ids, e, images);
      a := 1;
      while a < SECTION_SIZE
        invariant 1 <= a <= old(used) + 1 && stored == old(stored) && used == old(used)
        invariant e < a ==> flash == Zeroed(old(flash), active, e) && images == old(images) + [flash]
        invariant e >= a ==> flash == old(flash) && images == old(images)
      {
        var item := flash.At(active)[a];
        ScanAt(old(flash), d, source, ids, e, a);
        if item.param == source.param {
          WriteFlash(ZERO_BLOCK, active, a);
        } else if item == FREE_BLOCK {
          WriteFlash(source, active, a);
          stored, used := stored[source.param := source.value], used + 1;
          return;
        }
        a := a + 1;
      }
      stored := stored - {source.param};
    }

    /** Every item but `z` still refers to the entry of its parameter. */
    twostate lemma ItemsKept(z: nat)
      requires GoodIds(ids) && |items| <= |ids| && z < |ids|
      requires ids == old(ids) && items == old(items) && active == old(active)
      requires forall i :: 0 <= i < |items| && i != z ==> old(ItemAt(i))
      requires SameEntries(old(Active()), Active(), ids[z])
      ensures forall i :: 0 <= i < |items| && i != z ==> ItemAt(i)
    {
      forall i | 0 <= i < |items| && i != z
        ensures ItemAt(i)
      {
        assert old(ItemAt(i));
        GoodPair(ids, z, i);
      }
    }

    lemma ReadyToSwap(z: nat)
      requires Located(z) && z <= |items| && z < |ids|
      requires z < |items| ==>
        items[z].section == active && 1 <= items[z].addr < SECTION_SIZE && Active()[items[z].addr].param == 0
      ensures SwapReady(z)
    {
      forall i | 0 <= i < |items|
        ensures items[i].section == active && 1 <= items[i].addr < SECTION_SIZE
        ensures Active()[items[i].addr].param == if i == z then 0 else ids[i]
      {
        if i != z { assert ItemAt(i); }
      }
    }

    /** The end of NewItem when no word is free: swap, then write the entry that did not fit. */
    method SwapAndWrite(source: Cell, ghost z: nat) returns (p: Ref)
      requires SwapReady(z) && ids[z] == source.param && source.param !in stored
      modifies this
      ensures ids == old(ids) && |items| == |old(items)| && Located(z) && swaps == old(swaps) + 1
      ensures p == Ref(active, used) && OnlyEntry(Active(), source.param, used) && Active()[used] == source
      ensures State() == Last(old(State()), SwapTrace(old(State()), old(Kept(z)), source))
      ensures Continues(old(images), images, SwapTrace(old(State()), old(Kept(z)), source), ids)
    {
      hide Program, Continues, Shows, SameEntries, SwapTrace, Restrict, OnlyEntry;
      ghost var d, keep := State(), Kept(z);
      SwapEnd(d, keep, source);
      KeptWithout(ids, |items|, z);
      var a := SwapSections(z, source);
      label Copied:
      ghost var copied := images;
      StoredOrNot(flash, State(), ids, z);
      AppendShows(flash, State(), source, ids, images);
      FreeAt(flash, State(), ids);
      WriteFlash(source, active, a);
      stored, used := stored[source.param := source.value], used + 1;
      ItemsKept@Copied(z);
      ContinuesJoin(old(images), copied, images, SwapTrace(d, keep, source)[..|keep| + 3], [State()], ids);
      p := Ref(active, a);
    }

    /** Appends an entry for parameter `ids[z]`; swaps the sections first if no word is free.  Item `z` refers to the
        parameter's old entry, or is the next one to be located. */
    method NewItem(source: Cell, ghost z: nat) returns (p: Ref)
      requires Located(|ids|) && z <= |items| && z < |ids| && ids[z] == source.param
      modifies this
      ensures ids == old(ids) && |items| == |old(items)| && Located(z)
      ensures p == Ref(active, used) && OnlyEntry(Active(), source.param, used) && Active()[used] == source
      ensures State() == Last(old(State()), PutTrace(old(State()), old(Kept(z)), source))
      ensures Continues(old(images), images, PutTrace(old(State()), old(Kept(z)), source), ids)
      ensures swaps == old(swaps) + (if old(used) < SECTION_SIZE - 1 then 0 else 1)
    {
      hide Program, Continues, Shows, SameEntries, ScanTrace, PutTrace, SwapTrace, Restrict, OnlyEntry;
      ghost var d, keep := State(), Kept(z);
      PutParts(d, keep, source);
      KeptWithout(ids, |items|, z);
      PutLast(d, keep, source);
      if z < |items| { ItemWord(z); }
      var a := AppendEntry(source);
      ItemsKept(z);
      if a < SECTION_SIZE {
        return Ref(active, a);
      }
      ghost var scanned := images;
      ReadyToSwap(z);
      p := SwapAndWrite(source, z);
      ContinuesJoin(old(images), scanned, images, ScanTrace(d, source),
                    SwapTrace(d.(stored := d.stored - {source.param}), keep, source), ids);
    }

    // -- the interface

    /** The last value set, or the default; 0 for an unknown parameter. */
    method GetParam(param: Word16) returns (value: Word16)
      requires Valid()
      ensures param in Values() ==> value == Values()[param]
      ensures param !in Values() ==> value == 0
    {
      ValidComplete();
      for n := 0 to |items|
        invariant forall i :: 0 <= i < n ==> ids[i] != param
      {
        ItemWord(n);
        ItemValue(n);
        var item := flash.At(items[n].section)[items[n].addr];
        if item.param == param {
          return item.value;
        }
      }
      value := 0;
    }

    /** The items `refs`, except `z`, refer to the entries of their parameters. */
    ghost predicate RefsAt(refs: seq<Ref>, z: nat)
      requires |refs| <= |ids|
      reads this
    {
      forall i :: 0 <= i < |refs| && i != z ==> refs[i].section == active && OnlyEntry(Active(), ids[i], refs[i].addr)
    }

    lemma ItemRefs(z: nat)
      requires Located(z)
      ensures RefsAt(items, z)
    {
      forall i | 0 <= i < |items| && i != z
        ensures items[i].section == active && OnlyEntry(Active(), ids[i], items[i].addr)
      {
        assert ItemAt(i);
      }
    }

    /** Once item `z` refers to its entry, or has been added, every item is located. */
    lemma ItemMoved(refs: seq<Ref>, z: nat, p: Ref)
      requires GoodIds(ids) && Shows(flash, State(), ids) && z < |ids| && z <= |refs| <= |ids| && RefsAt(refs, z)
      requires items == if z < |refs| then refs[z := p] else refs + [p]
      requires p.section == active && OnlyEntry(Active(), ids[z], p.addr)
      ensures Located(|ids|)
    {
    }

    lemma ValidItem(n: nat)
      requires Valid() && n < |ids|
      ensures n < |items| && Located(|ids|) && n < |Kept(n)| + 1 && Kept(n) == Others(ids, n)
      ensures items[n].addr < SECTION_SIZE && ids[n] in stored && Values() == stored && GoodIds(ids)
      ensures flash.At(items[n].section)[items[n].addr] == Cell(ids[n], stored[ids[n]])
    {
      ItemWord(n);
      ItemValue(n);
      assert ids[..|items|] == ids;
    }

    /** What SetValue does once it has found the parameter at index `n`. */
    method UpdateItem(n: nat, value: Word16)
      requires Valid() && n < |ids|
      modifies this
      ensures Valid() && ids == old(ids)
      ensures State() == Last(old(State()), UpdateTrace(old(State()), ids, n, value))
      ensures Continues(old(images), images, UpdateTrace(old(State()), ids, n, value), ids)
      ensures Values() == old(Values())[ids[n] := value]
      ensures old(used) < SECTION_SIZE - 1 ==>
        used == old(used) + 1 && active == old(active) && swaps == old(swaps)
      ensures old(used) == SECTION_SIZE - 1 ==>
        used == |ids| && active == old(active).Other() && swaps == old(swaps) + 1
    {
      hide PutTrace, UpdateTrace, Shows, Continues, OnlyEntry, GoodIds, Complete, Others, Last;
      ValidComplete();
      ValidItem(n);
      UpdateParts(State(), ids, n, value);
      var item := flash.At(items[n].section)[items[n].addr];
      var p := NewItem(item.(value := value), n);
      ItemRefs(n);
      ghost var refs := items;
      items := items[n := p];
      ItemMoved(refs, n, p);
    }

    /** Updates the abstract map at one key, through exactly the states of UpdateTrace: CutUpdate says what is lost
        when power fails between two of them.  A full section is swapped, any other gets one entry longer. */
    method SetValue(param: Word16, value: Word16) returns (ok: bool)
      requires Valid()
      modifies this
      ensures Valid() && ids == old(ids)
      ensures ok <==> param in old(Values())
      ensures !ok ==> unchanged(this)
      ensures ok ==> Values() == old(Values())[param := value]
      ensures ok ==> param in ids
      ensures ok ==>
        State() == Last(old(State()), UpdateTrace(old(State()), ids, IndexOf(ids, param), value))
      ensures ok ==>
        Continues(old(images), images, UpdateTrace(old(State()), ids, IndexOf(ids, param), value), ids)
      ensures ok && old(used) < SECTION_SIZE - 1 ==>
        used == old(used) + 1 && active == old(active) && swaps == old(swaps)
      ensures ok && old(used) == SECTION_SIZE - 1 ==>
        used == |ids| && active == old(active).Other() && swaps == old(swaps) + 1
    {
      hide UpdateTrace, Shows, Continues, OnlyEntry;
      ValidComplete();
      assert Values().Keys == stored.Keys;
      for n := 0 to |items|
        invariant unchanged(this)
        invariant forall i :: 0 <= i < n ==> ids[i] != param
      {
        ItemWord(n);
        var item := flash.At(items[n].section)[items[n].addr];
        if item.param == param {
          UpdateItem(n, value);
          return true;
        }
      }
      ok := false;
    }

    // -- start-up

    method SearchItem(param: Word16) returns (a: Option<nat>)
      ensures a.None? <==> NoEntry(Active(), param)
      ensures a.Some? ==> 1 <= a.value < SECTION_SIZE && Active()[a.value].param == param
    {
      for n := 1 to SECTION_SIZE
        invariant forall b :: 1 <= b < n ==> Active()[b].param != param
      {
        if flash.At(active)[n].param == param {
          return Some(n);
        }
      }
      a := None;
    }

    /** Finds the next parameter's entry, or appends its default. */
    method LocateItem(def: Cell) returns (p: Ref)
      requires Located(|ids|) && |items| < |ids| && ids[|items|] == def.param
      modifies this
      ensures ids == old(ids) && |items| == |old(items)| && Located(|items|)
      ensures p.section == active && OnlyEntry(Active(), def.param, p.addr)
      ensures State() == Last(old(State()), LocateTrace(old(State()), ids[..|items|], def))
      ensures Continues(old(images), images, LocateTrace(old(State()), ids[..|items|], def), ids)
      ensures old(|LocateTrace(State(), ids[..|items|], def)|) == 0 ==> flash == old(flash)
      ensures swaps == old(swaps) + (if def.param !in old(stored) && old(used) == SECTION_SIZE - 1 then 1 else 0)
    {
      hide PutTrace, Shows, Continues, OnlyEntry;
      EntryKnown(flash, State(), ids, |items|);
      FreeAt(flash, State(), ids);
      assert Kept(|items|) == ids[..|items|];
      ContinuesNone(images, ids);
      var found := SearchItem(def.param);
      if found.None? {
        p := NewItem(def, |items|);
      } else {
        p := Ref(active, found.value);
      }
    }

    /** Start-up on an existing log. */
    method LocateItems(defs: seq<Cell>, s: Section, ghost d: Disk)
      requires GoodIds(Params(defs)) && d.Disk? && d.section == s && Shows(flash, d, Params(defs))
      modifies this
      ensures Valid() && ids == Params(defs) && State() == Started(d, defs, |defs|)
      ensures Continues(old(images), images, StartTrace(d, defs, |defs|), ids)
      ensures StartTrace(d, defs, |defs|) == [] ==> flash == old(flash)
      ensures swaps == old(swaps) + (if Fits(d, defs, |defs|) then 0 else 1)
    {
      hide LocateTrace, StartTrace, Started, Shows, Continues, OnlyEntry, GoodIds, Fits, Params;
      active, items := s, [];
      ids, stored, used := Params(defs), d.stored, d.used;
      ShowsSound(flash, d, ids);
      StartNone(d, defs);
      ContinuesNone(images, ids);
      for n := 0 to |defs|
        invariant |items| == n && ids == Params(defs) && Located(|ids|) && State() == Started(d, defs, n)
        invariant Continues(old(images), images, StartTrace(d, defs, n), ids)
        invariant StartTrace(d, defs, n) == [] ==> flash == old(flash)
        invariant swaps == old(swaps) + (if Fits(d, defs, n) then 0 else 1)
      {
        ghost var before := images;
        StartedLast(d, defs, n);
        SwapWhere(d, defs, n);
        var p := LocateItem(defs[n]);
        ContinuesJoin(old(images), before, images, StartTrace(d, defs, n),
                      LocateTrace(Started(d, defs, n), ids[..n], defs[n]), ids);
        ItemRefs(n);
        ghost var refs := items;
        items := items + [p];
        ItemMoved(refs, n, p);
      }
    }

    /** Start-up on a flash without a valid header: format Low and write the defaults. */
    method CreateItems(defs: seq<Cell>)
      requires GoodIds(Params(defs)) && BootSection(flash).None?
      modifies this
      ensures Valid() && ids == Params(defs) && State() == Started(Blank, defs, |defs|) && swaps == old(swaps)
      ensures Continues(old(images), images, StartTrace(Blank, defs, |defs|), ids)
    {
      hide Program, LocateTrace, StartTrace, Started, Shows, Continues, OnlyEntry, GoodIds, Params;
      ghost var f := flash;
      Format(Low);
      active, items := Low, [];
      ids, stored, used := Params(defs), map[], 0;
      BlankShows(f, flash, defs, old(images), images);
      for n := 0 to |defs|
        invariant |items| == n && ids == Params(defs) && Located(|ids|) && State() == Started(Blank, defs, n)
        invariant active == Low && used == n && swaps == old(swaps)
        invariant Continues(old(images), images, StartTrace(Blank, defs, n), ids)
      {
        ghost var before := images;
        CreateStep(defs, n);
        FreeAt(flash, State(), ids);
        StoredOrNot(flash, State(), ids, n);
        AppendShows(flash, State(), defs[n], ids, images);
        label Before:
        WriteFlash(defs[n], Low, n + 1);
        stored, used := stored[defs[n].param := defs[n].value], used + 1;
        ItemsKept@Before(n);
        ItemRefs(n);
        ghost var refs := items;
        items := items + [Ref(Low, n + 1)];
        ContinuesJoin(old(images), before, images, StartTrace(Blank, defs, n), [State()], ids);
        ItemMoved(refs, n, Ref(Low, n + 1));
      }
    }

    /** `sm_core_param_init`, from any state `d` of the flash that an update or a start-up may leave: every parameter
        gets its stored value if start-up comes to it before it has to swap, else its default. */
    method Init(defs: seq<Cell>, ghost d: Disk)
      requires GoodIds(Params(defs)) && Shows(flash, d, Params(defs))
      modifies this
      ensures Valid() && ids == Params(defs) && State() == Started(d, defs, |defs|)
      ensures Values() == Restarted(d, defs)
      ensures forall i :: 0 <= i < |defs| ==> ids[i] in Values() && Values()[ids[i]] == Loaded(Opened(d), defs, i)
      ensures Continues(old(images), images, StartTrace(d, defs, |defs|), ids)
      ensures StartTrace(d, defs, |defs|) == [] ==> flash == old(flash)
      ensures swaps == old(swaps) + (if Fits(Opened(d), defs, |defs|) then 0 else 1)
    {
      hide StartTrace, Started, Continues, GoodIds, Params, Fits, Loaded;
      ShowsSound(flash, d, Params(defs));
      RestartExact(d, defs);
      BlankFits(defs);
      if flash.low[0] == ACTIVE_FLAG {
        LocateItems(defs, Low, d);
      } else if flash.high[0] == ACTIVE_FLAG {
        LocateItems(defs, High, d);
      } else {
        CreateItems(defs);
      }
      forall i | 0 <= i < |defs|
        ensures ids[i] in Values() && Values()[ids[i]] == Loaded(Opened(d), defs, i)
      {
        assert ids[i] == defs[i].param;
      }
    }

    /** Restarting with the same definitions, whatever their default values, recovers exactly the same
        parameter map and writes nothing. */
    method Restart(defs: seq<Cell>)
      requires Valid() && Params(defs) == ids
      modifies this
      ensures Valid() && ids == old(ids) && Values() == old(Values())
      ensures State() == old(State()) && used == old(used) && active == old(active) && swaps == old(swaps)
      ensures flash == old(flash) && images == old(images)
    {
      hide StartTrace, Started, Shows, GoodIds, Params, Fits, Complete;
      ValidComplete();
      CompleteStart(State(), defs, |defs|);
      Init(defs, State());
      assert images[|old(images)|..] == [];
    }

    // -- runs

    lemma UsedBound()
      requires Valid()
      ensures used <= SECTION_SIZE - 1
    {
    }

    /** Any run of updates and restarts: the log agrees with the plain map, and the number of swaps is exact. */
    method Perform(actions: seq<Action>)
      requires Valid() && forall i :: 0 <= i < |actions| && actions[i].PowerCycle? ==> Params(actions[i].defs) == ids
      modifies this
      ensures Valid() && ids == old(ids) && Values() == Updated(old(Values()), actions)
      ensures swaps == old(swaps) + SwapsAfter(old(used), |ids|, Accepted(old(Values()), actions))
      ensures used == UsedAfter(old(used), |ids|, Accepted(old(Values()), actions))
    {
      hide *;
      ghost var values, u, count := Values(), used, 0;
      CountStart(values, actions, u, |ids|);
      for n := 0 to |actions|
        invariant Valid() && ids == old(ids) && Values() == Updated(values, actions[..n])
        invariant count == Accepted(values, actions[..n]) && values.Keys == Values().Keys
        invariant swaps == old(swaps) + SwapsAfter(u, |ids|, count) && used == UsedAfter(u, |ids|, count)
      {
        ActionStep(values, actions, n);
        CountStep(u, |ids|, count);
        UsedBound();
        match actions[n] {
          case Update(param, value) =>
            var _ := SetValue(param, value);
          case PowerCycle(defs) =>
            Restart(defs);
        }
        count := Accepted(values, actions[..n + 1]);
      }
      assert actions[..|actions|] == actions;
    }

    /** One event, with power lost after some of its writes if it says so. */
    method Undergo(e: Event, on: bool, ghost v: Device, ghost params: seq<Word16>) returns (still: bool)
      requires Proper(v, params) && Shows(flash, v.disk, params) && on == v.on
      requires e.Start? ==> Params(e.defs) == params
      requires on ==> Valid() && ids == params && State() == v.disk
      modifies this
      ensures Shows(flash, Next(v, params, e).disk, params) && still == Next(v, params, e).on
      ensures still ==> Valid() && ids == params && State() == Next(v, params, e).disk
    {
      hide Shows, UpdateTrace, StartTrace, Started, Continues, GoodIds, Params, Complete, Sound;
      var before, was := |images|, flash;
      ghost var history, trace := images, [];
      ContinuesNone(images, params);
      still := on;
      match e {
        case Set(param, value, _) =>
          if on {
            ValidComplete();
            var _ := SetValue(param, value);
            if Effective(v, params, e) { trace := UpdateTrace(v.disk, params, IndexOf(params, param), value); }
          }
        case Start(defs, _) =>
          Init(defs, v.disk);
          StartEnd(v.disk, defs);
          trace := StartTrace(v.disk, defs, |defs|);
          still := true;
      }
      NextTrace(v, params, e, trace);
      if e.cut.Some? {
        CutShows(history, images, was, flash, v.disk, trace, e.cut.value, params);
        flash := Surviving(images, before, was, flash, e.cut.value);
        still := false;
      }
    }

    /** Any run of updates and start-ups in which power may be lost between any two writes: the flash shows the state
        that Run gives, and so does the map while the firmware runs. */
    method Endure(events: seq<Event>) returns (on: bool)
      requires Valid() && forall i :: 0 <= i < |events| && events[i].Start? ==> Params(events[i].defs) == ids
      modifies this
      ensures Shows(flash, Run(Device(old(State()), true), old(ids), events).disk, old(ids))
      ensures on == Run(Device(old(State()), true), old(ids), events).on
      ensures on ==> Valid() && ids == old(ids) && State() == Run(Device(old(State()), true), ids, events).disk
    {
      hide Shows, Run, Next, Complete, Sound;
      ghost var params, v0 := ids, Device(State(), true);
      on := true;
      RunStart(v0, params, events);
      ValidComplete();
      ShowsSound(flash, State(), ids);
      for n := 0 to |events|
        invariant on == Run(v0, params, events[..n]).on
        invariant Proper(Run(v0, params, events[..n]), params)
        invariant Shows(flash, Run(v0, params, events[..n]).disk, params)
        invariant on ==> Valid() && ids == params && State() == Run(v0, params, events[..n]).disk
      {
        ghost var v := Run(v0, params, events[..n]);
        RunStep(v0, params, events, n);
        NextProper(v, params, events[n]);
        on := Undergo(events[n], on, v, params);
      }
      assert events[..|events|] == events;
    }
  }
}
