// The parameter log of ev-sdk/cores/storage/sm_core_param.c at the level of single
// writes: which values the flash holds after every erase and every word written by an
// update or by start-up, and what a restart makes of each of these states.
module ParamDisk {
  import opened Optional
  import opened ParamFlash

  /** What flash holds for the parameters: no valid section, or the section that start-up chooses with the
      values stored in it and the number of words they have used up. */
  datatype Disk = Blank | Disk(section: Section, stored: map<Word16, Word16>, used: nat)

  function Params(defs: seq<Cell>): (ids: seq<Word16>)
    ensures |ids| == |defs| && forall i :: 0 <= i < |defs| ==> ids[i] == defs[i].param
  {
    seq(|defs|, i requires 0 <= i < |defs| => defs[i].param)
  }

  function IndexOf(ids: seq<Word16>, id: Word16): (i: nat)
    requires id in ids
    ensures i < |ids| && ids[i] == id && id !in ids[..i]
  {
    if ids[0] == id then 0 else
      assert ids == [ids[0]] + ids[1..];
      var i := 1 + IndexOf(ids[1..], id);
      assert ids[..i] == [ids[0]] + ids[1..][..i - 1];
      i
  }

  // ----- traces of writes ----------------------------------------------------------------

  /** The state after a trace. */
  function Last(d: Disk, trace: seq<Disk>): Disk {
    if trace == [] then d else trace[|trace| - 1]
  }

  /** The state when power is lost after `k` writes of a trace, or after all of them if there are fewer. */
  function AfterWrites(d: Disk, trace: seq<Disk>, k: nat): Disk {
    if k == 0 then d else if k <= |trace| then trace[k - 1] else Last(d, trace)
  }

  function Add(d: Disk, entry: Cell): (e: Disk)
    requires d.Disk?
    ensures e.Disk?
  {
    d.(stored := d.stored[entry.param := entry.value], used := d.used + 1)
  }

  function Restrict(m: map<Word16, Word16>, keep: seq<Word16>): (r: map<Word16, Word16>)
    ensures forall id :: id in r <==> id in m && id in keep
    ensures forall id :: id in r ==> r[id] == m[id]
  {
    map id | id in m && id in keep :: m[id]
  }

  /** The swap of a full section: erase the other section, write its header, copy the entries of `keep` in this
      order, clear the old header, write `entry`.  Low is chosen as soon as it has a header, High only when
      Low's header is gone. */
  function SwapTrace(d: Disk, keep: seq<Word16>, entry: Cell): (trace: seq<Disk>)
    requires d.Disk?
    ensures |trace| == |keep| + 4 && trace[|keep| + 3].Disk?
  {
    var copied := Disk(d.section.Other(), Restrict(d.stored, keep), |keep|);
    [d]
    + seq(|keep| + 1, c requires 0 <= c <= |keep| =>
        if d.section.Low? then d else Disk(Low, Restrict(d.stored, keep[..c]), c))
    + [copied, Add(copied, entry)]
  }

  /** A new entry: zero the parameter's old one, then append, or swap if no word is free. */
  function PutTrace(d: Disk, keep: seq<Word16>, entry: Cell): (trace: seq<Disk>)
    requires d.Disk?
    ensures trace != [] && trace[|trace| - 1].Disk?
  {
    var zeroed := d.(stored := d.stored - {entry.param});
    (if entry.param in d.stored then [zeroed] else [])
    + if d.used < SECTION_SIZE - 1 then [Add(zeroed, entry)] else SwapTrace(zeroed, keep, entry)
  }

  function Others(ids: seq<Word16>, z: nat): (keep: seq<Word16>)
    requires z <= |ids|
    ensures |keep| == if z < |ids| then |ids| - 1 else |ids|
    ensures forall i :: 0 <= i < |keep| ==> keep[i] == if i < z then ids[i] else ids[i + 1]
  {
    if z < |ids| then ids[..z] + ids[z + 1..] else ids
  }

  /** An update of parameter `ids[z]`. */
  function UpdateTrace(d: Disk, ids: seq<Word16>, z: nat, value: Word16): seq<Disk>
    requires d.Disk? && z < |ids|
  {
    PutTrace(d, Others(ids, z), Cell(ids[z], value))
  }

  /** Start-up formats Low when no section is valid. */
  function Opened(d: Disk): (e: Disk)
    ensures e.Disk?
  {
    if d.Blank? then Disk(Low, map[], 0) else d
  }

  function LocateTrace(d: Disk, keep: seq<Word16>, def: Cell): (trace: seq<Disk>)
    requires d.Disk?
    ensures Last(d, trace).Disk?
  {
    if def.param in d.stored then [] else PutTrace(d, keep, def)
  }

  /** Start-up looks for the first `n` definitions one by one and appends the default of a missing one.  A swap
      copies only the parameters that have been located so far. */
  function StartTrace(d: Disk, defs: seq<Cell>, n: nat): (trace: seq<Disk>)
    requires n <= |defs|
    ensures Last(Opened(d), trace).Disk?
  {
    if n == 0 then (if d.Blank? then [Blank, Opened(d)] else []) else
      var before := StartTrace(d, defs, n - 1);
      before + LocateTrace(Last(Opened(d), before), Params(defs)[..n - 1], defs[n - 1])
  }

  function Started(d: Disk, defs: seq<Cell>, n: nat): (e: Disk)
    requires n <= |defs|
    ensures e.Disk?
  {
    Last(Opened(d), StartTrace(d, defs, n))
  }

  /** The parameter map after a restart. */
  function Restarted(d: Disk, defs: seq<Cell>): map<Word16, Word16> {
    Started(d, defs, |defs|).stored
  }

  /** The state that a new entry ends in. */
  lemma PutLast(d: Disk, keep: seq<Word16>, entry: Cell)
    requires d.Disk? && entry.param !in keep
    ensures Last(d, PutTrace(d, keep, entry)) ==
      if d.used < SECTION_SIZE - 1 then Add(d, entry)
      else Disk(d.section.Other(), Restrict(d.stored, keep)[entry.param := entry.value], |keep| + 1)
  {
    var m := d.stored - {entry.param};
    assert m[entry.param := entry.value] == d.stored[entry.param := entry.value];
    assert Restrict(m, keep) == Restrict(d.stored, keep);
  }

  // ----- what a restart finds ---------------------------------------------------------------

  /** How many of the first `n` definitions have no stored value. */
  function Missing(m: map<Word16, Word16>, defs: seq<Cell>, n: nat): nat
    requires n <= |defs|
  {
    if n == 0 then 0 else Missing(m, defs, n - 1) + (if defs[n - 1].param in m then 0 else 1)
  }

  /** Start-up gets through the first `n` definitions without a swap. */
  predicate Fits(d: Disk, defs: seq<Cell>, n: nat)
    requires d.Disk? && n <= |defs|
  {
    d.used + Missing(d.stored, defs, n) < SECTION_SIZE
  }

  /** The value that start-up gives to definition `i`: the stored one if start-up gets to it before a swap. */
  function Loaded(d: Disk, defs: seq<Cell>, i: nat): Word16
    requires d.Disk? && i < |defs|
  {
    if Fits(d, defs, i + 1) && defs[i].param in d.stored then d.stored[defs[i].param] else defs[i].value
  }

  /** The state after one more definition. */
  lemma StartedStep(d: Disk, defs: seq<Cell>, n: nat)
    requires n < |defs| && GoodIds(Params(defs))
    ensures var was, now, ids, def := Started(d, defs, n), Started(d, defs, n + 1), Params(defs), defs[n];
      now == if def.param in was.stored then was
             else if was.used < SECTION_SIZE - 1 then Add(was, def)
             else Disk(was.section.Other(), Restrict(was.stored, ids[..n])[def.param := def.value], n + 1)
  {
    hide PutTrace, Restrict;
    var was, ids := Started(d, defs, n), Params(defs);
    assert ids[n] !in ids[..n];
    PutLast(was, ids[..n], defs[n]);
    assert Started(d, defs, n + 1) == Last(was, LocateTrace(was, ids[..n], defs[n]));
  }

  /** The parameters of the first `n` definitions. */
  function Defined(defs: seq<Cell>, n: nat): (ids: set<Word16>)
    requires n <= |defs|
    ensures forall i :: 0 <= i < n ==> defs[i].param in ids
  {
    if n == 0 then {} else Defined(defs, n - 1) + {defs[n - 1].param}
  }

  lemma {:induction false} DefinedPrefix(defs: seq<Cell>, n: nat)
    requires n <= |defs|
    ensures forall id :: id in Defined(defs, n) <==> id in Params(defs)[..n]
    ensures GoodIds(Params(defs)) && n < |defs| ==> defs[n].param !in Defined(defs, n)
  {
    if n > 0 {
      DefinedPrefix(defs, n - 1);
      assert Params(defs)[..n] == Params(defs)[..n - 1] + [Params(defs)[n - 1]];
    }
    if GoodIds(Params(defs)) && n < |defs| { assert Params(defs)[n] !in Params(defs)[..n]; }
  }

  lemma StartedNone(d: Disk, defs: seq<Cell>)
    ensures Started(d, defs, 0) == Opened(d)
  {
  }

  /** As long as there is room, start-up keeps what is stored and adds the defaults of the rest. */
  lemma {:induction false} StartedFits(d: Disk, defs: seq<Cell>, n: nat)
    requires d.Disk? && GoodIds(Params(defs)) && n <= |defs| && Fits(d, defs, n)
    ensures var e := Started(d, defs, n);
      && e.section == d.section && e.used == d.used + Missing(d.stored, defs, n)
      && e.stored.Keys == d.stored.Keys + Defined(defs, n)
      && (forall id :: id in d.stored ==> e.stored[id] == d.stored[id])
      && (forall i :: 0 <= i < n && defs[i].param !in d.stored ==> e.stored[defs[i].param] == defs[i].value)
  {
    hide Started, GoodIds, Params, Restrict;
    if n == 0 {
      StartedNone(d, defs);
    } else {
      StartedFits(d, defs, n - 1);
      StartedStep(d, defs, n - 1);
      DefinedPrefix(defs, n - 1);
    }
  }

  lemma {:induction false} FitsBefore(d: Disk, defs: seq<Cell>, i: nat, n: nat)
    requires d.Disk? && i <= n <= |defs| && Fits(d, defs, n)
    ensures Fits(d, defs, i)
    decreases n
  {
    if i < n { FitsBefore(d, defs, i, n - 1); }
  }

  lemma RestrictDefined(m: map<Word16, Word16>, defs: seq<Cell>, n: nat)
    requires n <= |defs| && Defined(defs, n) <= m.Keys
    ensures var r := Restrict(m, Params(defs)[..n]);
      && r.Keys == Defined(defs, n)
      && forall i :: 0 <= i < n ==> r[defs[i].param] == m[defs[i].param]
  {
    DefinedPrefix(defs, n);
  }

  lemma LoadedBefore(d: Disk, defs: seq<Cell>, i: nat, n: nat)
    requires d.Disk? && i < n <= |defs| && Fits(d, defs, n)
    ensures Loaded(d, defs, i) == if defs[i].param in d.stored then d.stored[defs[i].param] else defs[i].value
  {
    FitsBefore(d, defs, i + 1, n);
  }

  lemma NotFits(d: Disk, defs: seq<Cell>, n: nat)
    requires d.Disk? && n < |defs| && Fits(d, defs, n) && !Fits(d, defs, n + 1)
    ensures defs[n].param !in d.stored && d.used + Missing(d.stored, defs, n) == SECTION_SIZE - 1
    ensures Loaded(d, defs, n) == defs[n].value
  {
  }

  /** The definition at which there is no room swaps the sections. */
  lemma StartedSwap(d: Disk, defs: seq<Cell>, n: nat)
    requires d.Disk? && GoodIds(Params(defs)) && n < |defs| && Fits(d, defs, n) && !Fits(d, defs, n + 1)
    ensures var e := Started(d, defs, n + 1);
      && e.section == d.section.Other() && e.used == n + 1 && e.stored.Keys == Defined(defs, n + 1)
      && (forall i :: 0 <= i < n + 1 ==> e.stored[defs[i].param] == Loaded(d, defs, i))
  {
    hide Started, GoodIds, Params, Restrict, Fits, Loaded, Missing;
    StartedFits(d, defs, n);
    StartedStep(d, defs, n);
    DefinedPrefix(defs, n);
    NotFits(d, defs, n);
    RestrictDefined(Started(d, defs, n).stored, defs, n);
    forall i | 0 <= i < n
      ensures Started(d, defs, n + 1).stored[defs[i].param] == Loaded(d, defs, i)
    {
      LoadedBefore(d, defs, i, n);
    }
  }

  lemma NotFitsDefault(d: Disk, defs: seq<Cell>, n: nat)
    requires d.Disk? && d.used < SECTION_SIZE && GoodIds(Params(defs)) && n <= |defs| && !Fits(d, defs, n)
    ensures 0 < n <= MAX_PARAM_ITEM && Loaded(d, defs, n - 1) == defs[n - 1].value
  {
  }

  lemma StartedAppend(d: Disk, defs: seq<Cell>, n: nat)
    requires GoodIds(Params(defs)) && n < |defs|
    requires Started(d, defs, n).used == n && Started(d, defs, n).stored.Keys == Defined(defs, n)
    ensures Started(d, defs, n + 1) == Add(Started(d, defs, n), defs[n])
    ensures Started(d, defs, n + 1).used == n + 1 && Started(d, defs, n + 1).section == Started(d, defs, n).section
    ensures Started(d, defs, n + 1).stored.Keys == Defined(defs, n + 1)
    ensures Started(d, defs, n + 1).stored[defs[n].param] == defs[n].value
    ensures forall i :: 0 <= i < n ==>
      Started(d, defs, n + 1).stored[defs[i].param] == Started(d, defs, n).stored[defs[i].param]
  {
    assert n < MAX_PARAM_ITEM;
    hide Started, GoodIds, Params, Restrict;
    StartedStep(d, defs, n);
    DefinedPrefix(defs, n);
  }

  /** Of the later parameters only the defaults remain. */
  lemma {:induction false} StartedSwapped(d: Disk, defs: seq<Cell>, n: nat)
    requires d.Disk? && d.used < SECTION_SIZE && GoodIds(Params(defs)) && n <= |defs| && !Fits(d, defs, n)
    ensures var e := Started(d, defs, n);
      && e.section == d.section.Other() && e.used == n && e.stored.Keys == Defined(defs, n)
      && (forall i :: 0 <= i < n ==> e.stored[defs[i].param] == Loaded(d, defs, i))
  {
    hide *;
    NotFitsDefault(d, defs, n);
    if Fits(d, defs, n - 1) {
      StartedSwap(d, defs, n - 1);
    } else {
      StartedSwapped(d, defs, n - 1);
      StartedAppend(d, defs, n - 1);
    }
  }

  lemma StartedLast(d: Disk, defs: seq<Cell>, n: nat)
    requires n < |defs|
    ensures var was := Started(d, defs, n);
      Started(d, defs, n + 1) == Last(was, LocateTrace(was, Params(defs)[..n], defs[n]))
    ensures StartTrace(d, defs, n + 1)
      == StartTrace(d, defs, n) + LocateTrace(Started(d, defs, n), Params(defs)[..n], defs[n])
  {
    hide LocateTrace;
  }

  lemma {:induction false} StartedBlank(defs: seq<Cell>, n: nat)
    requires n <= |defs|
    ensures Started(Blank, defs, n) == Started(Opened(Blank), defs, n)
  {
    if n > 0 {
      StartedBlank(defs, n - 1);
      StartedLast(Blank, defs, n - 1);
      StartedLast(Opened(Blank), defs, n - 1);
    }
  }

  lemma DefinedAll(defs: seq<Cell>)
    ensures forall id :: id in Defined(defs, |defs|) <==> id in Params(defs)
  {
    DefinedPrefix(defs, |defs|);
    assert Params(defs)[..|defs|] == Params(defs);
  }

  /** Only parameters of `ids` are stored, and the words used fit the section. */
  predicate Sound(d: Disk, ids: seq<Word16>) {
    d.Disk? ==> d.used < SECTION_SIZE && forall id :: id in d.stored ==> id in ids
  }

  lemma OpenedSound(d: Disk, defs: seq<Cell>)
    requires GoodIds(Params(defs)) && Sound(d, Params(defs))
    ensures Opened(d).used < SECTION_SIZE && Opened(d).stored.Keys <= Defined(defs, |defs|)
    ensures Restarted(d, defs) == Started(Opened(d), defs, |defs|).stored
  {
    DefinedAll(defs);
    hide Started;
    if d.Blank? { StartedBlank(defs, |defs|); }
  }

  lemma OpenedExact(d: Disk, defs: seq<Cell>)
    requires d.Disk? && d.used < SECTION_SIZE && GoodIds(Params(defs)) && d.stored.Keys <= Defined(defs, |defs|)
    ensures Started(d, defs, |defs|).stored.Keys == Defined(defs, |defs|)
    ensures forall i :: 0 <= i < |defs| ==> Started(d, defs, |defs|).stored[defs[i].param] == Loaded(d, defs, i)
  {
    hide *;
    if Fits(d, defs, |defs|) {
      StartedFits(d, defs, |defs|);
      forall i | 0 <= i < |defs|
        ensures Started(d, defs, |defs|).stored[defs[i].param] == Loaded(d, defs, i)
      {
        LoadedBefore(d, defs, i, |defs|);
      }
    } else {
      StartedSwapped(d, defs, |defs|);
    }
  }

  /** What a restart makes of any state of the flash: every parameter has its stored value if start-up gets to it
      before it has to swap, otherwise its default. */
  lemma RestartExact(d: Disk, defs: seq<Cell>)
    requires GoodIds(Params(defs)) && Sound(d, Params(defs))
    ensures Restarted(d, defs).Keys == Defined(defs, |defs|)
    ensures forall i :: 0 <= i < |defs| ==> Restarted(d, defs)[defs[i].param] == Loaded(Opened(d), defs, i)
  {
    hide *;
    OpenedSound(d, defs);
    OpenedExact(Opened(d), defs);
  }

  // ----- an interrupted update ----------------------------------------------------------------

  /** A restart on `d` finds the values of `m` for all parameters but `ids[z]`, whatever their defaults. */
  ghost predicate KeepsOthers(d: Disk, ids: seq<Word16>, z: nat, m: map<Word16, Word16>)
    requires z < |ids|
  {
    forall defs :: Params(defs) == ids ==> Restarted(d, defs) - {ids[z]} == m - {ids[z]}
  }

  /** All parameters but `ids[z]` are stored with the values of `m`. */
  ghost predicate StoresOthers(d: Disk, ids: seq<Word16>, z: nat, m: map<Word16, Word16>)
    requires z < |ids|
  {
    d.Disk? && forall i :: 0 <= i < |ids| && i != z ==>
      ids[i] in d.stored && ids[i] in m && d.stored[ids[i]] == m[ids[i]]
  }

  /** Definitions of `ids` with defaults other than the values of `m`. */
  function OtherDefaults(ids: seq<Word16>, m: map<Word16, Word16>): (defs: seq<Cell>)
    ensures Params(defs) == ids
    ensures forall i :: 0 <= i < |ids| && ids[i] in m ==> defs[i].value != m[ids[i]]
  {
    var defs := seq(|ids|, i requires 0 <= i < |ids| => Cell(ids[i], if ids[i] in m && m[ids[i]] == 0 then 1 else 0));
    assert Params(defs) == ids;
    defs
  }

  lemma {:induction false} MissingOne(d: Disk, defs: seq<Cell>, z: nat, m: map<Word16, Word16>, n: nat)
    requires z < |defs| && StoresOthers(d, Params(defs), z, m) && n <= |defs|
    ensures Missing(d.stored, defs, n) == if z < n && defs[z].param !in d.stored then 1 else 0
  {
    if n > 0 {
      MissingOne(d, defs, z, m, n - 1);
      assert n - 1 != z ==> Params(defs)[n - 1] in d.stored;
    }
  }

  lemma SameKeys(d: Disk, defs: seq<Cell>, m: map<Word16, Word16>)
    requires GoodIds(Params(defs)) && Sound(d, Params(defs)) && forall id :: id in m <==> id in Params(defs)
    ensures Restarted(d, defs).Keys == m.Keys
  {
    RestartExact(d, defs);
    DefinedAll(defs);
  }

  lemma SameMaps(a: map<Word16, Word16>, b: map<Word16, Word16>, ids: seq<Word16>, z: nat)
    requires z < |ids| && a.Keys == b.Keys && forall id :: id in b <==> id in ids
    requires forall i :: 0 <= i < |ids| && i != z ==> a[ids[i]] == b[ids[i]]
    ensures a - {ids[z]} == b - {ids[z]}
  {
    forall id | id in a && id != ids[z]
      ensures a[id] == b[id]
    {
      var i := IndexOf(ids, id);
    }
  }

  lemma StoredSame(d: Disk, defs: seq<Cell>, z: nat, m: map<Word16, Word16>)
    requires var ids := Params(defs); GoodIds(ids) && z < |ids| && Sound(d, ids) && StoresOthers(d, ids, z, m)
    requires forall id :: id in m <==> id in Params(defs)
    requires defs[z].param in d.stored || d.used < SECTION_SIZE - 1 || z == |defs| - 1
    ensures Restarted(d, defs) - {Params(defs)[z]} == m - {Params(defs)[z]}
  {
    hide Restarted, GoodIds, Params;
    RestartExact(d, defs);
    SameKeys(d, defs, m);
    forall i | 0 <= i < |defs| && i != z
      ensures Restarted(d, defs)[Params(defs)[i]] == m[Params(defs)[i]]
    {
      MissingOne(d, defs, z, m, i + 1);
    }
    SameMaps(Restarted(d, defs), m, Params(defs), z);
  }

  lemma DiffersAt(a: map<Word16, Word16>, b: map<Word16, Word16>, ids: seq<Word16>, z: nat, i: nat)
    requires GoodIds(ids) && z < |ids| && i < |ids| && i != z
    requires ids[i] in a && ids[i] in b && a[ids[i]] != b[ids[i]]
    ensures a - {ids[z]} != b - {ids[z]}
  {
    assert ids[i] in a - {ids[z]} && (a - {ids[z]})[ids[i]] != (b - {ids[z]})[ids[i]];
  }

  lemma StoredLost(d: Disk, defs: seq<Cell>, z: nat, m: map<Word16, Word16>)
    requires var ids := Params(defs); GoodIds(ids) && z < |ids| - 1 && Sound(d, ids) && StoresOthers(d, ids, z, m)
    requires defs[z].param !in d.stored && d.used == SECTION_SIZE - 1
    requires var i := |defs| - 1; Params(defs)[i] in m && defs[i].value != m[Params(defs)[i]]
    ensures Restarted(d, defs) - {Params(defs)[z]} != m - {Params(defs)[z]}
  {
    hide Restarted, Params;
    RestartExact(d, defs);
    MissingOne(d, defs, z, m, |defs|);
    DiffersAt(Restarted(d, defs), m, Params(defs), z, |defs| - 1);
  }

  /** Where the others are stored, a restart keeps them all unless it has to swap before it has seen the last one. */
  lemma StoredKept(d: Disk, ids: seq<Word16>, z: nat, m: map<Word16, Word16>)
    requires GoodIds(ids) && z < |ids| && Sound(d, ids) && StoresOthers(d, ids, z, m)
    requires forall id :: id in m <==> id in ids
    ensures KeepsOthers(d, ids, z, m) <==> ids[z] in d.stored || d.used < SECTION_SIZE - 1 || z == |ids| - 1
  {
    if ids[z] in d.stored || d.used < SECTION_SIZE - 1 || z == |ids| - 1 {
      forall defs | Params(defs) == ids
        ensures Restarted(d, defs) - {ids[z]} == m - {ids[z]}
      {
        StoredSame(d, defs, z, m);
      }
    } else {
      var defs := OtherDefaults(ids, m);
      StoredLost(d, defs, z, m);
    }
  }

  /** A section with a header and nothing else loses them. */
  lemma EmptyLoses(ids: seq<Word16>, z: nat, m: map<Word16, Word16>)
    requires GoodIds(ids) && z < |ids| && |ids| > 1 && forall id :: id in m <==> id in ids
    ensures !KeepsOthers(Disk(Low, map[], 0), ids, z, m) && !StoresOthers(Disk(Low, map[], 0), ids, z, m)
  {
    var d, defs, i := Disk(Low, map[], 0), OtherDefaults(ids, m), if z == 0 then 1 else 0;
    RestartExact(d, defs);
    DiffersAt(Restarted(d, defs), m, ids, z, i);
  }

  lemma OthersIn(ids: seq<Word16>, z: nat)
    requires GoodIds(ids) && z < |ids|
    ensures forall id :: id in Others(ids, z) <==> id in ids && id != ids[z]
  {
    forall id | id in ids && id != ids[z]
      ensures id in Others(ids, z)
    {
      var i := IndexOf(ids, id);
      assert Others(ids, z)[if i < z then i else i - 1] == id;
    }
  }

  /** All parameters are stored. */
  ghost predicate Complete(d: Disk, ids: seq<Word16>) {
    d.Disk? && d.used < SECTION_SIZE && forall id :: id in d.stored <==> id in ids
  }

  /** The states of an update of a section with room: the old entry zeroed, the new one appended. */
  lemma AppendShape(d: Disk, ids: seq<Word16>, z: nat, value: Word16)
    requires GoodIds(ids) && z < |ids| && Complete(d, ids) && d.used < SECTION_SIZE - 1
    ensures var zeroed := d.(stored := d.stored - {ids[z]});
      UpdateTrace(d, ids, z, value) == [zeroed, Add(zeroed, Cell(ids[z], value))]
  {
  }

  /** The states of a swap, one by one. */
  lemma SwapStates(d: Disk, keep: seq<Word16>, entry: Cell)
    requires d.Disk?
    ensures var t := SwapTrace(d, keep, entry);
      var copied := Disk(d.section.Other(), Restrict(d.stored, keep), |keep|);
      && |t| == |keep| + 4 && t[0] == d && t[|keep| + 2] == copied && t[|keep| + 3] == Add(copied, entry)
      && forall k :: 1 <= k < |keep| + 2 ==>
           t[k] == if d.section.Low? then d else Disk(Low, Restrict(d.stored, keep[..k - 1]), k - 1)
  {
    hide Restrict;
  }

  /** The states of an update that swaps. */
  lemma SwapShape(d: Disk, ids: seq<Word16>, z: nat, value: Word16)
    requires GoodIds(ids) && z < |ids| && Complete(d, ids) && d.used == SECTION_SIZE - 1
    ensures var t, n, keep := UpdateTrace(d, ids, z, value), |ids|, Others(ids, z);
      var zeroed := d.(stored := d.stored - {ids[z]});
      var copied := Disk(d.section.Other(), Restrict(zeroed.stored, keep), n - 1);
      && |t| == n + 4 <= MAX_PARAM_ITEM + 4 && t[0] == t[1] == zeroed
      && t[n + 2] == copied && t[n + 3] == Add(copied, Cell(ids[z], value))
      && forall k :: 2 <= k < n + 2 ==>
           t[k] == if d.section.Low? then zeroed else Disk(Low, Restrict(zeroed.stored, keep[..k - 2]), k - 2)
  {
    var zeroed, keep, entry := d.(stored := d.stored - {ids[z]}), Others(ids, z), Cell(ids[z], value);
    SwapStates(zeroed, keep, entry);
    var swap := SwapTrace(zeroed, keep, entry);
    hide SwapTrace, Restrict, Others;
    assert UpdateTrace(d, ids, z, value) == [zeroed] + swap;
    hide UpdateTrace;
    assert forall k :: 1 <= k < |ids| + 4 ==> ([zeroed] + swap)[k] == swap[k - 1];
  }

  /** The state before and after `ids[z]` has got its new entry, in either section. */
  lemma OthersStored(d: Disk, ids: seq<Word16>, z: nat, x: Disk, value: Word16)
    requires GoodIds(ids) && z < |ids| && Complete(d, ids) && x.Disk? && x.used < SECTION_SIZE
    requires x.stored == d.stored - {ids[z]} || x.stored == (d.stored - {ids[z]})[ids[z] := value]
    ensures Sound(x, ids) && StoresOthers(x, ids, z, d.stored)
    ensures KeepsOthers(x, ids, z, d.stored) <==> ids[z] in x.stored || x.used < SECTION_SIZE - 1 || z == |ids| - 1
  {
    assert forall i :: 0 <= i < |ids| && i != z ==> ids[i] != ids[z];
    hide KeepsOthers;
    StoredKept(x, ids, z, d.stored);
  }

  lemma CutAppend(d: Disk, ids: seq<Word16>, z: nat, value: Word16)
    requires GoodIds(ids) && z < |ids| && Complete(d, ids) && d.used < SECTION_SIZE - 1
    ensures forall k :: 0 <= k < |UpdateTrace(d, ids, z, value)| ==>
      && KeepsOthers(UpdateTrace(d, ids, z, value)[k], ids, z, d.stored)
      && StoresOthers(UpdateTrace(d, ids, z, value)[k], ids, z, d.stored)
  {
    hide UpdateTrace, KeepsOthers, StoresOthers, Sound;
    var zeroed := d.(stored := d.stored - {ids[z]});
    AppendShape(d, ids, z, value);
    OthersStored(d, ids, z, zeroed, value);
    OthersStored(d, ids, z, Add(zeroed, Cell(ids[z], value)), value);
  }

  /** Copying all entries but one. */
  lemma CopiedMap(d: Disk, ids: seq<Word16>, z: nat)
    requires GoodIds(ids) && z < |ids| && Complete(d, ids)
    ensures Restrict(d.stored - {ids[z]}, Others(ids, z)) == d.stored - {ids[z]}
  {
    OthersIn(ids, z);
  }

  lemma CutSwap(d: Disk, ids: seq<Word16>, z: nat, value: Word16)
    requires GoodIds(ids) && z < |ids| && Complete(d, ids) && d.used == SECTION_SIZE - 1
    ensures var t := UpdateTrace(d, ids, z, value);
      && ((forall k :: 0 <= k < |t| ==> KeepsOthers(t[k], ids, z, d.stored))
          <==> |ids| == 1 || (d.section.Low? && z == |ids| - 1))
      && ((forall k :: 0 <= k < |t| ==> StoresOthers(t[k], ids, z, d.stored)) <==> |ids| == 1 || d.section.Low?)
  {
    hide UpdateTrace, KeepsOthers, StoresOthers, Restrict, Sound, GoodIds;
    var t, n := UpdateTrace(d, ids, z, value), |ids|;
    var zeroed := d.(stored := d.stored - {ids[z]});
    SwapShape(d, ids, z, value);
    CopiedMap(d, ids, z);
    OthersStored(d, ids, z, zeroed, value);
    OthersStored(d, ids, z, t[n + 2], value);
    OthersStored(d, ids, z, t[n + 3], value);
    if d.section.High? {
      assert t[2].stored == map[];
      if n == 1 {
        assert zeroed.stored == map[];
        OthersStored(d, ids, z, t[2], value);
        assert forall k :: 0 <= k < |t| ==> t[k] == zeroed || t[k] == t[2] || t[k] == t[n + 2] || t[k] == t[n + 3];
      } else {
        EmptyLoses(ids, z, d.stored);
      }
    } else {
      assert forall k :: 0 <= k < |t| ==> t[k] == zeroed || k == n + 2 || k == n + 3;
    }
  }

  /** Power lost between any two writes of an update: a restart finds all other parameters, whatever their
      defaults, exactly if the section has room, or there is no other parameter, or the swap is from Low and the
      updated parameter is the last one defined.  The chosen section still holds their entries whenever the swap is
      from Low, but a start-up that has to swap itself loses the later ones. */
  lemma CutUpdate(d: Disk, ids: seq<Word16>, z: nat, value: Word16)
    requires GoodIds(ids) && z < |ids| && Complete(d, ids)
    ensures var t := UpdateTrace(d, ids, z, value);
      (forall k :: 0 <= k < |t| ==> KeepsOthers(t[k], ids, z, d.stored))
      <==> d.used < SECTION_SIZE - 1 || |ids| == 1 || (d.section.Low? && z == |ids| - 1)
    ensures var t := UpdateTrace(d, ids, z, value);
      (forall k :: 0 <= k < |t| ==> StoresOthers(t[k], ids, z, d.stored))
      <==> d.used < SECTION_SIZE - 1 || |ids| == 1 || d.section.Low?
  {
    hide UpdateTrace, KeepsOthers, StoresOthers, GoodIds;
    if d.used < SECTION_SIZE - 1 { CutAppend(d, ids, z, value); } else { CutSwap(d, ids, z, value); }
  }

  /** The smallest case: a full Low section, two parameters, an update of the first.  After its first write a restart
      swaps to store the first parameter's default, before it has come to the second one. */
  lemma LaterParameterLost()
    ensures var d, ids, defs := Disk(Low, map[1 := 10, 2 := 20], SECTION_SIZE - 1), [1, 2], [Cell(1, 0), Cell(2, 0)];
      var x := UpdateTrace(d, ids, 0, 11)[0];
      x.stored == map[2 := 20] && 2 in Restarted(x, defs) && Restarted(x, defs)[2] == 0
  {
    var d, ids, defs := Disk(Low, map[1 := 10, 2 := 20], SECTION_SIZE - 1), [1, 2], [Cell(1, 0), Cell(2, 0)];
    assert Params(defs) == ids;
    hide UpdateTrace, Restarted;
    SwapShape(d, ids, 0, 11);
    var x := UpdateTrace(d, ids, 0, 11)[0];
    assert x == Disk(Low, map[2 := 20], SECTION_SIZE - 1);
    RestartExact(x, defs);
    assert Missing(x.stored, defs, 1) == 1 && Missing(x.stored, defs, 2) == 1;
    assert defs[1].param == 2 && Loaded(x, defs, 1) == 0;
  }

  // ----- an interrupted start-up --------------------------------------------------------------

  /** A restart finds the same values on both. */
  ghost predicate SameLoaded(d: Disk, e: Disk, defs: seq<Cell>)
    requires d.Disk? && e.Disk?
  {
    forall i :: 0 <= i < |defs| ==> Loaded(e, defs, i) == Loaded(d, defs, i)
  }

  lemma {:induction false} DefinedAt(defs: seq<Cell>, n: nat, id: Word16) returns (i: nat)
    requires n <= |defs| && id in Defined(defs, n)
    ensures i < n && defs[i].param == id
  {
    if defs[n - 1].param == id { i := n - 1; } else { i := DefinedAt(defs, n - 1, id); }
  }

  lemma SameRestart(d: Disk, e: Disk, defs: seq<Cell>)
    requires GoodIds(Params(defs)) && Sound(d, Params(defs)) && Sound(e, Params(defs))
    ensures Restarted(e, defs) == Restarted(d, defs) <==> SameLoaded(Opened(d), Opened(e), defs)
  {
    hide Restarted, GoodIds, Loaded, Sound, Params;
    RestartExact(d, defs);
    RestartExact(e, defs);
    if SameLoaded(Opened(d), Opened(e), defs) {
      forall id | id in Defined(defs, |defs|)
        ensures Restarted(e, defs)[id] == Restarted(d, defs)[id]
      {
        var i := DefinedAt(defs, |defs|, id);
      }
    }
  }

  lemma {:induction false} MissingPrefix(m: map<Word16, Word16>, defs: seq<Cell>, n: nat, j: nat)
    requires j <= n <= |defs| && Defined(defs, n) <= m.Keys
    ensures Missing(m, defs, j) == 0
  {
    if j > 0 { MissingPrefix(m, defs, n, j - 1); }
  }

  lemma {:induction false} NotDefined(defs: seq<Cell>, n: nat, j: nat)
    requires GoodIds(Params(defs)) && n <= j < |defs|
    ensures defs[j].param !in Defined(defs, n)
  {
    if n > 0 {
      NotDefined(defs, n - 1, j);
      assert Params(defs)[n - 1] != Params(defs)[j];
    }
  }

  lemma {:induction false} MissingRest(m: map<Word16, Word16>, l: map<Word16, Word16>, defs: seq<Cell>, n: nat, j: nat)
    requires GoodIds(Params(defs)) && n <= j <= |defs| && l.Keys == m.Keys + Defined(defs, n)
    ensures Missing(l, defs, j) == Missing(m, defs, j) - Missing(m, defs, n)
    decreases j
  {
    if j > n {
      MissingRest(m, l, defs, n, j - 1);
      NotDefined(defs, n, j - 1);
    } else {
      MissingPrefix(l, defs, n, n);
    }
  }

  /** A section that holds what a restart of `d` finds for the first `n` parameters, and nothing else. */
  ghost predicate FirstOnly(d: Disk, defs: seq<Cell>, n: nat, e: Disk)
    requires d.Disk? && n <= |defs|
  {
    && e.Disk? && e.used == n && e.stored.Keys == Defined(defs, n)
    && forall i :: 0 <= i < n ==> e.stored[defs[i].param] == Loaded(d, defs, i)
  }

  lemma FirstOnlyLoaded(d: Disk, defs: seq<Cell>, n: nat, e: Disk)
    requires d.Disk? && n <= |defs| && GoodIds(Params(defs)) && FirstOnly(d, defs, n, e)
    ensures forall i :: 0 <= i < |defs| ==> Loaded(e, defs, i) == if i < n then Loaded(d, defs, i) else defs[i].value
  {
    assert |defs| <= MAX_PARAM_ITEM;
    forall i | 0 <= i < |defs|
      ensures Loaded(e, defs, i) == if i < n then Loaded(d, defs, i) else defs[i].value
    {
      if i < n {
        MissingPrefix(e.stored, defs, n, i + 1);
      } else {
        NotDefined(defs, n, i);
      }
    }
  }

  lemma FirstOnlyIs(d: Disk, defs: seq<Cell>, n: nat, e: Disk)
    requires d.Disk? && n <= |defs| && e.Disk? && e.used == n && e.stored.Keys == Defined(defs, n)
    requires forall i :: 0 <= i < n ==> e.stored[defs[i].param] == Loaded(d, defs, i)
    ensures FirstOnly(d, defs, n, e)
  {
  }

  lemma LoadedAfter(d: Disk, defs: seq<Cell>, n: nat, i: nat)
    requires d.Disk? && n <= i < |defs| && !Fits(d, defs, n)
    ensures Loaded(d, defs, i) == defs[i].value
  {
    if Fits(d, defs, i + 1) { FitsBefore(d, defs, n, i + 1); }
  }

  /** What has been appended counts no more as missing. */
  lemma FitsLoaded(d: Disk, defs: seq<Cell>, n: nat, e: Disk, i: nat)
    requires d.Disk? && e.Disk? && GoodIds(Params(defs)) && n <= |defs| && i < |defs| && Fits(d, defs, n)
    requires e.used == d.used + Missing(d.stored, defs, n) && e.stored.Keys == d.stored.Keys + Defined(defs, n)
    requires forall id :: id in d.stored ==> e.stored[id] == d.stored[id]
    requires forall j :: 0 <= j < n && defs[j].param !in d.stored ==> e.stored[defs[j].param] == defs[j].value
    ensures Loaded(e, defs, i) == Loaded(d, defs, i)
  {
    hide Params, GoodIds;
    if i < n {
      MissingPrefix(e.stored, defs, n, i + 1);
      LoadedBefore(d, defs, i, n);
    } else {
      MissingRest(d.stored, e.stored, defs, n, i + 1);
      NotDefined(defs, n, i);
    }
  }

  /** Between two definitions start-up has changed nothing that a restart would find. */
  lemma BoundarySame(d: Disk, defs: seq<Cell>, n: nat)
    requires d.Disk? && GoodIds(Params(defs)) && d.used < SECTION_SIZE && n <= |defs|
    ensures SameLoaded(d, Started(d, defs, n), defs)
  {
    hide Started, Params, GoodIds, Fits, Missing, Loaded, FirstOnly;
    if Fits(d, defs, n) {
      StartedFits(d, defs, n);
      forall i | 0 <= i < |defs|
        ensures Loaded(Started(d, defs, n), defs, i) == Loaded(d, defs, i)
      {
        FitsLoaded(d, defs, n, Started(d, defs, n), i);
      }
    } else {
      StartedSwapped(d, defs, n);
      FirstOnlyIs(d, defs, n, Started(d, defs, n));
      FirstOnlyLoaded(d, defs, n, Started(d, defs, n));
      forall i | n <= i < |defs|
        ensures Loaded(d, defs, i) == defs[i].value
      {
        LoadedAfter(d, defs, n, i);
      }
    }
  }

  /** Every state of a part of start-up finds the same values as `d` after a restart. */
  ghost predicate AllSame(d: Disk, trace: seq<Disk>, defs: seq<Cell>)
    requires d.Disk?
  {
    forall k :: 0 <= k < |trace| ==>
      Sound(trace[k], Params(defs)) && SameLoaded(d, Opened(trace[k]), defs)
  }

  /** Start-up does not lose anything in the swap from High because there are only defaults. */
  predicate OnlyDefaults(d: Disk, defs: seq<Cell>)
    requires d.Disk?
  {
    forall i :: 0 <= i < |defs| ==> Loaded(d, defs, i) == defs[i].value
  }

  lemma FirstOnlySound(d: Disk, defs: seq<Cell>, n: nat, e: Disk)
    requires d.Disk? && n <= |defs| && GoodIds(Params(defs)) && FirstOnly(d, defs, n, e)
    ensures Sound(e, Params(defs))
  {
    hide Loaded;
    DefinedPrefix(defs, n);
  }

  lemma LoadedPast(d: Disk, defs: seq<Cell>, n: nat, i: nat)
    requires d.Disk? && n <= i < |defs| && !Fits(d, defs, n + 1)
    ensures Loaded(d, defs, i) == defs[i].value
  {
    if Fits(d, defs, i + 1) { FitsBefore(d, defs, n + 1, i + 1); }
  }

  lemma FirstOnlySame(d: Disk, defs: seq<Cell>, n: nat, e: Disk)
    requires d.Disk? && n <= |defs| && GoodIds(Params(defs)) && FirstOnly(d, defs, n, e)
    requires OnlyDefaults(d, defs) || (n < |defs| && !Fits(d, defs, n + 1))
    ensures Sound(e, Params(defs)) && SameLoaded(d, e, defs)
  {
    FirstOnlySound(d, defs, n, e);
    hide Params, GoodIds, Fits, FirstOnly, Sound, Loaded;
    FirstOnlyLoaded(d, defs, n, e);
    forall i | n <= i < |defs|
      ensures Loaded(d, defs, i) == defs[i].value
    {
      if !OnlyDefaults(d, defs) { LoadedPast(d, defs, n, i); }
    }
  }

  lemma StartedSound(d: Disk, defs: seq<Cell>, n: nat)
    requires d.Disk? && d.used < SECTION_SIZE && GoodIds(Params(defs)) && Sound(d, Params(defs)) && n <= |defs|
    ensures Sound(Started(d, defs, n), Params(defs)) && Started(d, defs, n).used < SECTION_SIZE
    ensures n < |defs| && defs[n].param !in Started(d, defs, n).stored ==>
      (Started(d, defs, n).used == SECTION_SIZE - 1 <==> Fits(d, defs, n) && !Fits(d, defs, n + 1))
  {
    assert |defs| <= MAX_PARAM_ITEM;
    hide Started;
    DefinedPrefix(defs, n);
    if Fits(d, defs, n) { StartedFits(d, defs, n); } else { StartedSwapped(d, defs, n); }
  }

  lemma SwapOnly(was: Disk, keep: seq<Word16>, def: Cell)
    requires was.Disk? && was.used == SECTION_SIZE - 1 && def.param !in was.stored
    ensures LocateTrace(was, keep, def) == SwapTrace(was, keep, def)
  {
    hide SwapTrace;
    assert was.(stored := was.stored - {def.param}) == was;
  }

  /** The states of the swap inside start-up, at definition `n`. */
  lemma StartSwapShape(was: Disk, defs: seq<Cell>, n: nat, trace: seq<Disk>)
    requires was.Disk? && n < |defs| && was.used == SECTION_SIZE - 1 && defs[n].param !in was.stored
    requires trace == LocateTrace(was, Params(defs)[..n], defs[n])
    ensures |trace| == n + 4 && trace[0] == was
    ensures trace[n + 2] == Disk(was.section.Other(), Restrict(was.stored, Params(defs)[..n]), n)
    ensures trace[n + 3] == Last(was, trace)
    ensures forall k :: 1 <= k < n + 2 ==>
      trace[k] == if was.section.Low? then was else Disk(Low, Restrict(was.stored, Params(defs)[..k - 1]), k - 1)
  {
    hide Restrict, Params, SwapTrace;
    var keep := Params(defs)[..n];
    SwapOnly(was, keep, defs[n]);
    SwapStates(was, keep, defs[n]);
    hide LocateTrace, PutTrace;
    assert forall c :: 0 <= c <= n ==> keep[..c] == Params(defs)[..c];
  }

  lemma {:induction false} DefinedGrows(defs: seq<Cell>, c: nat, n: nat)
    requires c <= n <= |defs|
    ensures Defined(defs, c) <= Defined(defs, n)
    decreases n
  {
    if c < n { DefinedGrows(defs, c, n - 1); }
  }

  /** What has been copied of a section that start-up has gone through up to definition `n`. */
  lemma CopiedFirst(d: Disk, defs: seq<Cell>, n: nat, c: nat, s: Section)
    requires d.Disk? && GoodIds(Params(defs)) && c <= n <= |defs| && Fits(d, defs, n)
    ensures FirstOnly(d, defs, c, Disk(s, Restrict(Started(d, defs, n).stored, Params(defs)[..c]), c))
  {
    hide Started, GoodIds, Params, Restrict, Fits, Loaded;
    var was := Started(d, defs, n);
    StartedFits(d, defs, n);
    DefinedGrows(defs, c, n);
    RestrictDefined(was.stored, defs, c);
    forall i | 0 <= i < c
      ensures was.stored[defs[i].param] == Loaded(d, defs, i)
    {
      LoadedBefore(d, defs, i, n);
    }
  }

  lemma SwapSame(d: Disk, defs: seq<Cell>, n: nat)
    requires d.Disk? && d.used < SECTION_SIZE && GoodIds(Params(defs)) && Sound(d, Params(defs)) && n < |defs|
    requires Fits(d, defs, n) && !Fits(d, defs, n + 1) && (d.section.Low? || OnlyDefaults(d, defs))
    requires defs[n].param !in Started(d, defs, n).stored
    ensures AllSame(d, LocateTrace(Started(d, defs, n), Params(defs)[..n], defs[n]), defs)
  {
    hide Started, GoodIds, Params, SameLoaded, Fits, OnlyDefaults, Restrict, LocateTrace, FirstOnly, Sound;
    var was := Started(d, defs, n);
    var trace := LocateTrace(was, Params(defs)[..n], defs[n]);
    StartedSound(d, defs, n);
    StartedSound(d, defs, n + 1);
    StartedLast(d, defs, n);
    StartSwapShape(was, defs, n, trace);
    StartedFits(d, defs, n);
    BoundarySame(d, defs, n);
    BoundarySame(d, defs, n + 1);
    CopiedFirst(d, defs, n, n, d.section.Other());
    FirstOnlySame(d, defs, n, trace[n + 2]);
    if d.section.High? {
      forall k | 1 <= k < n + 2
        ensures Sound(trace[k], Params(defs)) && SameLoaded(d, trace[k], defs)
      {
        CopiedFirst(d, defs, n, k - 1, Low);
        FirstOnlySame(d, defs, k - 1, trace[k]);
      }
    }
  }

  lemma AddShape(was: Disk, keep: seq<Word16>, def: Cell)
    requires was.Disk? && def.param !in was.stored && was.used < SECTION_SIZE - 1
    ensures var trace := LocateTrace(was, keep, def); trace == [Last(was, trace)]
  {
  }

  lemma LocateSame(d: Disk, defs: seq<Cell>, n: nat)
    requires d.Disk? && d.used < SECTION_SIZE && GoodIds(Params(defs)) && Sound(d, Params(defs)) && n < |defs|
    requires Fits(d, defs, |defs|) || d.section.Low? || OnlyDefaults(d, defs)
    ensures AllSame(d, LocateTrace(Started(d, defs, n), Params(defs)[..n], defs[n]), defs)
  {
    hide Started, GoodIds, Params, SameLoaded, Fits, OnlyDefaults, Sound, PutTrace;
    var was := Started(d, defs, n);
    StartedSound(d, defs, n);
    StartedSound(d, defs, n + 1);
    if defs[n].param !in was.stored {
      if Fits(d, defs, n) && !Fits(d, defs, n + 1) {
        if Fits(d, defs, |defs|) { FitsBefore(d, defs, n + 1, |defs|); }
        SwapSame(d, defs, n);
      } else {
        BoundarySame(d, defs, n + 1);
        StartedLast(d, defs, n);
        AddShape(was, Params(defs)[..n], defs[n]);
      }
    }
  }

  lemma BeginSame(d: Disk, defs: seq<Cell>)
    requires d.Disk?
    ensures AllSame(d, StartTrace(d, defs, 0), defs)
  {
  }

  lemma SameJoin(d: Disk, a: seq<Disk>, b: seq<Disk>, defs: seq<Cell>)
    requires d.Disk? && AllSame(d, a, defs) && AllSame(d, b, defs)
    ensures AllSame(d, a + b, defs)
  {
    hide Sound, SameLoaded;
  }

  lemma {:induction false} StartSame(d: Disk, defs: seq<Cell>, n: nat)
    requires d.Disk? && d.used < SECTION_SIZE && GoodIds(Params(defs)) && Sound(d, Params(defs)) && n <= |defs|
    requires Fits(d, defs, |defs|) || d.section.Low? || OnlyDefaults(d, defs)
    ensures AllSame(d, StartTrace(d, defs, n), defs)
  {
    hide *;
    if n == 0 {
      BeginSame(d, defs);
    } else {
      StartSame(d, defs, n - 1);
      LocateSame(d, defs, n - 1);
      StartedLast(d, defs, n - 1);
      SameJoin(d, StartTrace(d, defs, n - 1),
               LocateTrace(Started(d, defs, n - 1), Params(defs)[..n - 1], defs[n - 1]), defs);
    }
  }

  lemma {:induction false} StartTraceGrows(d: Disk, defs: seq<Cell>, n: nat, m: nat)
    requires n <= m <= |defs|
    ensures StartTrace(d, defs, n) <= StartTrace(d, defs, m)
    decreases m
  {
    hide LocateTrace, Started;
    if n < m {
      StartTraceGrows(d, defs, n, m - 1);
      StartedLast(d, defs, m - 1);
      hide StartTrace;
    }
  }

  lemma {:induction false} SwapPoint(d: Disk, defs: seq<Cell>, m: nat) returns (n: nat)
    requires d.Disk? && d.used < SECTION_SIZE && m <= |defs| && !Fits(d, defs, m)
    ensures n < m && Fits(d, defs, n) && !Fits(d, defs, n + 1)
  {
    if Fits(d, defs, m - 1) { n := m - 1; } else { n := SwapPoint(d, defs, m - 1); }
  }

  /** A start-up that swaps from High exposes an empty Low section. */
  lemma StartExposes(d: Disk, defs: seq<Cell>) returns (k: nat)
    requires d.Disk? && d.used < SECTION_SIZE && GoodIds(Params(defs)) && Sound(d, Params(defs))
    requires !Fits(d, defs, |defs|) && d.section.High?
    ensures k < |StartTrace(d, defs, |defs|)| && StartTrace(d, defs, |defs|)[k] == Disk(Low, map[], 0)
  {
    hide Started, GoodIds, Params, Fits, Sound, LocateTrace, Restrict;
    var n := SwapPoint(d, defs, |defs|);
    var was, before := Started(d, defs, n), StartTrace(d, defs, n);
    StartedSound(d, defs, n);
    StartedFits(d, defs, n);
    NotFits(d, defs, n);
    NotDefined(defs, n, n);
    StartSwapShape(was, defs, n, LocateTrace(was, Params(defs)[..n], defs[n]));
    StartedLast(d, defs, n);
    StartTraceGrows(d, defs, n + 1, |defs|);
    hide StartTrace;
    k := |before| + 1;
    assert StartTrace(d, defs, n + 1)[k] == LocateTrace(was, Params(defs)[..n], defs[n])[1];
    assert Restrict(was.stored, Params(defs)[..0]) == map[];
  }

  lemma {:induction false} BlankTrace(defs: seq<Cell>, n: nat)
    requires n <= |defs|
    ensures StartTrace(Blank, defs, n) == [Blank, Opened(Blank)] + StartTrace(Opened(Blank), defs, n)
  {
    hide LocateTrace, Started;
    if n > 0 {
      BlankTrace(defs, n - 1);
      StartedBlank(defs, n - 1);
      StartedLast(Blank, defs, n - 1);
      StartedLast(Opened(Blank), defs, n - 1);
      hide StartTrace;
    }
  }

  lemma TraceSame(d: Disk, defs: seq<Cell>)
    requires GoodIds(Params(defs)) && Sound(d, Params(defs))
    requires var x := Opened(d); Fits(x, defs, |defs|) || x.section.Low? || OnlyDefaults(x, defs)
    ensures AllSame(Opened(d), StartTrace(d, defs, |defs|), defs)
  {
    hide GoodIds, Params, Fits, StartTrace, OnlyDefaults;
    StartSame(Opened(d), defs, |defs|);
    if d.Blank? { BlankTrace(defs, |defs|); }
  }

  lemma EmptyLoaded(d: Disk, defs: seq<Cell>)
    requires d.Disk?
    ensures Sound(Disk(Low, map[], 0), Params(defs))
    ensures SameLoaded(d, Disk(Low, map[], 0), defs) ==> OnlyDefaults(d, defs)
  {
  }

  /** Power lost between any two writes of start-up: starting again with the same definitions finds the same values
      exactly if start-up does not swap, or swaps from Low, or there are only defaults anyway. */
  lemma CutStart(d: Disk, defs: seq<Cell>)
    requires GoodIds(Params(defs)) && Sound(d, Params(defs))
    ensures var t, x := StartTrace(d, defs, |defs|), Opened(d);
      (forall k :: 0 <= k < |t| ==> Restarted(t[k], defs) == Restarted(d, defs))
      <==> Fits(x, defs, |defs|) || x.section.Low? || OnlyDefaults(x, defs)
  {
    hide GoodIds, Params, Restarted, SameLoaded, Fits, StartTrace, OnlyDefaults, Sound, Loaded;
    var t, x := StartTrace(d, defs, |defs|), Opened(d);
    OpenedSound(d, defs);
    if Fits(x, defs, |defs|) || x.section.Low? || OnlyDefaults(x, defs) {
      TraceSame(d, defs);
      forall k | 0 <= k < |t|
        ensures Restarted(t[k], defs) == Restarted(d, defs)
      {
        SameRestart(d, t[k], defs);
      }
    } else {
      var k := StartExposes(x, defs);
      EmptyLoaded(x, defs);
      SameRestart(d, t[k], defs);
    }
  }

  // ----- runs with power losses ---------------------------------------------------------------

  /** An update or a start-up; `cut` is the number of writes after which power is lost, if it is. */
  datatype Event =
    | Set(param: Word16, value: Word16, cut: Option<nat>)
    | Start(defs: seq<Cell>, cut: Option<nat>)

  /** The flash, and whether the firmware runs; after a power loss only a start-up helps. */
  datatype Device = Device(disk: Disk, on: bool)

  function Performed(d: Disk, trace: seq<Disk>, cut: Option<nat>): Device {
    if cut.Some? then Device(AfterWrites(d, trace, cut.value), false) else Device(Last(d, trace), true)
  }

  /** The update finds the parameter; without one it writes nothing. */
  predicate Effective(v: Device, ids: seq<Word16>, e: Event) {
    e.Set? && v.on && v.disk.Disk? && e.param in ids
  }

  function Next(v: Device, ids: seq<Word16>, e: Event): Device {
    if e.Start? then Performed(v.disk, StartTrace(v.disk, e.defs, |e.defs|), e.cut)
    else if Effective(v, ids, e) then Performed(v.disk, UpdateTrace(v.disk, ids, IndexOf(ids, e.param), e.value), e.cut)
    else Device(v.disk, v.on && e.cut.None?)
  }

  function Run(v: Device, ids: seq<Word16>, events: seq<Event>): Device {
    if events == [] then v else Next(Run(v, ids, events[..|events| - 1]), ids, events[|events| - 1])
  }

  /** While the firmware runs, all parameters are stored. */
  ghost predicate Proper(v: Device, ids: seq<Word16>) {
    GoodIds(ids) && Sound(v.disk, ids) && (v.on ==> Complete(v.disk, ids))
  }

  /** Every state of a trace is sound. */
  ghost predicate AllSound(trace: seq<Disk>, ids: seq<Word16>) {
    forall k :: 0 <= k < |trace| ==> Sound(trace[k], ids)
  }

  lemma SwapSound(d: Disk, keep: seq<Word16>, entry: Cell, ids: seq<Word16>)
    requires d.Disk? && Sound(d, ids) && |keep| < MAX_PARAM_ITEM && entry.param in ids
    ensures AllSound(SwapTrace(d, keep, entry), ids)
  {
  }

  lemma PutSound(d: Disk, keep: seq<Word16>, entry: Cell, ids: seq<Word16>)
    requires d.Disk? && Sound(d, ids) && |keep| < MAX_PARAM_ITEM && entry.param in ids
    ensures AllSound(PutTrace(d, keep, entry), ids)
  {
    var zeroed := d.(stored := d.stored - {entry.param});
    assert Sound(zeroed, ids);
    if d.used >= SECTION_SIZE - 1 {
      SwapSound(zeroed, keep, entry, ids);
    }
  }

  lemma BeginSound(d: Disk, defs: seq<Cell>)
    requires Sound(d, Params(defs))
    ensures AllSound(StartTrace(d, defs, 0), Params(defs)) && Sound(Started(d, defs, 0), Params(defs))
  {
  }

  lemma LocateSound(d: Disk, before: seq<Disk>, defs: seq<Cell>, n: nat)
    requires d.Disk? && n < |defs| && GoodIds(Params(defs)) && Sound(d, Params(defs)) && AllSound(before, Params(defs))
    ensures var step := LocateTrace(d, Params(defs)[..n], defs[n]);
      AllSound(before + step, Params(defs)) && Sound(Last(d, step), Params(defs))
  {
    hide PutTrace, Sound;
    assert Params(defs)[n] == defs[n].param && |defs| <= MAX_PARAM_ITEM;
    PutSound(d, Params(defs)[..n], defs[n], Params(defs));
  }

  lemma {:induction false} StartSound(d: Disk, defs: seq<Cell>, n: nat)
    requires GoodIds(Params(defs)) && Sound(d, Params(defs)) && n <= |defs|
    ensures AllSound(StartTrace(d, defs, n), Params(defs)) && Sound(Started(d, defs, n), Params(defs))
  {
    hide *;
    if n == 0 {
      BeginSound(d, defs);
    } else {
      StartSound(d, defs, n - 1);
      StartedLast(d, defs, n - 1);
      LocateSound(Started(d, defs, n - 1), StartTrace(d, defs, n - 1), defs, n - 1);
    }
  }

  lemma RestrictMinus(m: map<Word16, Word16>, keep: seq<Word16>, id: Word16)
    requires id !in keep
    ensures Restrict(m - {id}, keep) == Restrict(m, keep)
  {
  }

  lemma CompleteHas(d: Disk, ids: seq<Word16>, z: nat)
    requires GoodIds(ids) && z < |ids| && Complete(d, ids)
    ensures d.Disk? && d.used < SECTION_SIZE && ids[z] in d.stored && Sound(d, ids) && |ids| <= MAX_PARAM_ITEM
  {
  }

  lemma CompleteSet(d: Disk, ids: seq<Word16>, z: nat, value: Word16, s: Section, used: nat)
    requires z < |ids| && Complete(d, ids) && used < SECTION_SIZE
    ensures Complete(Disk(s, d.stored[ids[z] := value], used), ids)
  {
  }

  lemma MinusSet(m: map<Word16, Word16>, id: Word16, value: Word16)
    ensures (m - {id})[id := value] == m[id := value]
  {
  }

  /** A completed update changes the stored map at one key. */
  lemma UpdateComplete(d: Disk, ids: seq<Word16>, z: nat, value: Word16)
    requires GoodIds(ids) && z < |ids| && Complete(d, ids)
    ensures var e := Last(d, UpdateTrace(d, ids, z, value));
      && Complete(e, ids) && e.stored == d.stored[ids[z] := value]
      && e.used == (if d.used < SECTION_SIZE - 1 then d.used + 1 else |ids|)
      && e.section == (if d.used < SECTION_SIZE - 1 then d.section else d.section.Other())
    ensures AllSound(UpdateTrace(d, ids, z, value), ids)
  {
    hide PutTrace, Restrict, AllSound, GoodIds, Complete, Others, Sound;
    OthersIn(ids, z);
    CompleteHas(d, ids, z);
    PutLast(d, Others(ids, z), Cell(ids[z], value));
    PutSound(d, Others(ids, z), Cell(ids[z], value), ids);
    if d.used < SECTION_SIZE - 1 {
      CompleteSet(d, ids, z, value, d.section, d.used + 1);
    } else {
      CopiedMap(d, ids, z);
      RestrictMinus(d.stored, Others(ids, z), ids[z]);
      MinusSet(d.stored, ids[z], value);
      CompleteSet(d, ids, z, value, d.section.Other(), |ids|);
    }
  }

  lemma StartEnd(d: Disk, defs: seq<Cell>)
    ensures Last(d, StartTrace(d, defs, |defs|)) == Started(d, defs, |defs|)
  {
    if d.Blank? { BlankTrace(defs, |defs|); }
  }

  lemma StartComplete(d: Disk, defs: seq<Cell>)
    requires GoodIds(Params(defs)) && Sound(d, Params(defs))
    ensures Complete(Last(d, StartTrace(d, defs, |defs|)), Params(defs))
    ensures Last(d, StartTrace(d, defs, |defs|)) == Started(d, defs, |defs|)
  {
    hide StartTrace;
    StartSound(d, defs, |defs|);
    RestartExact(d, defs);
    DefinedAll(defs);
    StartEnd(d, defs);
  }

  lemma NextProper(v: Device, ids: seq<Word16>, e: Event)
    requires Proper(v, ids) && (e.Start? ==> Params(e.defs) == ids)
    ensures Proper(Next(v, ids, e), ids)
  {
    hide StartTrace, UpdateTrace, Started;
    match e {
      case Set(param, value, cut) =>
        if Effective(v, ids, e) { UpdateComplete(v.disk, ids, IndexOf(ids, param), value); }
      case Start(defs, cut) =>
        StartSound(v.disk, defs, |defs|);
        StartComplete(v.disk, defs);
    }
  }

  /** Power is not lost during this event, or only where nothing but the parameter being set can be lost: the
      conditions of CutUpdate and CutStart. */
  predicate HarmlessCut(v: Device, ids: seq<Word16>, e: Event) {
    e.cut.None? ||
    match e
    case Set(param, _, _) =>
      Effective(v, ids, e) ==>
        v.disk.used < SECTION_SIZE - 1 || |ids| == 1 || (v.disk.section.Low? && param == ids[|ids| - 1])
    case Start(defs, _) =>
      var x := Opened(v.disk);
      Fits(x, defs, |defs|) || x.section.Low? || OnlyDefaults(x, defs)
  }

  /** What a restart finds for `ids[z]` when power fails after `k` writes of its update: the old value before the first
      write, the new one after the last, and in between the default, because the old entry is zeroed first. */
  function CutValue(d: Disk, ids: seq<Word16>, defs: seq<Cell>, z: nat, value: Word16, k: nat): Word16
    requires d.Disk? && z < |ids| == |defs| && ids[z] in d.stored
  {
    if k == 0 then d.stored[ids[z]]
    else if k < |UpdateTrace(d, ids, z, value)| then defs[z].value
    else value
  }

  /** What an update that has written at least one word leaves. */
  function Outcome(d: Disk, ids: seq<Word16>, defs: seq<Cell>, e: Event, id: Word16): Word16
    requires d.Disk? && |defs| == |ids| && e.Set? && id in ids
  {
    var z := IndexOf(ids, id);
    if e.cut.Some? && e.cut.value < |UpdateTrace(d, ids, z, e.value)| then defs[z].value else e.value
  }

  /** The value of `id` after a run that starts with `init`: what the last update of it has left, whether it was cut
      short or not. */
  function ValueAfter(v: Device, ids: seq<Word16>, defs: seq<Cell>, events: seq<Event>, id: Word16,
                      init: Word16): Word16
    requires |defs| == |ids|
  {
    if events == [] then init else
      var before, e := events[..|events| - 1], events[|events| - 1];
      var t := Run(v, ids, before);
      if !Effective(t, ids, e) || e.param != id || e.cut == Some(0) then ValueAfter(v, ids, defs, before, id, init)
      else Outcome(t.disk, ids, defs, e, id)
  }

  lemma RestartComplete(d: Disk, defs: seq<Cell>)
    requires GoodIds(Params(defs)) && Complete(d, Params(defs))
    ensures Restarted(d, defs) == d.stored
  {
    hide Restarted;
    RestartExact(d, defs);
    DefinedAll(defs);
    forall id | id in d.stored
      ensures Restarted(d, defs)[id] == d.stored[id]
    {
      var i := DefinedAt(defs, |defs|, id);
      MissingPrefix(d.stored, defs, |defs|, i + 1);
    }
  }

  lemma RestartStarted(d: Disk, defs: seq<Cell>)
    requires GoodIds(Params(defs)) && Sound(d, Params(defs))
    ensures Restarted(Started(d, defs, |defs|), defs) == Restarted(d, defs)
  {
    StartComplete(d, defs);
    hide Started, StartTrace;
    RestartComplete(Started(d, defs, |defs|), defs);
  }

  lemma RestartHas(d: Disk, defs: seq<Cell>, id: Word16)
    requires GoodIds(Params(defs)) && Sound(d, Params(defs)) && id in Params(defs)
    ensures id in Restarted(d, defs)
  {
    hide Restarted;
    RestartExact(d, defs);
    DefinedAll(defs);
  }

  lemma LastIndex(ids: seq<Word16>, z: nat)
    requires GoodIds(ids) && z < |ids|
    ensures ids[z] == ids[|ids| - 1] <==> z == |ids| - 1
  {
  }

  lemma KeptAfter(d: Disk, trace: seq<Disk>, k: nat, ids: seq<Word16>, z: nat, defs: seq<Cell>, id: Word16)
    requires GoodIds(ids) && z < |ids| && Complete(d, ids) && Params(defs) == ids && id in ids && id != ids[z]
    requires forall j :: 0 <= j < |trace| ==> KeepsOthers(trace[j], ids, z, d.stored)
    ensures var r := Restarted(AfterWrites(d, trace, k), defs); id in r && r[id] == d.stored[id]
  {
    hide Restarted;
    RestartComplete(d, defs);
    var x := AfterWrites(d, trace, k);
    if x != d {
      assert KeepsOthers(x, ids, z, d.stored);
      var r := Restarted(x, defs);
      assert id in d.stored - {ids[z]} && r - {ids[z]} == d.stored - {ids[z]};
      assert id in r - {ids[z]} && (r - {ids[z]})[id] == d.stored[id];
    }
  }

  /** Until the last write of its update a parameter has no entry. */
  lemma OwnAbsent(d: Disk, ids: seq<Word16>, z: nat, value: Word16)
    requires GoodIds(ids) && z < |ids| && Complete(d, ids)
    ensures var t := UpdateTrace(d, ids, z, value);
      forall j :: 0 <= j < |t| - 1 ==> t[j].Disk? && ids[z] !in t[j].stored
  {
    hide UpdateTrace, Restrict, Others, GoodIds;
    var t := UpdateTrace(d, ids, z, value);
    if d.used < SECTION_SIZE - 1 {
      AppendShape(d, ids, z, value);
    } else {
      SwapShape(d, ids, z, value);
      forall j | 0 <= j < |t| - 1
        ensures t[j].Disk? && ids[z] !in t[j].stored
      {
        assert j < 2 || j == |ids| + 2 || 2 <= j < |ids| + 2;
      }
    }
  }

  lemma AbsentDefault(d: Disk, defs: seq<Cell>, z: nat)
    requires GoodIds(Params(defs)) && Sound(d, Params(defs)) && z < |defs| && d.Disk? && defs[z].param !in d.stored
    ensures defs[z].param in Restarted(d, defs) && Restarted(d, defs)[defs[z].param] == defs[z].value
  {
    hide Restarted, Fits;
    RestartExact(d, defs);
  }

  /** The exact law for the parameter being updated. */
  lemma CutOwn(d: Disk, ids: seq<Word16>, defs: seq<Cell>, z: nat, value: Word16, k: nat)
    requires GoodIds(ids) && z < |ids| && Complete(d, ids) && Params(defs) == ids
    ensures var x := AfterWrites(d, UpdateTrace(d, ids, z, value), k);
      ids[z] in Restarted(x, defs) && Restarted(x, defs)[ids[z]] == CutValue(d, ids, defs, z, value, k)
  {
    hide Restarted, UpdateTrace, Complete, Sound, GoodIds, Params;
    CompleteHas(d, ids, z);
    var t := UpdateTrace(d, ids, z, value);
    UpdateComplete(d, ids, z, value);
    if k == 0 {
      RestartComplete(d, defs);
    } else if k < |t| {
      OwnAbsent(d, ids, z, value);
      AbsentDefault(t[k - 1], defs, z);
    } else {
      RestartComplete(Last(d, t), defs);
    }
  }

  /** The smallest case: one parameter, and power fails between the two writes of an update from 10 to 11. */
  lemma OwnValueLost()
    ensures var d, ids, defs := Disk(Low, map[1 := 10], 1), [1], [Cell(1, 0)];
      var x := AfterWrites(d, UpdateTrace(d, ids, 0, 11), 1);
      1 in Restarted(x, defs) && Restarted(x, defs)[1] == 0
  {
    var d, ids, defs := Disk(Low, map[1 := 10], 1), [1], [Cell(1, 0)];
    assert Params(defs) == ids;
    hide Restarted;
    CutOwn(d, ids, defs, 0, 11, 1);
  }

  lemma SetStep(v: Device, ids: seq<Word16>, e: Event, defs: seq<Cell>, id: Word16)
    requires Proper(v, ids) && Params(defs) == ids && id in ids && Effective(v, ids, e)
    requires HarmlessCut(v, ids, e) || e.param == id
    ensures id in Restarted(v.disk, defs) && id in Restarted(Next(v, ids, e).disk, defs)
    ensures Restarted(Next(v, ids, e).disk, defs)[id] ==
      if e.param != id || e.cut == Some(0) then Restarted(v.disk, defs)[id] else Outcome(v.disk, ids, defs, e, id)
  {
    hide Restarted, UpdateTrace, KeepsOthers, StoresOthers;
    var z := IndexOf(ids, e.param);
    RestartComplete(v.disk, defs);
    UpdateComplete(v.disk, ids, z, e.value);
    RestartComplete(Last(v.disk, UpdateTrace(v.disk, ids, z, e.value)), defs);
    if e.cut.Some? {
      if e.param == id {
        CutOwn(v.disk, ids, defs, z, e.value, e.cut.value);
      } else {
        LastIndex(ids, z);
        CutUpdate(v.disk, ids, z, e.value);
        KeptAfter(v.disk, UpdateTrace(v.disk, ids, z, e.value), e.cut.value, ids, z, defs, id);
      }
    }
  }

  /** What one event does to the value a restart would find for a parameter. */
  lemma HarmlessStep(v: Device, ids: seq<Word16>, e: Event, defs: seq<Cell>, id: Word16)
    requires Proper(v, ids) && Params(defs) == ids && (e.Start? ==> e.defs == defs) && id in ids
    requires HarmlessCut(v, ids, e) || (e.Set? && e.param == id)
    ensures id in Restarted(v.disk, defs) && id in Restarted(Next(v, ids, e).disk, defs)
    ensures Restarted(Next(v, ids, e).disk, defs)[id] ==
      if !Effective(v, ids, e) || e.param != id || e.cut == Some(0) then Restarted(v.disk, defs)[id]
      else Outcome(v.disk, ids, defs, e, id)
  {
    hide Restarted, StartTrace, UpdateTrace, Started, Complete, Sound, GoodIds, Fits, OnlyDefaults, Outcome;
    RestartHas(v.disk, defs, id);
    NextProper(v, ids, e);
    RestartHas(Next(v, ids, e).disk, defs, id);
    if e.Start? {
      RestartStarted(v.disk, defs);
      StartEnd(v.disk, defs);
      CutStart(v.disk, defs);
    } else if Effective(v, ids, e) {
      SetStep(v, ids, e, defs, id);
    }
  }

  lemma ProperHas(v: Device, ids: seq<Word16>, defs: seq<Cell>, id: Word16)
    requires Proper(v, ids) && Params(defs) == ids && id in ids
    ensures id in Restarted(v.disk, defs)
  {
    hide Restarted;
    RestartHas(v.disk, defs, id);
  }

  lemma EffectiveSet(v: Device, ids: seq<Word16>, e: Event)
    ensures Effective(v, ids, e) ==> e.Set? && v.disk.Disk? && e.param in ids
  {
  }

  /** Over any run of updates and start-ups with power lost between any two writes: `id` has the value that the last
      update of it has left, completed or cut short, as long as every other event is cut short only harmlessly. */
  lemma {:induction false} SurvivesPowerLoss(v: Device, ids: seq<Word16>, events: seq<Event>, defs: seq<Cell>,
                                             id: Word16)
    requires Proper(v, ids) && Params(defs) == ids && id in ids
    requires forall n :: 0 <= n < |events| ==>
      && (events[n].Start? ==> events[n].defs == defs)
      && (HarmlessCut(Run(v, ids, events[..n]), ids, events[n]) || (events[n].Set? && events[n].param == id))
    ensures Proper(Run(v, ids, events), ids)
    ensures id in Restarted(v.disk, defs) && id in Restarted(Run(v, ids, events).disk, defs)
    ensures Restarted(Run(v, ids, events).disk, defs)[id]
      == ValueAfter(v, ids, defs, events, id, Restarted(v.disk, defs)[id])
    decreases |events|
  {
    hide Restarted, HarmlessCut, Next, Proper, Effective, Outcome;
    if events == [] {
      ProperHas(v, ids, defs, id);
    } else {
      var before, e := events[..|events| - 1], events[|events| - 1];
      forall n | 0 <= n < |before|
        ensures before[..n] == events[..n] && before[n] == events[n]
      {
      }
      SurvivesPowerLoss(v, ids, before, defs, id);
      NextProper(Run(v, ids, before), ids, e);
      HarmlessStep(Run(v, ids, before), ids, e, defs, id);
      EffectiveSet(Run(v, ids, before), ids, e);
    }
  }

  // ----- nothing is made up ----------------------------------------------------------------------

  /** Every stored value is one of `d`, or that of `entry`. */
  ghost predicate FromDisk(d: Disk, entries: set<Cell>, e: Disk) {
    e.Disk? ==> forall id :: id in e.stored ==>
      (d.Disk? && id in d.stored && d.stored[id] == e.stored[id]) || Cell(id, e.stored[id]) in entries
  }

  lemma PutFrom(d: Disk, keep: seq<Word16>, entry: Cell)
    requires d.Disk?
    ensures forall k :: 0 <= k < |PutTrace(d, keep, entry)| ==> FromDisk(d, {entry}, PutTrace(d, keep, entry)[k])
  {
    var zeroed := d.(stored := d.stored - {entry.param});
    var swap := SwapTrace(zeroed, keep, entry);
    forall k | 0 <= k < |swap|
      ensures FromDisk(d, {entry}, swap[k])
    {
    }
  }

  lemma FromTwice(d: Disk, a: set<Cell>, e: Disk, b: set<Cell>, f: Disk)
    requires FromDisk(d, a, e) && FromDisk(e, b, f)
    ensures forall c: set<Cell> :: a <= c && b <= c ==> FromDisk(d, c, f)
  {
  }

  function Entries(defs: seq<Cell>): set<Cell> {
    set c | c in defs
  }

  ghost predicate AllFrom(d: Disk, entries: set<Cell>, trace: seq<Disk>) {
    forall k :: 0 <= k < |trace| ==> FromDisk(d, entries, trace[k])
  }

  lemma LocateFrom(d: Disk, keep: seq<Word16>, def: Cell)
    requires d.Disk?
    ensures AllFrom(d, {def}, LocateTrace(d, keep, def)) && FromDisk(d, {def}, Last(d, LocateTrace(d, keep, def)))
  {
    hide PutTrace;
    PutFrom(d, keep, def);
  }

  lemma AppendFrom(d: Disk, entries: set<Cell>, before: seq<Disk>, was: Disk, def: Cell, step: seq<Disk>)
    requires AllFrom(d, entries, before) && FromDisk(d, entries, was) && AllFrom(was, {def}, step) && def in entries
    requires FromDisk(was, {def}, Last(was, step))
    ensures AllFrom(d, entries, before + step) && FromDisk(d, entries, Last(was, step))
  {
    hide FromDisk;
    forall k | 0 <= k < |step|
      ensures FromDisk(d, entries, step[k])
    {
      FromTwice(d, entries, was, {def}, step[k]);
    }
    FromTwice(d, entries, was, {def}, Last(was, step));
  }

  lemma BeginFrom(d: Disk, defs: seq<Cell>)
    ensures AllFrom(d, Entries(defs), StartTrace(d, defs, 0)) && FromDisk(d, Entries(defs), Started(d, defs, 0))
  {
  }

  lemma EntryIn(defs: seq<Cell>, n: nat)
    requires n < |defs|
    ensures defs[n] in Entries(defs)
  {
  }

  lemma {:induction false} StartFrom(d: Disk, defs: seq<Cell>, n: nat)
    requires n <= |defs|
    ensures AllFrom(d, Entries(defs), StartTrace(d, defs, n)) && FromDisk(d, Entries(defs), Started(d, defs, n))
  {
    hide *;
    if n == 0 {
      BeginFrom(d, defs);
    } else {
      StartFrom(d, defs, n - 1);
      StartedLast(d, defs, n - 1);
      LocateFrom(Started(d, defs, n - 1), Params(defs)[..n - 1], defs[n - 1]);
      EntryIn(defs, n - 1);
      AppendFrom(d, Entries(defs), StartTrace(d, defs, n - 1), Started(d, defs, n - 1), defs[n - 1],
                 LocateTrace(Started(d, defs, n - 1), Params(defs)[..n - 1], defs[n - 1]));
    }
  }

  /** The values that an event brings in. */
  function Offered(e: Event): set<Cell> {
    if e.Set? then {Cell(e.param, e.value)} else Entries(e.defs)
  }

  lemma NextFrom(v: Device, ids: seq<Word16>, e: Event)
    ensures FromDisk(v.disk, Offered(e), Next(v, ids, e).disk)
  {
    hide StartTrace, PutTrace;
    match e {
      case Set(param, value, cut) =>
        if Effective(v, ids, e) { PutFrom(v.disk, Others(ids, IndexOf(ids, param)), Cell(param, value)); }
      case Start(defs, cut) =>
        StartFrom(v.disk, defs, |defs|);
        StartEnd(v.disk, defs);
    }
  }

  function AllOffered(events: seq<Event>): set<Cell> {
    if events == [] then {} else AllOffered(events[..|events| - 1]) + Offered(events[|events| - 1])
  }

  /** Over any run, wherever power is lost: whatever value is stored for a parameter was stored for it before, or
      is one that an update or a definition gave to it.  Nothing is mixed up or made up. */
  lemma {:induction false} NothingInvented(v: Device, ids: seq<Word16>, events: seq<Event>)
    ensures FromDisk(v.disk, AllOffered(events), Run(v, ids, events).disk)
    decreases |events|
  {
    hide Next, Offered;
    if events != [] {
      var before, e := events[..|events| - 1], events[|events| - 1];
      NothingInvented(v, ids, before);
      NextFrom(Run(v, ids, before), ids, e);
      FromTwice(v.disk, AllOffered(before), Run(v, ids, before).disk, Offered(e), Run(v, ids, events).disk);
    }
  }
}
