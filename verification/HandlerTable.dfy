// The message handler table of ev-sdk/libs/PahoMqtt/MQTTClient.c: registration and
// removal in a fixed array, and delivery to every matching handler.
module HandlerTable {
  import opened Optional
  import opened TopicMatcher

  const MAX_MESSAGE_HANDLERS: nat := 100

  /** A handler is identified by its function and the user data passed to it. */
  datatype Handler = Handler(fp: nat, userData: nat)

  /** A slot is free when its topic filter is null. */
  datatype Slot = Free | Used(filter: string, fp: Option<nat>, userData: nat)

  /** One call of a handler, for the filter that selected it. */
  datatype Call = Call(filter: string, handler: Handler)

  // ----- the abstract table --------------------------------------------------------------

  ghost predicate Unique(s: seq<Slot>) {
    forall i, j :: 0 <= i < j < |s| && s[i].Used? && s[j].Used? ==> s[i].filter != s[j].filter
  }

  /** Registered slots have a handler: only removal stores a null one, and it frees the slot. */
  ghost predicate Registered(s: seq<Slot>) {
    forall i :: 0 <= i < |s| && s[i].Used? ==> s[i].fp.Some?
  }

  ghost predicate WellFormed(s: seq<Slot>) {
    Unique(s) && Registered(s)
  }

  ghost predicate Present(s: seq<Slot>, f: string) {
    exists i :: 0 <= i < |s| && s[i].Used? && s[i].filter == f
  }

  /** The finite map from filters to handlers that the slots stand for. */
  ghost function TableOf(s: seq<Slot>): map<string, Handler>
    requires Registered(s)
  {
    if s == [] then map[]
    else
      var last := s[|s| - 1];
      var t := TableOf(s[..|s| - 1]);
      if last.Used? then t[last.filter := Handler(last.fp.value, last.userData)] else t
  }

  lemma {:induction false} TableEntries(s: seq<Slot>)
    requires WellFormed(s)
    ensures forall f :: f in TableOf(s) <==> Present(s, f)
    ensures forall i :: 0 <= i < |s| && s[i].Used? ==>
      s[i].filter in TableOf(s) && TableOf(s)[s[i].filter] == Handler(s[i].fp.value, s[i].userData)
  {
    if s != [] {
      var r := s[..|s| - 1];
      TableEntries(r);
      assert forall f :: Present(s, f) <==> Present(r, f) || (s[|s| - 1].Used? && s[|s| - 1].filter == f);
    }
  }

  function UsedCount(s: seq<Slot>): nat {
    if s == [] then 0 else UsedCount(s[..|s| - 1]) + (if s[|s| - 1].Used? then 1 else 0)
  }

  /** The table is as large as the number of slots in use. */
  lemma {:induction false} TableSize(s: seq<Slot>)
    requires WellFormed(s)
    ensures |TableOf(s)| == UsedCount(s) <= |s|
    ensures UsedCount(s) == |s| <==> forall i :: 0 <= i < |s| ==> s[i].Used?
  {
    if s != [] {
      var r, last := s[..|s| - 1], s[|s| - 1];
      TableSize(r);
      TableEntries(r);
      if last.Used? {
        assert last.filter !in TableOf(r);
      }
      assert forall i :: 0 <= i < |r| ==> r[i] == s[i];
    }
  }

  /** Two tables with the same entries are equal. */
  lemma SameTable(s: seq<Slot>, t: map<string, Handler>)
    requires WellFormed(s)
    requires forall f :: f in t ==> Present(s, f)
    requires forall i :: 0 <= i < |s| && s[i].Used? ==>
      s[i].filter in t && t[s[i].filter] == Handler(s[i].fp.value, s[i].userData)
    ensures TableOf(s) == t
  {
    TableEntries(s);
    forall f | f in t
      ensures TableOf(s)[f] == t[f]
    {
      var i :| 0 <= i < |s| && s[i].Used? && s[i].filter == f;
    }
    assert TableOf(s).Keys == t.Keys;
  }

  lemma StoreEntry(s: seq<Slot>, i: nat, f: string, fp: nat, userData: nat)
    requires WellFormed(s) && i < |s|
    requires (s[i].Used? && s[i].filter == f) || (s[i].Free? && !Present(s, f))
    ensures var now := s[i := Used(f, Some(fp), userData)];
      WellFormed(now) && TableOf(now) == TableOf(s)[f := Handler(fp, userData)]
  {
    var now := s[i := Used(f, Some(fp), userData)];
    TableEntries(s);
    forall g | g in TableOf(s)[f := Handler(fp, userData)]
      ensures Present(now, g)
    {
      if g == f { assert now[i].filter == f; }
      else {
        var k :| 0 <= k < |s| && s[k].Used? && s[k].filter == g;
        assert now[k] == s[k];
      }
    }
    SameTable(now, TableOf(s)[f := Handler(fp, userData)]);
  }

  lemma RemoveEntry(s: seq<Slot>, i: nat, f: string)
    requires WellFormed(s) && i < |s| && s[i].Used? && s[i].filter == f
    ensures WellFormed(s[i := Free]) && TableOf(s[i := Free]) == TableOf(s) - {f}
  {
    var now := s[i := Free];
    TableEntries(s);
    forall g | g in TableOf(s) - {f}
      ensures Present(now, g)
    {
      var k :| 0 <= k < |s| && s[k].Used? && s[k].filter == g;
      assert now[k] == s[k];
    }
    SameTable(now, TableOf(s) - {f});
  }

  // ----- registration ------------------------------------------------------------------------

  /** A call of `MQTTSetMessageHandler`; without a handler it removes the filter. */
  datatype Registration = Registration(filter: string, handler: Option<nat>, userData: nat)

  /** The first slot from `i` on that is used for filter `f`, or the number of slots. */
  function FindFilter(s: seq<Slot>, f: string, i: nat): (r: nat)
    requires i <= |s|
    ensures i <= r <= |s| && (r < |s| ==> s[r].Used? && s[r].filter == f)
    ensures forall j :: i <= j < r ==> !(s[j].Used? && s[j].filter == f)
    decreases |s| - i
  {
    if i == |s| || (s[i].Used? && s[i].filter == f) then i else FindFilter(s, f, i + 1)
  }

  /** The first free slot from `i` on, or the number of slots. */
  function FindFree(s: seq<Slot>, i: nat): (r: nat)
    requires i <= |s|
    ensures i <= r <= |s| && (r < |s| ==> s[r].Free?)
    ensures forall j :: i <= j < r ==> s[j].Used?
    decreases |s| - i
  {
    if i == |s| || s[i].Free? then i else FindFree(s, i + 1)
  }

  lemma FoundFrom(s: seq<Slot>, f: string, i: nat)
    requires i <= |s|
    ensures FindFilter(s, f, i) ==
      if i == |s| || (s[i].Used? && s[i].filter == f) then i else FindFilter(s, f, i + 1)
  {
  }

  lemma FreeFrom(s: seq<Slot>, i: nat)
    requires i < |s|
    ensures FindFree(s, i) == if s[i].Free? then i else FindFree(s, i + 1)
  {
  }

  /** The slots after a registration. */
  function Register(s: seq<Slot>, r: Registration): (u: seq<Slot>)
    ensures |u| == |s|
  {
    var i := FindFilter(s, r.filter, 0);
    if r.handler.None? then if i < |s| then s[i := Free] else s
    else
      var j := if i < |s| then i else FindFree(s, 0);
      if j < |s| then s[j := Used(r.filter, r.handler, r.userData)] else s
  }

  function RegisterAll(s: seq<Slot>, rs: seq<Registration>): (u: seq<Slot>)
    ensures |u| == |s|
    decreases |rs|
  {
    if rs == [] then s else RegisterAll(Register(s, rs[0]), rs[1..])
  }

  lemma RegisterKeeps(s: seq<Slot>, r: Registration)
    requires WellFormed(s)
    ensures WellFormed(Register(s, r))
  {
    hide FindFilter, FindFree;
  }

  lemma FilterSlot(s: seq<Slot>, f: string)
    requires WellFormed(s)
    ensures FindFilter(s, f, 0) < |s| <==> f in TableOf(s)
    ensures FindFilter(s, f, 0) == |s| ==> !Present(s, f)
  {
    TableEntries(s);
    hide FindFilter, TableOf;
  }

  lemma FreeSlot(s: seq<Slot>)
    requires WellFormed(s)
    ensures FindFree(s, 0) < |s| <==> |TableOf(s)| < |s|
  {
    TableSize(s);
    hide FindFree, TableOf, UsedCount;
  }

  /** The map that a registration leaves: adding fails only when the table is full and the filter absent. */
  lemma RegisterTable(s: seq<Slot>, r: Registration)
    requires WellFormed(s)
    ensures WellFormed(Register(s, r))
    ensures TableOf(Register(s, r)) ==
      if r.handler.None? then TableOf(s) - {r.filter}
      else if r.filter in TableOf(s) || |TableOf(s)| < |s|
           then TableOf(s)[r.filter := Handler(r.handler.value, r.userData)]
           else TableOf(s)
  {
    FilterSlot(s, r.filter);
    FreeSlot(s);
    hide FindFilter, FindFree, TableOf, Unique, Registered, Present;
    var i, j := FindFilter(s, r.filter, 0), FindFree(s, 0);
    if i < |s| && r.handler.None? {
      RemoveEntry(s, i, r.filter);
    } else if i < |s| {
      StoreEntry(s, i, r.filter, r.handler.value, r.userData);
    } else if r.handler.Some? && j < |s| {
      StoreEntry(s, j, r.filter, r.handler.value, r.userData);
    } else {
      assert Register(s, r) == s;
    }
  }

  /** The registration of another filter leaves a used slot alone. */
  lemma OtherRegistration(s: seq<Slot>, r: Registration, k: nat)
    requires k < |s| && s[k].Used? && s[k].filter != r.filter
    ensures Register(s, r)[k] == s[k]
  {
    hide FindFilter, FindFree;
  }

  lemma {:induction false} OtherRegistrations(s: seq<Slot>, rs: seq<Registration>, k: nat)
    requires WellFormed(s) && k < |s| && s[k].Used? && forall r :: r in rs ==> r.filter != s[k].filter
    ensures WellFormed(RegisterAll(s, rs)) && RegisterAll(s, rs)[k] == s[k]
    decreases |rs|
  {
    hide Register, WellFormed;
    if rs != [] {
      OtherRegistration(s, rs[0], k);
      RegisterKeeps(s, rs[0]);
      OtherRegistrations(Register(s, rs[0]), rs[1..], k);
    }
  }

  lemma {:induction false} RegistrationsKeep(s: seq<Slot>, rs: seq<Registration>)
    requires WellFormed(s)
    ensures WellFormed(RegisterAll(s, rs))
    decreases |rs|
  {
    hide Register, WellFormed;
    if rs != [] {
      RegisterKeeps(s, rs[0]);
      RegistrationsKeep(Register(s, rs[0]), rs[1..]);
    }
  }

  // ----- delivery ----------------------------------------------------------------------------

  /** The filter equals the topic or matches it. */
  predicate Hit(filter: string, topic: string) {
    topic == filter || Scan(filter, topic)
  }

  /** For a valid filter this is equality or level-by-level matching. */
  lemma HitExact(filter: string, topic: string)
    requires ValidFilter(filter, true)
    ensures Hit(filter, topic) <==> topic == filter || MatchLevels(Levels(filter), Levels(topic))
  {
    hide Scan, MatchLevels, Levels, ValidFilter;
    ScanIsMatch(filter, topic, true);
  }

  /** The slot's handler is called for the topic. */
  predicate Selected(slot: Slot, topic: string) {
    slot.Used? && Hit(slot.filter, topic) && slot.fp.Some?
  }

  /** The slots after the first `n` have been visited; the handler in slot `i`, if called, registers `ops[i]`. */
  function After(s: seq<Slot>, topic: string, ops: seq<seq<Registration>>, n: nat): (u: seq<Slot>)
    requires n <= |s| == |ops|
    ensures |u| == |s|
  {
    if n == 0 then s
    else
      var u := After(s, topic, ops, n - 1);
      if Selected(u[n - 1], topic) then RegisterAll(u, ops[n - 1]) else u
  }

  /** The calls that these visits make. */
  function CallsOf(s: seq<Slot>, topic: string, ops: seq<seq<Registration>>, n: nat): seq<Call>
    requires n <= |s| == |ops|
  {
    if n == 0 then []
    else
      var slot := After(s, topic, ops, n - 1)[n - 1];
      var calls := CallsOf(s, topic, ops, n - 1);
      if Selected(slot, topic) then calls + [Call(slot.filter, Handler(slot.fp.value, slot.userData))] else calls
  }

  /** No handler registers or removes `f` while the message is delivered. */
  ghost predicate Undisturbed(ops: seq<seq<Registration>>, f: string) {
    forall i :: 0 <= i < |ops| ==> forall r :: r in ops[i] ==> r.filter != f
  }

  /** How many calls were made for the filter. */
  function CallCount(calls: seq<Call>, f: string): nat {
    if calls == [] then 0
    else CallCount(calls[..|calls| - 1], f) + if calls[|calls| - 1].filter == f then 1 else 0
  }

  /** What delivery owes to every filter that is registered when it starts and that no handler touches meanwhile: it
      stays registered, and its own handler is called, exactly once, if the filter is hit, and not at all otherwise. */
  ghost predicate Serves(s: seq<Slot>, topic: string, ops: seq<seq<Registration>>, u: seq<Slot>, calls: seq<Call>)
    requires WellFormed(s) && WellFormed(u)
  {
    forall f :: f in TableOf(s) && Undisturbed(ops, f) ==>
      && f in TableOf(u) && TableOf(u)[f] == TableOf(s)[f]
      && CallCount(calls, f) == (if Hit(f, topic) then 1 else 0)
      && (CallCount(calls, f) == 1 ==> Call(f, TableOf(s)[f]) in calls)
      && (ValidFilter(f, true) ==>
            (CallCount(calls, f) == 1 <==> topic == f || MatchLevels(Levels(f), Levels(topic))))
  }

  lemma CallAdded(calls: seq<Call>, c: Call, f: string)
    ensures CallCount(calls + [c], f) == CallCount(calls, f) + if c.filter == f then 1 else 0
  {
    assert (calls + [c])[..|calls|] == calls;
  }

  lemma NoVisit(s: seq<Slot>, topic: string, ops: seq<seq<Registration>>)
    requires |s| == |ops|
    ensures After(s, topic, ops, 0) == s && CallsOf(s, topic, ops, 0) == []
  {
  }

  lemma AfterStep(s: seq<Slot>, topic: string, ops: seq<seq<Registration>>, n: nat)
    requires n < |s| == |ops|
    ensures var u := After(s, topic, ops, n);
      && After(s, topic, ops, n + 1) == (if Selected(u[n], topic) then RegisterAll(u, ops[n]) else u)
      && CallsOf(s, topic, ops, n + 1) ==
           if Selected(u[n], topic)
           then CallsOf(s, topic, ops, n) + [Call(u[n].filter, Handler(u[n].fp.value, u[n].userData))]
           else CallsOf(s, topic, ops, n)
  {
  }

  lemma {:induction false} AfterKeeps(s: seq<Slot>, topic: string, ops: seq<seq<Registration>>, n: nat)
    requires WellFormed(s) && n <= |s| == |ops|
    ensures WellFormed(After(s, topic, ops, n))
  {
    hide WellFormed, Selected;
    if n > 0 {
      AfterKeeps(s, topic, ops, n - 1);
      RegistrationsKeep(After(s, topic, ops, n - 1), ops[n - 1]);
    }
  }

  /** What the first `n` visits have done for the filter in slot `k`. */
  lemma {:induction false} SlotServed(s: seq<Slot>, topic: string, ops: seq<seq<Registration>>, k: nat, n: nat)
    requires WellFormed(s) && n <= |s| == |ops| && k < |s| && s[k].Used? && Undisturbed(ops, s[k].filter)
    ensures var u, calls, f := After(s, topic, ops, n), CallsOf(s, topic, ops, n), s[k].filter;
      && WellFormed(u) && u[k] == s[k]
      && CallCount(calls, f) == (if k < n && Hit(f, topic) then 1 else 0)
      && (k < n && Hit(f, topic) ==> s[k].fp.Some? && Call(f, Handler(s[k].fp.value, s[k].userData)) in calls)
  {
    if n > 0 {
      SlotServed(s, topic, ops, k, n - 1);
      AfterStep(s, topic, ops, n - 1);
      var u, calls, f := After(s, topic, ops, n - 1), CallsOf(s, topic, ops, n - 1), s[k].filter;
      var slot := u[n - 1];
      assert slot.Used? ==> slot.fp.Some? && (slot.filter == f ==> n - 1 == k);
      OtherRegistrations(u, ops[n - 1], k);
      if Selected(slot, topic) {
        CallAdded(calls, Call(slot.filter, Handler(slot.fp.value, slot.userData)), f);
      }
      hide After, CallsOf, CallCount, Hit, RegisterAll;
    }
  }

  lemma DeliveryServes(s: seq<Slot>, topic: string, ops: seq<seq<Registration>>)
    requires WellFormed(s) && |s| == |ops|
    ensures WellFormed(After(s, topic, ops, |s|))
    ensures Serves(s, topic, ops, After(s, topic, ops, |s|), CallsOf(s, topic, ops, |s|))
  {
    var u, calls := After(s, topic, ops, |s|), CallsOf(s, topic, ops, |s|);
    AfterKeeps(s, topic, ops, |s|);
    TableEntries(s);
    TableEntries(u);
    hide TableOf, After, CallsOf, CallCount, Hit, Levels, MatchLevels, ValidFilter;
    forall f | f in TableOf(s) && Undisturbed(ops, f)
      ensures f in TableOf(u) && TableOf(u)[f] == TableOf(s)[f]
      ensures CallCount(calls, f) == if Hit(f, topic) then 1 else 0
      ensures CallCount(calls, f) == 1 ==> Call(f, TableOf(s)[f]) in calls
      ensures ValidFilter(f, true) ==>
        (CallCount(calls, f) == 1 <==> topic == f || MatchLevels(Levels(f), Levels(topic)))
    {
      var k :| 0 <= k < |s| && s[k].Used? && s[k].filter == f;
      SlotServed(s, topic, ops, k, |s|);
      if ValidFilter(f, true) { HitExact(f, topic); }
    }
  }

  /** When slot `i` is visited it holds the filter and the handler of the call. */
  ghost predicate HeldAt(s: seq<Slot>, topic: string, ops: seq<seq<Registration>>, i: nat, c: Call)
    requires i < |s| == |ops|
  {
    After(s, topic, ops, i)[i] == Used(c.filter, Some(c.handler.fp), c.handler.userData)
  }

  /** Every call is made for a filter that is hit and that is registered, with this handler, when its slot is
      visited. */
  lemma {:induction false} EveryCallHit(s: seq<Slot>, topic: string, ops: seq<seq<Registration>>, n: nat, c: Call)
    returns (i: nat)
    requires WellFormed(s) && n <= |s| == |ops| && c in CallsOf(s, topic, ops, n)
    ensures i < n && HeldAt(s, topic, ops, i, c) && Hit(c.filter, topic)
  {
    AfterStep(s, topic, ops, n - 1);
    if c in CallsOf(s, topic, ops, n - 1) {
      i := EveryCallHit(s, topic, ops, n - 1, c);
    } else {
      i := n - 1;
    }
  }

  /** A filter that a handler removes and registers again may be served twice: here the handler of "a" gives its slot to
      "b" and moves to the next one, which is still to be visited. */
  lemma ServedTwice()
    ensures
      var s := [Used("a", Some(1), 0), Free];
      var moves := [Registration("a", None, 0), Registration("b", Some(2), 0), Registration("a", Some(1), 0)];
      var c := Call("a", Handler(1, 0));
      CallsOf(s, "a", [moves, []], 2) == [c, c]
  {
    var s := [Used("a", Some(1), 0), Free];
    var moves := [Registration("a", None, 0), Registration("b", Some(2), 0), Registration("a", Some(1), 0)];
    var s1 := Register(s, moves[0]);
    assert s1 == [Free, Free];
    var s2 := Register(s1, moves[1]);
    assert s2 == [Used("b", Some(2), 0), Free];
    var s3 := Register(s2, moves[2]);
    assert s3 == [Used("b", Some(2), 0), Used("a", Some(1), 0)];
    hide Register, Scan;
    assert moves[1..][1..] == [moves[2]] && moves[1..][0] == moves[1] && moves[2..][1..] == [];
    assert RegisterAll(s2, moves[1..][1..]) == RegisterAll(s3, moves[1..][1..][1..]) == s3;
    assert RegisterAll(s1, moves[1..]) == RegisterAll(s2, moves[1..][1..]);
    assert RegisterAll(s, moves) == s3;
    var ops := [moves, []];
    AfterStep(s, "a", ops, 0);
    AfterStep(s, "a", ops, 1);
  }

  /** Handlers that leave the table alone: exactly the registered handlers whose filter is hit are called, and the table
      stays as it is. */
  lemma {:induction false} QuietDelivery(s: seq<Slot>, topic: string, ops: seq<seq<Registration>>, n: nat)
    requires WellFormed(s) && n <= |s| == |ops| && forall i :: 0 <= i < |ops| ==> ops[i] == []
    ensures After(s, topic, ops, n) == s
    ensures forall c :: c in CallsOf(s, topic, ops, n) <==>
      Hit(c.filter, topic) && exists i :: 0 <= i < n && s[i] == Used(c.filter, Some(c.handler.fp), c.handler.userData)
  {
    if n > 0 {
      QuietDelivery(s, topic, ops, n - 1);
      AfterStep(s, topic, ops, n - 1);
      hide After, CallsOf, Hit;
      assert s[n - 1].Used? ==> s[n - 1].fp.Some?;
      assert s[n - 1].Used? ==> s[n - 1] == Used(s[n - 1].filter, Some(s[n - 1].fp.value), s[n - 1].userData);
    }
  }

  class Client {
    const slots: array<Slot>
    var defaultHandler: Option<nat>

    ghost predicate Valid()
      reads this, slots
    {
      slots.Length == MAX_MESSAGE_HANDLERS && WellFormed(slots[..])
    }

    ghost function Table(): map<string, Handler>
      requires Valid()
      reads this, slots
    {
      TableOf(slots[..])
    }

    constructor ()
      ensures Valid() && fresh(slots) && Table() == map[] && defaultHandler == None
    {
      slots := new Slot[MAX_MESSAGE_HANDLERS](_ => Free);
      defaultHandler := None;
      new;
      SameTable(slots[..], map[]);
    }

    /** A bounded map: adding fails only when the table is full and the filter absent, removing only when it
        is absent; a failing call changes nothing. */
    method SetMessageHandler(filter: string, handler: Option<nat>, userData: nat) returns (ok: bool)
      requires Valid()
      modifies slots
      ensures Valid() && slots[..] == Register(old(slots[..]), Registration(filter, handler, userData))
      ensures ok <==> filter in old(Table()) || (handler.Some? && |old(Table())| < 100)
      ensures !ok ==> slots[..] == old(slots[..])
      ensures ok && handler.Some? ==> Table() == old(Table())[filter := Handler(handler.value, userData)]
      ensures ok && handler.None? ==> Table() == old(Table()) - {filter}
    {
      hide TableOf, FindFilter, FindFree;
      ghost var s := slots[..];
      TableEntries(s);
      TableSize(s);
      RegisterTable(s, Registration(filter, handler, userData));
      ok := false;
      var i := 0;
      FoundFrom(s, filter, 0);
      while i < slots.Length
        invariant 0 <= i <= slots.Length && FindFilter(s, filter, 0) == FindFilter(s, filter, i) && slots[..] == s
      {
        FoundFrom(s, filter, i);
        if slots[i].Used? && slots[i].filter == filter {
          ok := true;
          break;
        }
        i := i + 1;
      }
      assert ok <==> Present(s, filter);
      if ok && handler.None? {
        slots[i] := Free;
        assert slots[..] == s[i := Free];
      }
      if handler.Some? {
        if !ok {
          i := 0;
          while i < slots.Length
            invariant 0 <= i <= slots.Length && FindFree(s, 0) == FindFree(s, i) && slots[..] == s
          {
            FreeFrom(s, i);
            if slots[i].Free? {
              ok := true;
              break;
            }
            i := i + 1;
          }
        }
        if i < slots.Length {
          slots[i] := Used(filter, handler, userData);
          assert slots[..] == s[i := Used(filter, handler, userData)];
        }
      }
    }

    /** A handler, as the registrations it performs. */
    method Handle(rs: seq<Registration>)
      requires Valid()
      modifies slots
      ensures Valid() && slots[..] == RegisterAll(old(slots[..]), rs)
      decreases |rs|
    {
      if rs != [] {
        var _ := SetMessageHandler(rs[0].filter, rs[0].handler, rs[0].userData);
        Handle(rs[1..]);
      }
    }

    /** Calls the handler of each matching slot, on the table that the handlers before it have left, and the default
        handler only if there is none. */
    method DeliverMessage(topic: string, ops: seq<seq<Registration>>)
      returns (ok: bool, calls: seq<Call>, defaulted: bool)
      requires Valid() && |ops| == MAX_MESSAGE_HANDLERS
      modifies slots
      ensures Valid() && slots[..] == After(old(slots[..]), topic, ops, MAX_MESSAGE_HANDLERS)
      ensures calls == CallsOf(old(slots[..]), topic, ops, MAX_MESSAGE_HANDLERS)
      ensures Serves(old(slots[..]), topic, ops, slots[..], calls)
      ensures defaulted <==> calls == [] && defaultHandler.Some?
      ensures ok <==> calls != [] || defaulted
    {
      hide After, CallsOf, Serves;
      ghost var s := slots[..];
      ok, calls, defaulted := false, [], false;
      NoVisit(s, topic, ops);
      for i := 0 to slots.Length
        invariant Valid() && slots[..] == After(s, topic, ops, i) && calls == CallsOf(s, topic, ops, i)
        invariant ok <==> calls != []
      {
        AfterStep(s, topic, ops, i);
        assert slots[i] == slots[..][i];
        if slots[i].Used? {
          var matched := IsTopicMatched(slots[i].filter, topic);
          if topic == slots[i].filter || matched {
            if slots[i].fp.Some? {
              calls := calls + [Call(slots[i].filter, Handler(slots[i].fp.value, slots[i].userData))];
              Handle(ops[i]);
              ok := true;
            }
          }
        }
      }
      DeliveryServes(s, topic, ops);
      if !ok && defaultHandler.Some? {
        defaulted, ok := true, true;
      }
    }
  }
}
