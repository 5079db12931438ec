// The cooperative scheduler of ev-sdk/cores/sch/sm_core_sch.c with the timers of
// ev-sdk/utils/timing/sm_elapsed_timer.h.  Callbacks may start and cancel tasks,
// their own included.
module Scheduler {

  const TASK_MAX: nat := 48
  const REPEAT_FOREVER: int := 0xFFFF
  const NULL: nat := 0

  /** A slot of the table; it is free when its function is null. */
  datatype Slot = Slot(fn: nat, arg: nat, interval: int, repeat: int, count: int, duration: int, start: int)

  type Table = t: seq<Slot> | |t| == TASK_MAX witness seq(TASK_MAX, _ => Slot(NULL, 0, 0, 0, 0, 0, 0))

  /** What identifies a task. */
  datatype Key = Key(fn: nat, arg: nat)

  predicate Holds(s: Slot, k: Key) {
    k.fn != NULL && s.fn == k.fn && s.arg == k.arg
  }

  ghost predicate Live(t: Table, k: Key) {
    exists i :: 0 <= i < TASK_MAX && Holds(t[i], k)
  }

  // ----- the operations ------------------------------------------------------------------------

  datatype Op =
    | Start(interval: int, repeat: int, fn: nat, arg: nat)
    | Cancel(id: nat)
    | CancelAll(fn: nat)

  /** The first slot from `i` on with this function and argument, or TASK_MAX. */
  function FindTask(t: Table, fn: nat, arg: nat, i: nat): (r: nat)
    requires i <= TASK_MAX
    ensures i <= r <= TASK_MAX && (r < TASK_MAX ==> t[r].fn == fn && t[r].arg == arg)
    ensures forall j :: i <= j < r ==> t[j].fn != fn || t[j].arg != arg
    decreases TASK_MAX - i
  {
    if i == TASK_MAX || (t[i].fn == fn && t[i].arg == arg) then i else FindTask(t, fn, arg, i + 1)
  }

  function FindFree(t: Table, i: nat): (r: nat)
    requires i <= TASK_MAX
    ensures i <= r <= TASK_MAX && (r < TASK_MAX ==> t[r].fn == NULL)
    ensures forall j :: i <= j < r ==> t[j].fn != NULL
    decreases TASK_MAX - i
  {
    if i == TASK_MAX || t[i].fn == NULL then i else FindFree(t, i + 1)
  }

  lemma FindTaskStep(t: Table, fn: nat, arg: nat, i: nat)
    requires i < TASK_MAX
    ensures FindTask(t, fn, arg, i) == if t[i].fn == fn && t[i].arg == arg then i else FindTask(t, fn, arg, i + 1)
  {
  }

  lemma FindFreeStep(t: Table, i: nat)
    requires i < TASK_MAX
    ensures FindFree(t, i) == if t[i].fn == NULL then i else FindFree(t, i + 1)
  {
  }

  function Freed(s: Slot): Slot {
    s.(fn := NULL, arg := 0, interval := 0, repeat := 0, count := 0)
  }

  /** The table after an operation at time `now`. */
  function Apply(t: Table, op: Op, now: int): Table {
    match op
    case Start(interval, repeat, fn, arg) =>
      var i := FindTask(t, fn, arg, 0);
      if i < TASK_MAX then t[i := t[i].(interval := interval, repeat := repeat, count := 0, duration := interval)]
      else
        var j := FindFree(t, 0);
        if j < TASK_MAX then t[j := Slot(fn, arg, interval, repeat, 0, interval, now)] else t
    case Cancel(id) => if id < TASK_MAX then t[id := Freed(t[id])] else t
    case CancelAll(fn) =>
      if fn == NULL then t
      else seq(TASK_MAX, i requires 0 <= i < TASK_MAX => if t[i].fn == fn then Freed(t[i]) else t[i])
  }

  /** The operations of a callback, each with its time. */
  function ApplyAll(t: Table, ops: seq<(Op, int)>): Table
    decreases |ops|
  {
    if ops == [] then t else ApplyAll(Apply(t, ops[0].0, ops[0].1), ops[1..])
  }

  predicate Due(s: Slot, now: int) {
    s.fn != NULL && now - s.start >= s.duration
  }

  /** What the process loop does to the slot after its callback, at time `now`. */
  function AfterRun(s: Slot, now: int): Slot {
    if s.count < s.repeat - 1 || s.repeat == REPEAT_FOREVER then s.(count := s.count + 1, start := now)
    else s.(fn := NULL, arg := 0)
  }

  /** One event: an operation from outside, or the process loop at slot `i`.  The timer is read at `t1`, the
      callback performs `ops`, and the timer is reset at `t2`. */
  datatype Event =
    | External(op: Op, now: int)
    | Visit(i: nat, t1: int, ops: seq<(Op, int)>, t2: int)

  function Step(t: Table, e: Event): Table
    requires e.Visit? ==> e.i < TASK_MAX
  {
    match e
    case External(op, now) => Apply(t, op, now)
    case Visit(i, t1, ops, t2) =>
      if Due(t[i], t1) then
        var u := ApplyAll(t, ops);
        u[i := AfterRun(u[i], t2)]
      else t
  }

  // ----- no two live slots share a task ----------------------------------------------------------

  ghost predicate UniqueTasks(t: Table) {
    forall i, j :: 0 <= i < j < TASK_MAX && t[i].fn != NULL && t[j].fn != NULL ==>
      t[i].fn != t[j].fn || t[i].arg != t[j].arg
  }

  lemma ApplyUnique(t: Table, op: Op, now: int)
    requires UniqueTasks(t)
    ensures UniqueTasks(Apply(t, op, now))
  {
    hide FindTask, FindFree;
  }

  lemma {:induction false} ApplyAllUnique(t: Table, ops: seq<(Op, int)>)
    requires UniqueTasks(t)
    ensures UniqueTasks(ApplyAll(t, ops))
    decreases |ops|
  {
    hide Apply;
    if ops != [] {
      ApplyUnique(t, ops[0].0, ops[0].1);
      ApplyAllUnique(Apply(t, ops[0].0, ops[0].1), ops[1..]);
    }
  }

  lemma StepUnique(t: Table, e: Event)
    requires UniqueTasks(t) && (e.Visit? ==> e.i < TASK_MAX)
    ensures UniqueTasks(Step(t, e))
  {
    hide Apply, ApplyAll;
    match e {
      case External(op, now) => ApplyUnique(t, op, now);
      case Visit(i, t1, ops, t2) => ApplyAllUnique(t, ops);
    }
  }

  // ----- where a live slot comes from -------------------------------------------------------------

  /** Between two tables: a live slot of `k` was there before with the same timer start, or was started at `lo` or
      later. */
  ghost predicate Traced(t: Table, u: Table, k: Key, lo: int) {
    forall i :: 0 <= i < TASK_MAX && Holds(u[i], k) ==>
      (Holds(t[i], k) && u[i].start == t[i].start) || u[i].start >= lo
  }

  ghost predicate Starts(op: Op, k: Key) {
    op.Start? && op.fn == k.fn && op.arg == k.arg
  }

  lemma ApplyTraced(t: Table, op: Op, now: int, k: Key, lo: int)
    requires lo <= now
    ensures Traced(t, Apply(t, op, now), k, lo)
    ensures !Starts(op, k) ==> forall i :: 0 <= i < TASK_MAX && Holds(Apply(t, op, now)[i], k) ==> Holds(t[i], k)
  {
    hide FindTask, FindFree;
  }

  lemma {:induction false} ApplyAllTraced(t: Table, ops: seq<(Op, int)>, k: Key, lo: int)
    requires forall j :: 0 <= j < |ops| ==> lo <= ops[j].1
    ensures Traced(t, ApplyAll(t, ops), k, lo)
    ensures (forall j :: 0 <= j < |ops| ==> !Starts(ops[j].0, k)) ==>
      forall i :: 0 <= i < TASK_MAX && Holds(ApplyAll(t, ops)[i], k) ==> Holds(t[i], k)
    decreases |ops|
  {
    hide Apply;
    if ops != [] {
      ApplyTraced(t, ops[0].0, ops[0].1, k, lo);
      ApplyAllTraced(Apply(t, ops[0].0, ops[0].1), ops[1..], k, lo);
      assert forall j :: 0 <= j < |ops[1..]| ==> ops[1..][j] == ops[j + 1];
    }
  }

  // ----- runs ------------------------------------------------------------------------------------------

  predicate WellTimed(e: Event) {
    e.Visit? ==> e.i < TASK_MAX && e.t1 <= e.t2 && forall j :: 0 <= j < |e.ops| ==> e.t1 <= e.ops[j].1 <= e.t2
  }

  function Begin(e: Event): int {
    if e.Visit? then e.t1 else e.now
  }

  function End(e: Event): int {
    if e.Visit? then e.t2 else e.now
  }

  /** A run from an initial table; the clock never goes back. */
  ghost predicate IsRun(events: seq<Event>, tables: seq<Table>) {
    && |tables| == |events| + 1
    && UniqueTasks(tables[0])
    && (forall i :: 0 <= i < |events| ==> WellTimed(events[i]))
    && (forall i :: 0 <= i < |events| ==> tables[i + 1] == Step(tables[i], events[i]))
    && (forall i, j :: 0 <= i < j < |events| ==> End(events[i]) <= Begin(events[j]))
  }

  /** At event `e` the process loop runs task `k`. */
  predicate RunsTask(t: Table, e: Event, k: Key) {
    e.Visit? && e.i < TASK_MAX && Holds(t[e.i], k) && Due(t[e.i], e.t1)
  }

  lemma {:induction false} RunUnique(events: seq<Event>, tables: seq<Table>, n: nat)
    requires IsRun(events, tables) && n <= |events|
    ensures UniqueTasks(tables[n])
  {
    hide Step;
    if n > 0 {
      RunUnique(events, tables, n - 1);
      StepUnique(tables[n - 1], events[n - 1]);
    }
  }

  lemma RunStep(events: seq<Event>, tables: seq<Table>, n: nat)
    requires IsRun(events, tables) && n < |events|
    ensures |tables| == |events| + 1 && WellTimed(events[n]) && tables[n + 1] == Step(tables[n], events[n])
  {
    hide Step;
  }

  // ----- spacing -----------------------------------------------------------------------------------------

  lemma StepTraced(t: Table, e: Event, k: Key)
    requires UniqueTasks(t) && WellTimed(e)
    ensures Traced(t, Step(t, e), k, Begin(e))
    ensures RunsTask(t, e, k) ==>
      forall i :: 0 <= i < TASK_MAX && Holds(Step(t, e)[i], k) ==> Step(t, e)[i].start >= Begin(e)
  {
    hide Apply, ApplyAll;
    match e {
      case External(op, now) => ApplyTraced(t, op, now, k, now);
      case Visit(i, t1, ops, t2) => ApplyAllTraced(t, ops, k, t1);
    }
  }

  /** The timer of a task was started no earlier than its last run. */
  lemma {:induction false} TimerSinceRun(events: seq<Event>, tables: seq<Table>, k: Key, a: nat, n: nat, i: nat)
    requires IsRun(events, tables) && a < n <= |events| && RunsTask(tables[a], events[a], k)
    requires i < TASK_MAX && Holds(tables[n][i], k)
    ensures tables[n][i].start >= Begin(events[a])
    decreases n
  {
    hide Step, UniqueTasks;
    RunUnique(events, tables, n - 1);
    StepTraced(tables[n - 1], events[n - 1], k);
    assert tables[n] == Step(tables[n - 1], events[n - 1]) && WellTimed(events[a]);
    if a < n - 1 {
      assert End(events[a]) <= Begin(events[n - 1]);
      if Holds(tables[n - 1][i], k) {
        TimerSinceRun(events, tables, k, a, n - 1, i);
      }
    }
  }

  /** Any two runs of a task, whatever happened in between, are at least the interval in force at the later one
      apart. */
  lemma RunsSpaced(events: seq<Event>, tables: seq<Table>, k: Key, a: nat, b: nat)
    requires IsRun(events, tables) && a < b < |events|
    requires RunsTask(tables[a], events[a], k) && RunsTask(tables[b], events[b], k)
    ensures Begin(events[b]) - Begin(events[a]) >= tables[b][events[b].i].duration
  {
    hide Step, UniqueTasks, IsRun;
    TimerSinceRun(events, tables, k, a, b, events[b].i);
  }

  lemma {:induction false} ApplyAllJoin(t: Table, a: seq<(Op, int)>, b: seq<(Op, int)>)
    ensures ApplyAll(t, a + b) == ApplyAll(ApplyAll(t, a), b)
    decreases |a|
  {
    hide Apply;
    if a == [] {
      assert a + b == b;
    } else {
      assert (a + b)[1..] == a[1..] + b;
      ApplyAllJoin(Apply(t, a[0].0, a[0].1), a[1..], b);
    }
  }

  // ----- how often a task runs ------------------------------------------------------------------------------

  /** The operation neither restarts nor cancels task `k`. */
  predicate Untouched(t: Table, op: Op, k: Key) {
    match op
    case Start(_, _, fn, arg) => fn != k.fn || arg != k.arg
    case Cancel(id) => id < TASK_MAX ==> !Holds(t[id], k)
    case CancelAll(fn) => fn != k.fn
  }

  predicate AllUntouched(t: Table, ops: seq<(Op, int)>, k: Key)
    decreases |ops|
  {
    ops == [] || (Untouched(t, ops[0].0, k) && AllUntouched(Apply(t, ops[0].0, ops[0].1), ops[1..], k))
  }

  /** The event leaves task `k` alone. */
  predicate LeavesAlone(t: Table, e: Event, k: Key)
    requires e.Visit? ==> e.i < TASK_MAX
  {
    match e
    case External(op, _) => Untouched(t, op, k)
    case Visit(i, t1, ops, _) => Due(t[i], t1) ==> AllUntouched(t, ops, k)
  }

  /** The slots of `k` are the same in both tables. */
  ghost predicate SameTask(t: Table, u: Table, k: Key) {
    forall i :: 0 <= i < TASK_MAX ==> (Holds(t[i], k) ==> u[i] == t[i]) && (Holds(u[i], k) ==> Holds(t[i], k))
  }

  lemma UntouchedSame(t: Table, op: Op, now: int, k: Key)
    requires Untouched(t, op, k)
    ensures SameTask(t, Apply(t, op, now), k)
  {
    hide FindTask, FindFree;
  }

  lemma {:induction false} AllUntouchedSame(t: Table, ops: seq<(Op, int)>, k: Key)
    requires AllUntouched(t, ops, k)
    ensures SameTask(t, ApplyAll(t, ops), k)
    decreases |ops|
  {
    hide Apply, Untouched;
    if ops != [] {
      UntouchedSame(t, ops[0].0, ops[0].1, k);
      AllUntouchedSame(Apply(t, ops[0].0, ops[0].1), ops[1..], k);
    }
  }

  /** How many runs a repeat count stands for: anything below one still runs once. */
  function Limit(repeat: int): nat {
    if repeat < 1 then 1 else repeat
  }

  /** The slot has been started with `interval` and `repeat` and has run `r` times. */
  predicate At(s: Slot, interval: int, repeat: int, r: nat) {
    s.repeat == repeat && s.duration == interval && s.count == r
  }

  /** Task `k`, started with `repeat`, has run `r` times: it is live with that count, or used up and gone. */
  ghost predicate Progress(t: Table, k: Key, interval: int, repeat: int, r: nat) {
    if repeat == REPEAT_FOREVER || r < Limit(repeat)
    then exists i :: 0 <= i < TASK_MAX && Holds(t[i], k) && At(t[i], interval, repeat, r)
    else r == Limit(repeat) && !Live(t, k)
  }

  lemma ProgressStep(t: Table, e: Event, k: Key, interval: int, repeat: int, r: nat)
    requires UniqueTasks(t) && WellTimed(e) && LeavesAlone(t, e, k) && Progress(t, k, interval, repeat, r)
    ensures Progress(Step(t, e), k, interval, repeat, if RunsTask(t, e, k) then r + 1 else r)
  {
    hide Apply, ApplyAll, AllUntouched, Untouched;
    var w := Step(t, e);
    match e {
      case External(op, now) => UntouchedSame(t, op, now, k);
      case Visit(i, t1, ops, t2) => if Due(t[i], t1) { AllUntouchedSame(t, ops, k); }
    }
    if repeat == REPEAT_FOREVER || r < Limit(repeat) {
      var i :| 0 <= i < TASK_MAX && Holds(t[i], k) && At(t[i], interval, repeat, r);
      if RunsTask(t, e, k) {
        assert e.i == i && w[i] == AfterRun(t[i], e.t2);
      } else {
        assert w[i] == t[i];
      }
    }
  }

  /** The runs of `k` among the events from `j` up to `n`. */
  function RunCount(events: seq<Event>, tables: seq<Table>, k: Key, j: nat, n: nat): nat
    requires j <= n <= |events| && |tables| == |events| + 1
  {
    if n == j then 0
    else RunCount(events, tables, k, j, n - 1) + (if RunsTask(tables[n - 1], events[n - 1], k) then 1 else 0)
  }

  lemma {:induction false} ProgressOverRun(events: seq<Event>, tables: seq<Table>, k: Key, interval: int, repeat: int,
                                           r: nat,
                                           j: nat, n: nat)
    requires IsRun(events, tables) && j <= n <= |events| && Progress(tables[j], k, interval, repeat, r)
    requires forall a :: j <= a < n ==> WellTimed(events[a]) && LeavesAlone(tables[a], events[a], k)
    ensures Progress(tables[n], k, interval, repeat, r + RunCount(events, tables, k, j, n))
    decreases n
  {
    hide Step, UniqueTasks, Progress, LeavesAlone, RunsTask;
    if j < n {
      ProgressOverRun(events, tables, k, interval, repeat, r, j, n - 1);
      RunUnique(events, tables, n - 1);
      ProgressStep(tables[n - 1], events[n - 1], k, interval, repeat, r + RunCount(events, tables, k, j, n - 1));
    }
  }

  lemma ProgressMeans(t: Table, k: Key, interval: int, repeat: int, r: nat)
    requires Progress(t, k, interval, repeat, r) && repeat != REPEAT_FOREVER
    ensures r <= Limit(repeat) && (Live(t, k) <==> r < Limit(repeat))
  {
  }

  /** The slot that a start takes. */
  function SlotFor(t: Table, k: Key): (i: nat)
    ensures i <= TASK_MAX
  {
    if FindTask(t, k.fn, k.arg, 0) < TASK_MAX then FindTask(t, k.fn, k.arg, 0) else FindFree(t, 0)
  }

  lemma StartAt(t: Table, interval: int, repeat: int, k: Key, now: int)
    requires k.fn != NULL && SlotFor(t, k) < TASK_MAX
    ensures var s := Apply(t, Start(interval, repeat, k.fn, k.arg), now)[SlotFor(t, k)];
      Holds(s, k) && s.repeat == repeat && s.duration == interval && s.count == 0
  {
    hide FindTask, FindFree;
  }

  lemma StartMakesProgress(t: Table, interval: int, repeat: int, k: Key, now: int)
    requires k.fn != NULL && SlotFor(t, k) < TASK_MAX
    ensures Progress(Apply(t, Start(interval, repeat, k.fn, k.arg), now), k, interval, repeat, 0)
  {
    hide Apply, SlotFor;
    StartAt(t, interval, repeat, k, now);
  }

  /** A task started from outside with `repeat` and then left alone runs at most as often as that, and is live
      exactly as long as it has runs left. */
  lemma RunsAtMost(events: seq<Event>, tables: seq<Table>, k: Key, interval: int, repeat: int, now: int, j: nat, n: nat)
    requires IsRun(events, tables) && j < n <= |events| && k.fn != NULL && repeat != REPEAT_FOREVER
    requires events[j] == External(Start(interval, repeat, k.fn, k.arg), now)
    requires SlotFor(tables[j], k) < TASK_MAX
    requires forall a :: j < a < n ==> WellTimed(events[a]) && LeavesAlone(tables[a], events[a], k)
    ensures var r := RunCount(events, tables, k, j + 1, n);
      r <= Limit(repeat) && (Live(tables[n], k) <==> r < Limit(repeat))
  {
    hide IsRun, UniqueTasks, LeavesAlone, Apply, SlotFor, Progress, Live, RunCount;
    RunStep(events, tables, j);
    RunUnique(events, tables, j);
    StartMakesProgress(tables[j], interval, repeat, k, now);
    ProgressOverRun(events, tables, k, interval, repeat, 0, j + 1, n);
    ProgressMeans(tables[n], k, interval, repeat, 0 + RunCount(events, tables, k, j + 1, n));
  }

  lemma ApplyOne(t: Table, op: Op, now: int)
    ensures ApplyAll(t, [(op, now)]) == Apply(t, op, now)
  {
    hide Apply;
    assert [(op, now)][1..] == [];
  }

  /** A start inside a callback.  In any slot but the visited one the task has all its runs ahead of it; in the visited
      slot, its own or one that the callback has freed, the loop counts the run of the callback as the task's. */
  lemma CallbackStart(t: Table, i: nat, t1: int, first: seq<(Op, int)>, now: int, rest: seq<(Op, int)>, t2: int,
                      k: Key, interval: int, repeat: int)
    requires i < TASK_MAX && Due(t[i], t1) && k.fn != NULL && UniqueTasks(t)
    requires var u, start := ApplyAll(t, first), Start(interval, repeat, k.fn, k.arg);
      SlotFor(u, k) < TASK_MAX && AllUntouched(Apply(u, start, now), rest, k)
    ensures var ops := first + [(Start(interval, repeat, k.fn, k.arg), now)] + rest;
      Progress(Step(t, Visit(i, t1, ops, t2)), k, interval, repeat,
               if SlotFor(ApplyAll(t, first), k) == i then 1 else 0)
  {
    hide Apply, ApplyAll, AllUntouched, SlotFor;
    var start := Start(interval, repeat, k.fn, k.arg);
    var u := ApplyAll(t, first);
    var v := Apply(u, start, now);
    var ops := first + [(start, now)] + rest;
    ApplyAllJoin(t, first + [(start, now)], rest);
    ApplyAllJoin(t, first, [(start, now)]);
    ApplyOne(u, start, now);
    ApplyAllUnique(t, ops);
    StartAt(u, interval, repeat, k, now);
    AllUntouchedSame(v, rest, k);
    var w, j := ApplyAll(t, ops), SlotFor(u, k);
    assert w == ApplyAll(v, rest) && w[j] == v[j];
    var x := w[i := AfterRun(w[i], t2)];
    assert Step(t, Visit(i, t1, ops, t2)) == x;
    assert forall l :: 0 <= l < TASK_MAX && l != j ==> !Holds(w[l], k);
    assert w[j].count == 0 && w[j].repeat == repeat && w[j].duration == interval;
    if j != i {
      assert Holds(x[j], k) && x[j] == w[j];
    } else if repeat == REPEAT_FOREVER || 1 < Limit(repeat) {
      assert Holds(x[j], k) && x[j].count == 1 && x[j].repeat == repeat && x[j].duration == interval;
    } else {
      assert !Live(x, k);
    }
  }

  /** The exact count for a task started inside a callback: one run less if it was started in the visited slot, so that
      a task started there with repeat 1 is freed without ever running. */
  lemma RunsFromCallback(events: seq<Event>, tables: seq<Table>, k: Key, interval: int, repeat: int,
                         first: seq<(Op, int)>, now: int, rest: seq<(Op, int)>, j: nat, n: nat)
    requires IsRun(events, tables) && j < n <= |events| && k.fn != NULL && repeat != REPEAT_FOREVER
    requires events[j].Visit? && events[j].ops == first + [(Start(interval, repeat, k.fn, k.arg), now)] + rest
    requires events[j].i < TASK_MAX && Due(tables[j][events[j].i], events[j].t1)
    requires var u, start := ApplyAll(tables[j], first), Start(interval, repeat, k.fn, k.arg);
      SlotFor(u, k) < TASK_MAX && AllUntouched(Apply(u, start, now), rest, k)
    requires forall a :: j < a < n ==> WellTimed(events[a]) && LeavesAlone(tables[a], events[a], k)
    ensures var r := RunCount(events, tables, k, j + 1, n) +
      (if SlotFor(ApplyAll(tables[j], first), k) == events[j].i then 1 else 0);
      r <= Limit(repeat) && (Live(tables[n], k) <==> r < Limit(repeat))
  {
    hide IsRun, UniqueTasks, LeavesAlone, Apply, ApplyAll, AllUntouched, SlotFor, Step, Progress, Live, RunCount;
    RunStep(events, tables, j);
    RunUnique(events, tables, j);
    var e := events[j];
    CallbackStart(tables[j], e.i, e.t1, first, now, rest, e.t2, k, interval, repeat);
    var lost := if SlotFor(ApplyAll(tables[j], first), k) == e.i then 1 else 0;
    ProgressOverRun(events, tables, k, interval, repeat, lost, j + 1, n);
    ProgressMeans(tables[n], k, interval, repeat, lost + RunCount(events, tables, k, j + 1, n));
  }

  /** However task `k` was started, in a callback included: its slots have `repeat`, and after `r` runs at most
      the rest of them is left. */
  ghost predicate AtMost(t: Table, k: Key, repeat: int, r: nat) {
    && r <= Limit(repeat)
    && forall i :: 0 <= i < TASK_MAX && Holds(t[i], k) ==> t[i].repeat == repeat && r <= t[i].count && r < Limit(repeat)
  }

  lemma AtMostStep(t: Table, e: Event, k: Key, repeat: int, r: nat)
    requires UniqueTasks(t) && WellTimed(e) && LeavesAlone(t, e, k) && repeat != REPEAT_FOREVER
    requires AtMost(t, k, repeat, r)
    ensures AtMost(Step(t, e), k, repeat, if RunsTask(t, e, k) then r + 1 else r)
  {
    hide Apply, ApplyAll, AllUntouched, Untouched;
    match e {
      case External(op, now) => UntouchedSame(t, op, now, k);
      case Visit(i, t1, ops, t2) => if Due(t[i], t1) { AllUntouchedSame(t, ops, k); }
    }
  }

  /** From any point of a run on, a task with a finite repeat count that is left alone runs at most that often. */
  lemma {:induction false} NeverMoreThan(events: seq<Event>, tables: seq<Table>, k: Key, repeat: int, j: nat, n: nat)
    requires IsRun(events, tables) && j <= n <= |events| && repeat != REPEAT_FOREVER && AtMost(tables[j], k, repeat, 0)
    requires forall a :: j <= a < n ==> WellTimed(events[a]) && LeavesAlone(tables[a], events[a], k)
    ensures AtMost(tables[n], k, repeat, RunCount(events, tables, k, j, n))
    decreases n
  {
    hide Step, UniqueTasks, AtMost, LeavesAlone, RunsTask;
    if j < n {
      NeverMoreThan(events, tables, k, repeat, j, n - 1);
      RunUnique(events, tables, n - 1);
      AtMostStep(tables[n - 1], events[n - 1], k, repeat, RunCount(events, tables, k, j, n - 1));
    }
  }

  /** The smallest case: a one-shot task cancels itself in its callback and starts a one-shot task `g`, which takes the
      same slot and is freed by the loop before it has run. */
  lemma StartedNeverRuns(t: Table, f: Key, g: Key, t1: int, t2: int)
    requires f.fn != NULL && g.fn != NULL && f != g && Holds(t[0], f) && Due(t[0], t1) && t1 <= t2
    requires forall i :: 1 <= i < TASK_MAX ==> t[i].fn == NULL
    ensures var e := Visit(0, t1, [(Cancel(0), t1), (Start(0, 1, g.fn, g.arg), t1)], t2);
      Live(ApplyAll(t, e.ops), g) && !Live(Step(t, e), g) && !RunsTask(t, e, g)
  {
    hide FindTask, FindFree, ApplyAll;
    var cancel, start := (Cancel(0), t1), (Start(0, 1, g.fn, g.arg), t1);
    var u := Apply(t, Cancel(0), t1);
    ApplyAllJoin(t, [cancel], [start]);
    assert [cancel] + [start] == [cancel, start];
    ApplyOne(t, Cancel(0), t1);
    ApplyOne(u, Start(0, 1, g.fn, g.arg), t1);
    FindFreeStep(u, 0);
    var v := Apply(u, Start(0, 1, g.fn, g.arg), t1);
    assert FindTask(u, g.fn, g.arg, 0) == TASK_MAX;
    assert v[0] == Slot(g.fn, g.arg, 0, 1, 0, 0, t1);
    assert Holds(v[0], g);
  }

  // ----- when a task runs -------------------------------------------------------------------------------------

  /** When the timer of `k` was last started: the time of its last run since event `j`, `base` if there is none. */
  function LastReset(events: seq<Event>, tables: seq<Table>, k: Key, base: int, j: nat, n: nat): int
    requires j <= n <= |events| && |tables| == |events| + 1
  {
    if n == j then base
    else if RunsTask(tables[n - 1], events[n - 1], k) then End(events[n - 1])
    else LastReset(events, tables, k, base, j, n - 1)
  }

  /** A start gives a new task the time of the start; a task that is already live keeps its timer. */
  lemma TimerAtStart(t: Table, interval: int, repeat: int, k: Key, now: int)
    requires k.fn != NULL && SlotFor(t, k) < TASK_MAX
    ensures var i := SlotFor(t, k);
      Apply(t, Start(interval, repeat, k.fn, k.arg), now)[i].start == if Live(t, k) then t[i].start else now
  {
    hide FindTask, FindFree;
  }

  /** A task that is left alone keeps its slot, its interval and its timer except for its own runs. */
  lemma TimerStep(t: Table, e: Event, k: Key, i: nat, interval: int, start: int)
    requires UniqueTasks(t) && WellTimed(e) && LeavesAlone(t, e, k) && i < TASK_MAX
    requires Live(t, k) ==> Holds(t[i], k) && t[i].duration == interval && t[i].start == start
    ensures var u := Step(t, e);
      Live(u, k) ==>
        && Live(t, k) && Holds(u[i], k) && u[i].duration == interval
        && u[i].start == if RunsTask(t, e, k) then End(e) else start
  {
    hide Apply, ApplyAll, AllUntouched, Untouched;
    match e {
      case External(op, now) => UntouchedSame(t, op, now, k);
      case Visit(j, t1, ops, t2) => if Due(t[j], t1) { AllUntouchedSame(t, ops, k); }
    }
  }

  /** In any run a task that is left alone runs exactly at those visits of its slot that come at least its interval
      after its last run, or after its start, for as long as it is live. */
  lemma {:induction false} RunsWhenDue(events: seq<Event>, tables: seq<Table>, k: Key, i: nat, j: nat, n: nat)
    requires IsRun(events, tables) && j <= n <= |events| && i < TASK_MAX && Holds(tables[j][i], k)
    requires forall a :: j <= a < n ==> WellTimed(events[a]) && LeavesAlone(tables[a], events[a], k)
    ensures var reset := LastReset(events, tables, k, tables[j][i].start, j, n);
      && (Live(tables[n], k) ==>
            Holds(tables[n][i], k) && tables[n][i].duration == tables[j][i].duration && tables[n][i].start == reset)
      && (n < |events| ==>
            (RunsTask(tables[n], events[n], k) <==>
               Live(tables[n], k) && events[n].Visit? && events[n].i == i
               && events[n].t1 - reset >= tables[j][i].duration))
    decreases n
  {
    hide Step, LeavesAlone;
    RunUnique(events, tables, n);
    if j < n {
      RunsWhenDue(events, tables, k, i, j, n - 1);
      RunUnique(events, tables, n - 1);
      var reset := LastReset(events, tables, k, tables[j][i].start, j, n - 1);
      TimerStep(tables[n - 1], events[n - 1], k, i, tables[j][i].duration, reset);
    }
  }

  // ----- cancellation -----------------------------------------------------------------------------------------

  /** Cancelling the slot of a task, or its function, leaves no live slot of it. */
  lemma CancelEnds(t: Table, k: Key, op: Op, now: int)
    requires UniqueTasks(t) && k.fn != NULL
    requires (op.Cancel? && op.id < TASK_MAX && Holds(t[op.id], k)) || op == CancelAll(k.fn)
    ensures !Live(Apply(t, op, now), k)
  {
  }

  /** The event contains no start of `k`, in a callback or from outside. */
  ghost predicate NoStart(e: Event, k: Key) {
    match e
    case External(op, _) => !Starts(op, k)
    case Visit(_, _, ops, _) => forall j :: 0 <= j < |ops| ==> !Starts(ops[j].0, k)
  }

  lemma DeadStep(t: Table, e: Event, k: Key)
    requires WellTimed(e) && NoStart(e, k) && !Live(t, k)
    ensures !RunsTask(t, e, k) && !Live(Step(t, e), k)
  {
    hide Apply, ApplyAll;
    match e {
      case External(op, now) => ApplyTraced(t, op, now, k, now);
      case Visit(i, t1, ops, t2) => ApplyAllTraced(t, ops, k, t1);
    }
  }

  /** A task that is not live does not run again unless it is started again. */
  lemma {:induction false} CancelledStays(events: seq<Event>, tables: seq<Table>, k: Key, j: nat, n: nat)
    requires IsRun(events, tables) && j <= n <= |events| && !Live(tables[j], k)
    requires forall a :: j <= a < n ==> NoStart(events[a], k)
    ensures !Live(tables[n], k) && forall a :: j <= a < n ==> !RunsTask(tables[a], events[a], k)
    decreases n
  {
    hide Step, NoStart, RunsTask, Live;
    if j < n {
      CancelledStays(events, tables, k, j, n - 1);
      assert WellTimed(events[n - 1]) && NoStart(events[n - 1], k);
      DeadStep(tables[n - 1], events[n - 1], k);
    }
  }

  /** The same when a callback, even its own, cancels a task and does not start it again: after the event it is
      gone, whatever the loop does to the slot. */
  lemma CancelledInCallback(t: Table, i: nat, t1: int, first: seq<(Op, int)>, rest: seq<(Op, int)>, t2: int, k: Key)
    requires i < TASK_MAX && Due(t[i], t1) && !Live(ApplyAll(t, first), k)
    requires forall j :: 0 <= j < |rest| ==> !Starts(rest[j].0, k) && t1 <= rest[j].1
    ensures !Live(Step(t, Visit(i, t1, first + rest, t2)), k)
  {
    hide Apply, ApplyAll;
    ApplyAllJoin(t, first, rest);
    ApplyAllTraced(ApplyAll(t, first), rest, k, t1);
  }

  // ----- the object ---------------------------------------------------------------------------------------------

  /** What the environment does while one slot is visited. */
  datatype Turn = Turn(t1: int, ops: seq<(Op, int)>, t2: int)

  /** The table after the process loop has visited the slots below `n`. */
  function Pass(t: Table, turns: seq<Turn>, n: nat): Table
    requires n <= TASK_MAX == |turns|
  {
    if n == 0 then t
    else Step(Pass(t, turns, n - 1), Visit(n - 1, turns[n - 1].t1, turns[n - 1].ops, turns[n - 1].t2))
  }

  /** A pass as events and tables. */
  function PassEvents(turns: seq<Turn>): seq<Event> {
    seq(|turns|, i requires 0 <= i < |turns| => Visit(i, turns[i].t1, turns[i].ops, turns[i].t2))
  }

  function PassTables(t: Table, turns: seq<Turn>): seq<Table>
    requires |turns| == TASK_MAX
  {
    seq(TASK_MAX + 1, i requires 0 <= i <= TASK_MAX => Pass(t, turns, i))
  }

  /** The clock does not go back within a pass. */
  ghost predicate Timed(turns: seq<Turn>) {
    && (forall i, j :: 0 <= i < j < |turns| ==> turns[i].t2 <= turns[j].t1)
    && forall i :: 0 <= i < |turns| ==>
         turns[i].t1 <= turns[i].t2 && forall j :: 0 <= j < |turns[i].ops| ==>
           turns[i].t1 <= turns[i].ops[j].1 <= turns[i].t2
  }

  /** A pass is a run of 48 visits, of each slot once and in order. */
  lemma PassIsRun(t: Table, turns: seq<Turn>)
    requires UniqueTasks(t) && |turns| == TASK_MAX && Timed(turns)
    ensures var events, tables := PassEvents(turns), PassTables(t, turns);
      && IsRun(events, tables) && |events| == 48 && tables[0] == t && tables[48] == Pass(t, turns, 48)
      && forall i :: 0 <= i < 48 ==> events[i].Visit? && events[i].i == i
  {
    hide Step, UniqueTasks;
  }

  /** A visit of another slot. */
  lemma OtherVisit(t: Table, e: Event, k: Key, i: nat)
    requires UniqueTasks(t) && e.Visit? && e.i < TASK_MAX && i < TASK_MAX && e.i != i && Holds(t[i], k)
    requires LeavesAlone(t, e, k)
    ensures Step(t, e)[i] == t[i] && !RunsTask(t, e, k)
  {
    hide Apply, ApplyAll, AllUntouched;
    if Due(t[e.i], e.t1) { AllUntouchedSame(t, e.ops, k); }
  }

  /** The visit of the slot of `k`. */
  lemma OwnVisit(t: Table, e: Event, k: Key, i: nat)
    requires UniqueTasks(t) && e.Visit? && e.i == i < TASK_MAX && Holds(t[i], k) && LeavesAlone(t, e, k)
    ensures RunsTask(t, e, k) <==> e.t1 - t[i].start >= t[i].duration
    ensures var s, u := t[i], Step(t, e);
      if e.t1 - s.start < s.duration then u == t
      else if s.count < s.repeat - 1 || s.repeat == 0xFFFF then u[i] == s.(count := s.count + 1, start := e.t2)
      else !Live(u, k)
  {
    hide Apply, ApplyAll, AllUntouched;
    if Due(t[i], e.t1) { AllUntouchedSame(t, e.ops, k); }
  }

  lemma DeadVisit(t: Table, e: Event, k: Key)
    requires e.Visit? && e.i < TASK_MAX && LeavesAlone(t, e, k) && !Live(t, k)
    ensures !Live(Step(t, e), k) && !RunsTask(t, e, k)
  {
    hide Apply, ApplyAll, AllUntouched;
    if Due(t[e.i], e.t1) { AllUntouchedSame(t, e.ops, k); }
  }

  /** What the first `n` visits of a pass have done to slot `i`, which held task `k`. */
  ghost predicate Visited(t: Table, turns: seq<Turn>, k: Key, i: nat, n: nat)
    requires |turns| == TASK_MAX && i < TASK_MAX && n <= TASK_MAX
  {
    var events, tables, s, u := PassEvents(turns), PassTables(t, turns), t[i], Pass(t, turns, n);
    if n <= i || turns[i].t1 - s.start < s.duration then
      RunCount(events, tables, k, 0, n) == 0 && u[i] == s
    else
      && RunCount(events, tables, k, 0, n) == 1
      && if s.count < s.repeat - 1 || s.repeat == 0xFFFF
         then u[i] == s.(count := s.count + 1, start := turns[i].t2)
         else !Live(u, k)
  }

  lemma PassStep(t: Table, turns: seq<Turn>, k: Key, n: nat)
    requires |turns| == TASK_MAX && n < TASK_MAX
    ensures var e, u := PassEvents(turns)[n], Pass(t, turns, n);
      && e == Visit(n, turns[n].t1, turns[n].ops, turns[n].t2) && Pass(t, turns, n + 1) == Step(u, e)
      && RunCount(PassEvents(turns), PassTables(t, turns), k, 0, n + 1) ==
         RunCount(PassEvents(turns), PassTables(t, turns), k, 0, n) + if RunsTask(u, e, k) then 1 else 0
  {
    hide Step, RunsTask;
  }

  lemma {:induction false} VisitedSlots(t: Table, turns: seq<Turn>, k: Key, i: nat, n: nat)
    requires UniqueTasks(t) && |turns| == TASK_MAX && i < TASK_MAX && Holds(t[i], k) && n <= TASK_MAX
    requires forall a :: 0 <= a < TASK_MAX ==> LeavesAlone(Pass(t, turns, a), PassEvents(turns)[a], k)
    ensures UniqueTasks(Pass(t, turns, n)) && Visited(t, turns, k, i, n)
    decreases n
  {
    if n > 0 {
      VisitedSlots(t, turns, k, i, n - 1);
      var e, u := PassEvents(turns)[n - 1], Pass(t, turns, n - 1);
      PassStep(t, turns, k, n - 1);
      hide Step, UniqueTasks, RunsTask, LeavesAlone, RunCount, Pass, PassTables;
      StepUnique(u, e);
      assert LeavesAlone(u, e, k);
      if n - 1 == i {
        OwnVisit(u, e, k, i);
      } else if Holds(u[i], k) {
        OtherVisit(u, e, k, i);
      } else {
        DeadVisit(u, e, k);
      }
    }
  }

  /** A live task that the callbacks leave alone runs once in a pass if its interval has elapsed when its slot is
      visited, and not at all otherwise; the pass counts the run and restarts the timer, or ends the task. */
  lemma {:induction false} DueRunsInPass(t: Table, turns: seq<Turn>, k: Key, i: nat)
    requires UniqueTasks(t) && |turns| == TASK_MAX && i < TASK_MAX && Holds(t[i], k)
    requires forall a :: 0 <= a < TASK_MAX ==> LeavesAlone(Pass(t, turns, a), PassEvents(turns)[a], k)
    ensures var runs := RunCount(PassEvents(turns), PassTables(t, turns), k, 0, TASK_MAX);
      var s, u := t[i], Pass(t, turns, TASK_MAX);
      if turns[i].t1 - s.start < s.duration then
        runs == 0 && u[i] == s
      else if s.count < s.repeat - 1 || s.repeat == 0xFFFF then
        runs == 1 && u[i] == s.(count := s.count + 1, start := turns[i].t2)
      else
        runs == 1 && !Live(u, k)
  {
    hide UniqueTasks, LeavesAlone, RunCount;
    VisitedSlots(t, turns, k, i, TASK_MAX);
  }

  /** A pass whose callbacks do nothing to the scheduler, slot by slot. */
  lemma {:induction false} QuietPass(t: Table, turns: seq<Turn>, n: nat)
    requires |turns| == TASK_MAX && n <= TASK_MAX && forall i :: 0 <= i < TASK_MAX ==> turns[i].ops == []
    ensures forall i :: n <= i < TASK_MAX ==> Pass(t, turns, n)[i] == t[i]
    ensures forall i :: 0 <= i < n ==>
      var s := t[i];
      Pass(t, turns, n)[i] ==
        if s.fn == 0 || turns[i].t1 - s.start < s.duration then s
        else if s.count < s.repeat - 1 || s.repeat == 0xFFFF then s.(count := s.count + 1, start := turns[i].t2)
        else s.(fn := 0, arg := 0)
    decreases n
  {
    if n > 0 {
      QuietPass(t, turns, n - 1);
    }
  }

  class Sch {
    const tasks: array<Slot>

    ghost predicate Valid() {
      tasks.Length == TASK_MAX
    }

    constructor ()
      ensures Valid() && fresh(tasks) && UniqueTasks(tasks[..]) && forall k :: !Live(tasks[..], k)
    {
      tasks := new Slot[TASK_MAX](_ => Slot(NULL, 0, 0, 0, 0, 0, 0));
    }

    /** Updates the slot of the same task, else takes the first free one; -1 when there is none. */
    method StartTask(interval: int, repeat: int, fn: nat, arg: nat, now: int) returns (r: int)
      requires Valid()
      modifies tasks
      ensures tasks[..] == Apply(old(tasks[..]), Start(interval, repeat, fn, arg), now)
      ensures r == -1 <==> FindTask(old(tasks[..]), fn, arg, 0) == TASK_MAX && FindFree(old(tasks[..]), 0) == TASK_MAX
      ensures r != -1 ==> 0 <= r < TASK_MAX && tasks[r].fn == fn && tasks[r].arg == arg && tasks[r].duration == interval
    {
      hide FindTask, FindFree;
      ghost var t := tasks[..];
      for i := 0 to TASK_MAX
        invariant tasks[..] == t && FindTask(t, fn, arg, 0) == FindTask(t, fn, arg, i)
      {
        FindTaskStep(t, fn, arg, i);
        assert t[i] == tasks[i];
        if tasks[i].fn == fn && tasks[i].arg == arg {
          tasks[i] := tasks[i].(interval := interval, repeat := repeat, count := 0, duration := interval);
          assert tasks[..] == t[i := tasks[i]];
          return i;
        }
      }
      for i := 0 to TASK_MAX
        invariant tasks[..] == t && FindFree(t, 0) == FindFree(t, i)
      {
        FindFreeStep(t, i);
        assert t[i] == tasks[i];
        if tasks[i].fn == NULL {
          tasks[i] := Slot(fn, arg, interval, repeat, 0, interval, now);
          assert tasks[..] == t[i := tasks[i]];
          return i;
        }
      }
      return -1;
    }

    method CancelTask(id: nat) returns (r: int)
      requires Valid()
      modifies tasks
      ensures forall now :: tasks[..] == Apply(old(tasks[..]), Cancel(id), now)
      ensures r == if id < TASK_MAX then 0 else -1
    {
      if id >= TASK_MAX {
        return -1;
      }
      tasks[id] := Freed(tasks[id]);
      assert tasks[..] == old(tasks[..])[id := tasks[id]];
      return 0;
    }

    method CancelTasks(fn: nat) returns (r: int)
      requires Valid()
      modifies tasks
      ensures forall now :: tasks[..] == Apply(old(tasks[..]), CancelAll(fn), now)
      ensures r == if fn == NULL then -1 else 0
    {
      if fn == NULL {
        return -1;
      }
      for i := 0 to TASK_MAX
        invariant forall j :: 0 <= j < i ==>
          tasks[j] == if old(tasks[j]).fn == fn then Freed(old(tasks[j])) else old(tasks[j])
        invariant forall j :: i <= j < TASK_MAX ==> tasks[j] == old(tasks[j])
      {
        if tasks[i].fn == fn {
          tasks[i] := Freed(tasks[i]);
        }
      }
      return 0;
    }

    /** A callback, as the operations it performs on this scheduler. */
    method Callback(ops: seq<(Op, int)>)
      requires Valid()
      modifies tasks
      ensures tasks[..] == ApplyAll(old(tasks[..]), ops)
      decreases |ops|
    {
      if ops != [] {
        match ops[0].0 {
          case Start(interval, repeat, fn, arg) => var _ := StartTask(interval, repeat, fn, arg, ops[0].1);
          case Cancel(id) => var _ := CancelTask(id);
          case CancelAll(fn) => var _ := CancelTasks(fn);
        }
        assert tasks[..] == Apply(old(tasks[..]), ops[0].0, ops[0].1);
        Callback(ops[1..]);
      }
    }

    /** `sm_sch_process`: one pass over the slots in order. */
    method ProcessAll(turns: seq<Turn>)
      requires Valid() && |turns| == TASK_MAX
      modifies tasks
      ensures tasks[..] == Pass(old(tasks[..]), turns, TASK_MAX)
    {
      hide Apply, ApplyAll;
      for i := 0 to TASK_MAX
        invariant tasks[..] == Pass(old(tasks[..]), turns, i)
      {
        ghost var t := tasks[..];
        if turns[i].t1 - tasks[i].start >= tasks[i].duration && tasks[i].fn != NULL {
          Callback(turns[i].ops);
          ghost var u := tasks[..];
          if tasks[i].count < tasks[i].repeat - 1 || tasks[i].repeat == REPEAT_FOREVER {
            tasks[i] := tasks[i].(count := tasks[i].count + 1, start := turns[i].t2);
          } else {
            tasks[i] := tasks[i].(fn := NULL, arg := 0);
          }
          assert tasks[..] == u[i := AfterRun(u[i], turns[i].t2)];
        }
      }
    }
  }
}
