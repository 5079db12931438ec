// The inactive-mode machine of ev-sdk/apps/hmi/sm_ev_inactive_mode.c over the option
// record of OptStore: a vehicle that loses its network connection is made inactive
// after a distance, and stays so, across reboots, until it is reset.
module InactiveMode {
  import opened Words

  import ConfigStore
  import OptStore

  const EV_ACTIVE_STATE: Int32 := 1
  const EV_INACTIVE_STATE: Int32 := 0
  const KM_TO_M: int := 1000

  /** `m_lost_connection`, and the events of the network monitor. */
  datatype Net = ResetConnection | LostConnection | RecoveredConnection

  /** Odometer readings that fit an int32_t. */
  type Odo = x: int | 0 <= x < 0x8000_0000

  datatype Config = Config(kmWarning: nat, kmForceStop: nat)

  /** RAM state, the flash bytes of the option record, and the odometer. */
  datatype Vehicle = Vehicle(active: bool, odoStart: int, lost: Net, image: seq<Byte>, odo: Odo)

  /** What can happen; `io` is what the flash driver does with a store that the event may cause, `readOk` whether
      power-up can read the record. */
  datatype Event =
    | Reboot(readOk: bool, io: OptStore.Io)
    | NetState(net: Net, io: OptStore.Io)
    | Tick(io: OptStore.Io)
    | Reset(io: OptStore.Io)
    | Drive(odo: Odo)
    | OtherStore(op: OptStore.Op)

  /** Other users of the option record store other fields and do not clear it. */
  predicate Allowed(e: Event) {
    e.OtherStore? ==> OptStore.Fits(e.op) && !e.op.StoreInactiveMode? && !e.op.Clear?
  }

  /** Another user's store could not read the record and so resets the inactive mode in flash. */
  predicate Forgets(e: Event) {
    e.OtherStore? && OptStore.Forgets(e.op)
  }

  predicate Sized(v: Vehicle) {
    |v.image| == OptStore.STORAGE_SIZE
  }

  /** The stored state and odometer. */
  function StoredMode(v: Vehicle): Int32
    requires Sized(v)
  {
    OptStore.Stored(v.image).inactiveMode
  }

  function Store(v: Vehicle, mode: Int32, odo: Uint32, io: OptStore.Io): (w: Vehicle)
    requires Sized(v)
    ensures Sized(w)
  {
    v.(image := OptStore.Apply(v.image, OptStore.StoreInactiveMode(mode, odo, io)))
  }

  /** `sm_inactive_mode_create` after a power-up: the RAM state is new, the record decides; a record that cannot be
      read is taken for an empty one. */
  function Create(v: Vehicle, readOk: bool, io: OptStore.Io): (w: Vehicle)
    requires Sized(v)
    ensures Sized(w)
  {
    var o := if readOk then OptStore.Stored(v.image) else OptStore.Defaults();
    if o.inactiveMode < 0 then
      Store(v.(active := true, odoStart := 0, lost := ResetConnection), EV_ACTIVE_STATE, 0, io)
    else
      v.(active := o.inactiveMode != EV_INACTIVE_STATE, odoStart := OptStore.ToSigned(o.inactiveOdo),
         lost := ResetConnection)
  }

  function UpdateNetState(v: Vehicle, net: Net, io: OptStore.Io): (w: Vehicle)
    requires Sized(v)
    ensures Sized(w)
  {
    if !v.active then v
    else if net.LostConnection? && v.lost.ResetConnection? then v.(lost := LostConnection, odoStart := v.odo)
    else if net.LostConnection? && !v.lost.LostConnection? then
      var w := Store(v.(odoStart := v.odo), EV_ACTIVE_STATE, v.odo, io);
      if io.WriteFailed? then w else w.(lost := LostConnection)
    else if net.RecoveredConnection? && !v.lost.RecoveredConnection? then
      v.(odoStart := 0, lost := RecoveredConnection)
    else v
  }

  /** The vehicle has gone far enough since the loss was recorded. */
  predicate Due(v: Vehicle, km: nat) {
    v.lost.LostConnection? && v.odo - v.odoStart > 0 && v.odo - v.odoStart >= km * KM_TO_M
  }

  function Process(v: Vehicle, config: Config, io: OptStore.Io): (w: Vehicle)
    requires Sized(v)
    ensures Sized(w)
  {
    if v.active && Due(v, config.kmForceStop) then
      var w := Store(v, EV_INACTIVE_STATE, v.odo, io);
      if io.WriteFailed? then w else w.(active := false, odoStart := v.odo)
    else v
  }

  function ResetMode(v: Vehicle, io: OptStore.Io): (w: Vehicle)
    requires Sized(v)
    ensures Sized(w)
  {
    var w := Store(v, EV_ACTIVE_STATE, 0, io);
    if io.WriteFailed? then w else w.(active := true, odoStart := 0, lost := RecoveredConnection)
  }

  function Step(v: Vehicle, config: Config, e: Event): (w: Vehicle)
    requires Sized(v) && Allowed(e)
    ensures Sized(w)
  {
    match e
    case Reboot(readOk, io) => Create(v, readOk, io)
    case NetState(net, io) => UpdateNetState(v, net, io)
    case Tick(io) => Process(v, config, io)
    case Reset(io) => ResetMode(v, io)
    case Drive(odo) => v.(odo := odo)
    case OtherStore(op) => v.(image := OptStore.Apply(v.image, op))
  }

  // ----- the flash agrees with the RAM --------------------------------------------------------

  /** The vehicle is inactive exactly when the record says so. */
  ghost predicate Consistent(v: Vehicle) {
    Sized(v) && (v.active <==> StoredMode(v) != EV_INACTIVE_STATE)
  }

  lemma StoreMode(v: Vehicle, mode: Int32, odo: Uint32, io: OptStore.Io)
    requires Sized(v)
    ensures StoredMode(Store(v, mode, odo, io)) == if io.WriteFailed? then StoredMode(v) else mode
  {
    hide OptStore.Stored, OptStore.Apply;
    OptStore.ApplyStored(v.image, OptStore.StoreInactiveMode(mode, odo, io));
  }

  /** The stored mode after an event. */
  lemma StepMode(v: Vehicle, config: Config, e: Event)
    requires Sized(v) && Allowed(e)
    ensures var w, was, now := Step(v, config, e), StoredMode(v), StoredMode(Step(v, config, e));
      match e
      case Reboot(readOk, io) =>
        && w.active == (!readOk || was != EV_INACTIVE_STATE) && w.lost.ResetConnection?
        && now == (if (readOk && was >= 0) || io.WriteFailed? then was else EV_ACTIVE_STATE)
      case NetState(_, _) => w.active == v.active && (now == was || (v.active && now == EV_ACTIVE_STATE))
      case Tick(io) =>
        if w.active == v.active then now == was
        else v.active && now == EV_INACTIVE_STATE && Due(v, config.kmForceStop)
      case Reset(io) =>
        if io.WriteFailed? then w.active == v.active && now == was else w.active && now == EV_ACTIVE_STATE
      case Drive(_) => w.active == v.active && now == was
      case OtherStore(op) =>
        w.active == v.active && now == if Forgets(e) then OptStore.Defaults().inactiveMode else was
  {
    hide OptStore.Stored, OptStore.Apply;
    match e {
      case Reboot(_, io) =>
        StoreMode(v.(active := true, odoStart := 0, lost := ResetConnection), EV_ACTIVE_STATE, 0, io);
      case NetState(_, io) => StoreMode(v.(odoStart := v.odo), EV_ACTIVE_STATE, v.odo, io);
      case Tick(io) => StoreMode(v, EV_INACTIVE_STATE, v.odo, io);
      case Reset(io) => StoreMode(v, EV_ACTIVE_STATE, 0, io);
      case Drive(_) =>
      case OtherStore(op) => OptStore.ApplyStored(v.image, op);
    }
  }

  /** The odometer in the record: where the vehicle was when it became inactive, or when a recovered connection was lost
      again; 0 after a reset. */
  lemma StoredOdometer(v: Vehicle, config: Config, e: Event)
    requires Sized(v) && Allowed(e)
    ensures var w, was := Step(v, config, e), OptStore.Stored(v.image);
      OptStore.Stored(w.image).inactiveOdo ==
        match e
        case Reboot(readOk, io) => if (readOk && was.inactiveMode >= 0) || io.WriteFailed? then was.inactiveOdo else 0
        case NetState(net, io) =>
          if v.active && net.LostConnection? && v.lost.RecoveredConnection? && !io.WriteFailed? then v.odo
          else was.inactiveOdo
        case Tick(_) => if v.active && !w.active then v.odo else was.inactiveOdo
        case Reset(io) => if io.WriteFailed? then was.inactiveOdo else 0
        case Drive(_) => was.inactiveOdo
        case OtherStore(_) => if Forgets(e) then 0 else was.inactiveOdo
  {
    hide OptStore.Stored, OptStore.Apply;
    match e {
      case Reboot(_, io) => OptStore.ApplyStored(v.image, OptStore.StoreInactiveMode(EV_ACTIVE_STATE, 0, io));
      case NetState(_, io) => OptStore.ApplyStored(v.image, OptStore.StoreInactiveMode(EV_ACTIVE_STATE, v.odo, io));
      case Tick(io) => OptStore.ApplyStored(v.image, OptStore.StoreInactiveMode(EV_INACTIVE_STATE, v.odo, io));
      case Reset(io) => OptStore.ApplyStored(v.image, OptStore.StoreInactiveMode(EV_ACTIVE_STATE, 0, io));
      case Drive(_) =>
      case OtherStore(op) => OptStore.ApplyStored(v.image, op);
    }
  }

  /** A reboot makes them agree from any flash content, and every event keeps it so, unless the record is inactive and
      cannot be read: at a reboot that cannot repair it either, or by another user whose store resets it. */
  lemma StepConsistent(v: Vehicle, config: Config, e: Event)
    requires Sized(v) && Allowed(e) && (e.Reboot? || Consistent(v))
    ensures Consistent(Step(v, config, e)) <==>
      !(StoredMode(v) == EV_INACTIVE_STATE && (e == Reboot(false, OptStore.WriteFailed) || Forgets(e)))
  {
    hide OptStore.Stored, OptStore.Apply;
    StepMode(v, config, e);
  }

  // ----- runs ---------------------------------------------------------------------------------------

  /** The states of a run: the first boot, then the events. */
  ghost predicate IsRun(config: Config, events: seq<Event>, states: seq<Vehicle>) {
    && |states| == |events| + 1
    && Consistent(states[0]) && states[0].lost.ResetConnection?
    && (forall i :: 0 <= i < |events| ==> Allowed(events[i]) && Sized(states[i]))
    && (forall i :: 0 <= i < |events| ==> states[i + 1] == Step(states[i], config, events[i]))
  }

  lemma RunLength(config: Config, events: seq<Event>, states: seq<Vehicle>)
    requires IsRun(config, events, states)
    ensures |states| == |events| + 1
  {
  }

  lemma RunStep(config: Config, events: seq<Event>, states: seq<Vehicle>, i: nat)
    requires IsRun(config, events, states) && i < |events|
    ensures Allowed(events[i]) && Sized(states[i]) && states[i + 1] == Step(states[i], config, events[i])
    ensures Sized(states[i + 1])
  {
    hide Step, OptStore.Stored, OptStore.Apply;
  }

  /** Between `j` and `n` another user's store has reset the record. */
  ghost predicate Forgotten(events: seq<Event>, j: nat, n: nat)
    requires n <= |events|
  {
    exists l :: j <= l < n && Forgets(events[l])
  }

  /** Every reboot between `j` and `n` can read the record and finds it as it was at `j`. */
  ghost predicate BootsRead(events: seq<Event>, j: nat, n: nat)
    requires n <= |events|
  {
    forall i: nat :: j <= i < n && events[i].Reboot? ==> events[i].readOk && !Forgotten(events, j, i)
  }

  ghost predicate InactiveFrom(states: seq<Vehicle>, j: nat, n: nat)
    requires n < |states|
  {
    forall i :: j <= i <= n ==> !states[i].active
  }

  /** Once inactive, the vehicle stays inactive until a reset succeeds exactly if every reboot can read the record and
      no store of another user has reset it before. */
  lemma {:induction false} StaysInactive(config: Config, events: seq<Event>, states: seq<Vehicle>, j: nat, n: nat)
    requires IsRun(config, events, states) && j <= n <= |events|
    requires !states[j].active && Sized(states[j]) && StoredMode(states[j]) == EV_INACTIVE_STATE
    requires forall i :: j <= i < n && events[i].Reset? ==> events[i].io.WriteFailed?
    ensures InactiveFrom(states, j, n) <==> BootsRead(events, j, n)
    ensures Sized(states[n])
    ensures InactiveFrom(states, j, n) ==>
      StoredMode(states[n]) == if Forgotten(events, j, n) then OptStore.Defaults().inactiveMode else EV_INACTIVE_STATE
    decreases n - j
  {
    hide IsRun, Step, OptStore.Stored, OptStore.Apply;
    RunLength(config, events, states);
    if j < n {
      StaysInactive(config, events, states, j, n - 1);
      RunStep(config, events, states, n - 1);
      StepMode(states[n - 1], config, events[n - 1]);
      assert Forgotten(events, j, n) <==> Forgotten(events, j, n - 1) || Forgets(events[n - 1]);
      assert InactiveFrom(states, j, n) <==> InactiveFrom(states, j, n - 1) && !states[n].active;
      assert BootsRead(events, j, n) <==>
        (BootsRead(events, j, n - 1)
         && (events[n - 1].Reboot? ==> events[n - 1].readOk && !Forgotten(events, j, n - 1)));
    }
  }

  /** At step `j` the loss of the connection was recorded, and up to state `k` it was neither recovered nor
      forgotten. */
  ghost predicate LossSince(events: seq<Event>, states: seq<Vehicle>, j: nat, k: nat) {
    && j < k < |states| == |events| + 1
    && events[j].NetState? && events[j].net.LostConnection? && states[j].active && !states[j].lost.LostConnection?
    && forall i :: j < i <= k ==>
         states[i].active && states[i].lost.LostConnection? && states[i].odoStart == states[j].odo
  }

  /** An active vehicle that hears of a lost connection has the loss pending afterwards, exactly unless the connection
      had been recovered and the store failed; the distance counts from the first report. */
  lemma LossPending(v: Vehicle, config: Config, e: Event)
    requires Sized(v) && v.active && e.NetState? && e.net.LostConnection?
    ensures var w := Step(v, config, e);
      && (w.lost.LostConnection? <==> !(v.lost.RecoveredConnection? && e.io.WriteFailed?))
      && w.active && (v.lost.LostConnection? ==> w == v) && (!v.lost.LostConnection? ==> w.odoStart == v.odo)
  {
  }

  /** The state of the connection after every event: a reboot forgets it, a reset that succeeds counts as a recovery,
      and otherwise only reports to an active vehicle change it. */
  lemma ConnectionState(v: Vehicle, config: Config, e: Event)
    requires Sized(v) && Allowed(e)
    ensures Step(v, config, e).lost ==
      if e.Reboot? then ResetConnection
      else if e.Reset? && !e.io.WriteFailed? then RecoveredConnection
      else if !e.NetState? || !v.active || e.net.ResetConnection? then v.lost
      else if e.net.LostConnection? && v.lost.RecoveredConnection? && e.io.WriteFailed? then RecoveredConnection
      else e.net
  {
  }

  /** What ends a pending loss: the connection comes back, a reboot, a reset that succeeds, or a tick at the distance
      whose store succeeds. */
  predicate EndsLoss(v: Vehicle, config: Config, e: Event) {
    match e
    case Reboot(_, _) => true
    case NetState(net, _) => net.RecoveredConnection?
    case Tick(io) =>
      v.odo - v.odoStart > 0 && v.odo - v.odoStart >= config.kmForceStop * 1000 && !io.WriteFailed?
    case Reset(io) => !io.WriteFailed?
    case Drive(_) => false
    case OtherStore(_) => false
  }

  lemma LossKept(v: Vehicle, config: Config, e: Event)
    requires Sized(v) && Allowed(e) && v.active && v.lost.LostConnection?
    ensures var w := Step(v, config, e);
      && (w.active && w.lost.LostConnection? <==> !EndsLoss(v, config, e))
      && (!EndsLoss(v, config, e) ==> w.odoStart == v.odoStart)
      && (e.Tick? ==> (!w.active <==> EndsLoss(v, config, e)))
  {
    hide OptStore.Stored, OptStore.Apply;
  }

  /** A recorded loss stays pending exactly as long as nothing ends it. */
  lemma {:induction false} PendingUntil(config: Config, events: seq<Event>, states: seq<Vehicle>, j: nat, k: nat)
    requires IsRun(config, events, states) && j < k <= |events| && LossSince(events, states, j, j + 1)
    ensures LossSince(events, states, j, k) <==> forall i: nat :: j < i < k ==> !EndsLoss(states[i], config, events[i])
    decreases k
  {
    hide Step, OptStore.Stored, OptStore.Apply;
    if j + 1 < k {
      PendingUntil(config, events, states, j, k - 1);
      RunStep(config, events, states, k - 1);
      if LossSince(events, states, j, k - 1) {
        LossKept(states[k - 1], config, events[k - 1]);
      }
    }
  }

  /** A report of a lost connection to an active vehicle whose loss is not pending yet starts one, exactly unless the
      connection had been recovered and the store failed. */
  lemma LossStarts(config: Config, events: seq<Event>, states: seq<Vehicle>, j: nat)
    requires IsRun(config, events, states) && j < |events| && states[j].active && !states[j].lost.LostConnection?
    requires events[j].NetState? && events[j].net.LostConnection?
    ensures LossSince(events, states, j, j + 1) <==> !(states[j].lost.RecoveredConnection? && events[j].io.WriteFailed?)
  {
    hide Step, OptStore.Stored, OptStore.Apply;
    RunStep(config, events, states, j);
    LossPending(states[j], config, events[j]);
  }

  /** With a loss pending since `j`, a tick makes the vehicle inactive exactly if the vehicle has moved on since, by at
      least the configured distance, and the store succeeds. */
  lemma InactiveAtDistance(config: Config, events: seq<Event>, states: seq<Vehicle>, j: nat, k: nat)
    requires IsRun(config, events, states) && k < |events| && LossSince(events, states, j, k) && events[k].Tick?
    ensures var distance := states[k].odo - states[j].odo;
      !states[k + 1].active <==>
      distance > 0 && distance >= config.kmForceStop * 1000 && !events[k].io.WriteFailed?
  {
    hide Step, OptStore.Stored, OptStore.Apply;
    RunStep(config, events, states, k);
    LossKept(states[k], config, events[k]);
  }

  lemma {:induction false} LossRecorded(config: Config, events: seq<Event>, states: seq<Vehicle>, k: nat)
    returns (j: nat)
    requires IsRun(config, events, states) && k <= |events|
    requires states[k].active && states[k].lost.LostConnection?
    ensures LossSince(events, states, j, k)
    decreases k
  {
    hide OptStore.Stored, OptStore.Apply;
    var v, e := states[k - 1], events[k - 1];
    assert states[k] == Step(v, config, e);
    if v.active && v.lost.LostConnection? {
      j := LossRecorded(config, events, states, k - 1);
    } else {
      j := k - 1;
    }
  }

  /** At step `j` a reboot could neither read nor repair a record that says inactive, and up to state `k` the vehicle
      has been active with that record. */
  ghost predicate UnreadSince(events: seq<Event>, states: seq<Vehicle>, j: nat, k: nat) {
    && j < k < |states| == |events| + 1 && events[j] == Reboot(false, OptStore.WriteFailed)
    && forall i :: j < i <= k ==> states[i].active && Sized(states[i]) && StoredMode(states[i]) == EV_INACTIVE_STATE
  }

  lemma {:induction false} RecordUnread(config: Config, events: seq<Event>, states: seq<Vehicle>, k: nat)
    returns (j: nat)
    requires IsRun(config, events, states) && k <= |events|
    requires states[k].active && Sized(states[k]) && StoredMode(states[k]) == EV_INACTIVE_STATE
    ensures UnreadSince(events, states, j, k)
    decreases k
  {
    hide Step, OptStore.Stored, OptStore.Apply;
    RunStep(config, events, states, k - 1);
    StepMode(states[k - 1], config, events[k - 1]);
    if states[k - 1].active && StoredMode(states[k - 1]) == EV_INACTIVE_STATE && !events[k - 1].Reboot? {
      j := RecordUnread(config, events, states, k - 1);
    } else {
      j := k - 1;
    }
  }

  /** The vehicle becomes inactive on a tick, and only when it has gone at least the configured distance since the loss
      of the connection was recorded, in this same stretch of lost connection; or on a reboot that finds the inactive
      record that an earlier reboot could neither read nor repair. */
  lemma InactiveOnlyAfterDistance(config: Config, events: seq<Event>, states: seq<Vehicle>, k: nat) returns (j: nat)
    requires IsRun(config, events, states) && k < |events|
    requires states[k].active && !states[k + 1].active
    ensures (events[k].Tick? && LossSince(events, states, j, k)
             && states[k].odo - states[j].odo > 0
             && states[k].odo - states[j].odo >= config.kmForceStop * KM_TO_M)
      || (events[k].Reboot? && events[k].readOk && UnreadSince(events, states, j, k))
  {
    hide Step, OptStore.Stored, OptStore.Apply;
    RunStep(config, events, states, k);
    StepMode(states[k], config, events[k]);
    if events[k].Tick? {
      j := LossRecorded(config, events, states, k);
    } else {
      j := RecordUnread(config, events, states, k);
    }
  }

  /** A loss recorded before a reboot is forgotten: no reboot lies between a loss and what it leads to, so the distance
      counts from a loss recorded after the last reboot. */
  lemma RebootForgetsLoss(config: Config, events: seq<Event>, states: seq<Vehicle>, j: nat, k: nat)
    requires IsRun(config, events, states) && LossSince(events, states, j, k)
    ensures forall i :: 0 <= i < k && events[i].Reboot? ==> i < j && states[i + 1].lost.ResetConnection?
  {
    hide Step, OptStore.Stored, OptStore.Apply;
    forall i | 0 <= i < k && events[i].Reboot?
      ensures i < j && states[i + 1].lost.ResetConnection?
    {
      RunStep(config, events, states, i);
      StepMode(states[i], config, events[i]);
    }
  }

  // ----- the object ------------------------------------------------------------------------------------

  datatype Signal = InactiveReset | InactiveWarning | InactiveExecuted

  class Machine {
    const storage: OptStore.OptStorage
    const config: Config
    var active: bool        // m_active_state
    var odoStart: int       // m_odo_start
    var lost: Net           // m_lost_connection

    ghost function Abs(odo: Odo): Vehicle
      requires storage.Ready()
      reads this, storage
    {
      Vehicle(active, odoStart, lost, storage.Window(), odo)
    }

    /** Power-up. */
    constructor (s: OptStore.OptStorage, c: Config, readOk: bool, io: OptStore.Io, ghost before: Vehicle)
      requires s.Ready() && Sized(before) && before.image == s.Window()
      modifies s
      ensures storage == s && config == c && s.Ready()
      ensures Abs(before.odo) == Create(before, readOk, io)
    {
      hide OptStore.Stored, OptStore.Apply, ConfigStore.Splice;
      storage, config := s, c;
      lost := ResetConnection;
      new;
      var mode, odo := s.LoadInactiveMode(if readOk then OptStore.Done else OptStore.ReadFailed);
      if mode < 0 {
        active := true;
        odoStart := 0;
        var _ := s.StoreField(OptStore.StoreInactiveMode(EV_ACTIVE_STATE, 0, io));
      } else {
        active := mode != EV_INACTIVE_STATE;
        odoStart := OptStore.ToSigned(odo);
      }
    }

    /** `sm_inactive_mode_create`: power-up, and the signal for a vehicle that is inactive. */
    static method PowerUp(s: OptStore.OptStorage, c: Config, readOk: bool, io: OptStore.Io, ghost before: Vehicle)
      returns (m: Machine, signals: seq<Signal>)
      requires s.Ready() && Sized(before) && before.image == s.Window()
      modifies s
      ensures fresh(m) && m.storage == s && m.config == c && s.Ready()
      ensures m.Abs(before.odo) == Create(before, readOk, io)
      ensures signals == if readOk && StoredMode(before) == EV_INACTIVE_STATE then [InactiveExecuted] else []
    {
      hide OptStore.Stored, OptStore.Apply, ConfigStore.Splice;
      m := new Machine(s, c, readOk, io, before);
      signals := if m.active then [] else [InactiveExecuted];
    }

    method UpdateNet(net: Net, odo: Odo, io: OptStore.Io) returns (r: int, signals: seq<Signal>)
      requires storage.Ready()
      modifies this, storage
      ensures storage.Ready() && Abs(odo) == UpdateNetState(old(Abs(odo)), net, io)
      ensures r == if old(active) && net.LostConnection? && old(lost).RecoveredConnection? && io.WriteFailed?
        then -1 else 0
      ensures signals == if old(active) && net.RecoveredConnection? && !old(lost).RecoveredConnection?
        then [InactiveReset] else []
    {
      hide OptStore.Stored, OptStore.Apply, ConfigStore.Splice;
      r, signals := 0, [];
      if !active {
        return;
      }
      if net.LostConnection? && lost.ResetConnection? {
        lost := LostConnection;
        odoStart := odo;
        return;
      }
      if net.LostConnection? && !lost.LostConnection? {
        odoStart := odo;
        r := storage.StoreField(OptStore.StoreInactiveMode(EV_ACTIVE_STATE, odo, io));
        if r < 0 {
          return;
        }
        lost := LostConnection;
        return;
      }
      if net.RecoveredConnection? && !lost.RecoveredConnection? {
        odoStart := 0;
        lost := RecoveredConnection;
        signals := [InactiveReset];
      }
    }

    method ResetToActive(odo: Odo, io: OptStore.Io) returns (r: int, signals: seq<Signal>)
      requires storage.Ready()
      modifies this, storage
      ensures storage.Ready() && Abs(odo) == ResetMode(old(Abs(odo)), io)
      ensures (r == if io.WriteFailed? then -1 else 0) && signals == if io.WriteFailed? then [] else [InactiveReset]
    {
      hide OptStore.Stored, OptStore.Apply, ConfigStore.Splice;
      r := storage.StoreField(OptStore.StoreInactiveMode(EV_ACTIVE_STATE, 0, io));
      signals := [];
      if r < 0 {
        return;
      }
      active := true;
      odoStart := 0;
      lost := RecoveredConnection;
      signals := [InactiveReset];
    }

    /** The inactive signal is raised on exactly those ticks that find or leave the vehicle inactive, the warning
        before it exactly after its distance; -1 exactly when the state could not be stored. */
    method Poll(odo: Odo, io: OptStore.Io) returns (r: int, signals: seq<Signal>)
      requires storage.Ready()
      modifies this, storage
      ensures storage.Ready() && Abs(odo) == Process(old(Abs(odo)), config, io)
      ensures InactiveExecuted in signals <==> !active
      ensures signals ==
        (if old(active) && Due(old(Abs(odo)), config.kmWarning) then [InactiveWarning] else [])
        + (if !active then [InactiveExecuted] else [])
      ensures r == if old(active) && Due(old(Abs(odo)), config.kmForceStop) && io.WriteFailed? then -1 else 0
    {
      hide OptStore.Stored, OptStore.Apply, ConfigStore.Splice;
      r, signals := 0, [];
      if !active {
        signals := [InactiveExecuted];
        return;
      }
      if lost.LostConnection? {
        var distance := odo - odoStart;
        if distance > 0 && distance >= config.kmWarning * KM_TO_M {
          signals := [InactiveWarning];
        }
        if distance > 0 && distance >= config.kmForceStop * KM_TO_M {
          r := storage.StoreField(OptStore.StoreInactiveMode(EV_INACTIVE_STATE, odo, io));
          if r < 0 {
            return;
          }
          active := false;
          odoStart := odo;
          signals := signals + [InactiveExecuted];
        }
      }
    }
  }
}
