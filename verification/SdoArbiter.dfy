// The SDO request arbiter of ev-sdk/cores/inc/sm_core_co.c: a bounded queue of
// requests and one urgent slot share a single CANopen SDO client (the service of
// section 7.2.4 of CiA 301).
module SdoArbiter {
  import opened Optional
  import Fifo

  const QUEUE_LENGTH: nat := 10

  /** A transfer request; the object it addresses does not matter to the arbiter. */
  datatype Request = Request(id: nat, write: bool, hasCallback: bool)

  datatype Phase = SendRequest | WaitResult | EndRequest

  datatype Status = Idle | Busy | Success | Abort

  // ----- the protocol as a state machine ------------------------------------------------------

  /** The arbiter and its SDO client; `owner` is the request whose transfer the client runs. */
  datatype State = State(queue: seq<Request>, current: Request, urgent: Request, isUrgent: bool,
                         process: bool, phase: Phase, status: Status, owner: Request)
  {
    /** The request that the next step serves: the urgent one whenever there is one. */
    function Served(): Request {
      if isUrgent then urgent else current
    }
  }

  /** What can happen: a queued or an urgent request, progress of the client, or a process step, whose
      completion callback may itself ask for an urgent transfer. */
  datatype Event =
    | Send(r: Request)
    | SendNow(r: Request)
    | Client(result: Status)
    | Process(fromCallback: Option<Request>)

  /** The callback's urgent request is accepted, only to be cleared right after the callback. */
  predicate Overwrites(s: State, again: Option<Request>) {
    again.Some? && s.Served().hasCallback && !s.isUrgent
  }

  function Apply(s: State, e: Event): State {
    match e
    case Send(r) => if |s.queue| < QUEUE_LENGTH then s.(queue := s.queue + [r]) else s
    case SendNow(r) => if s.isUrgent then s else s.(urgent := r, isUrgent := true)
    case Client(result) => if s.status.Busy? && !result.Idle? then s.(status := result) else s
    case Process(again) =>
      if s.process then
        match s.phase
        case SendRequest => s.(status := Busy, owner := s.Served(), phase := WaitResult)
        case WaitResult => if s.status.Success? || s.status.Abort? then s.(phase := EndRequest) else s
        case EndRequest =>
          s.(status := Idle, process := false, isUrgent := false,
             urgent := if Overwrites(s, again) then again.value else s.urgent)
      else if s.isUrgent then s.(process := true, phase := SendRequest)
      else if s.queue != [] then s.(current := s.queue[0], queue := s.queue[1..], process := true, phase := SendRequest)
      else s
  }

  // ----- what has happened -----------------------------------------------------------------------

  /** A completion: the request that was called back, the status it got, and whose transfer that was.
      `late` marks an urgent request accepted while another transfer was already under way. */
  datatype Completion = Completion(req: Request, urgent: bool, late: bool, status: Status, owner: Request)

  datatype History = History(queued: seq<Request>, urgent: seq<Request>, completed: seq<Completion>,
                             displaced: seq<Request>, dropped: seq<Request>, late: bool)

  const NOTHING := History([], [], [], [], [], false)

  function Record(s: State, h: History, e: Event): History {
    match e
    case Send(r) => if |s.queue| < QUEUE_LENGTH then h.(queued := h.queued + [r]) else h
    case SendNow(r) =>
      if s.isUrgent then h
      else h.(urgent := h.urgent + [r], late := s.process && !s.phase.SendRequest?,
              displaced := if s.process then h.displaced + [s.current] else h.displaced)
    case Client(_) => h
    case Process(again) =>
      if s.process && s.phase.EndRequest? then
        var c := Completion(s.Served(), s.isUrgent, s.isUrgent && h.late, s.status, s.owner);
        var done := h.(completed := h.completed + [c]);
        if Overwrites(s, again)
        then done.(urgent := done.urgent + [again.value], dropped := done.dropped + [again.value])
        else done
      else h
  }

  predicate Initial(s: State) {
    s.queue == [] && !s.isUrgent && !s.process && s.status.Idle?
  }

  /** The state and the history after a run. */
  function Run(s: State, events: seq<Event>): (State, History)
  {
    if events == [] then (s, NOTHING)
    else
      var (t, h) := Run(s, events[..|events| - 1]);
      var e := events[|events| - 1];
      (Apply(t, e), Record(t, h, e))
  }

  function Requests(cs: seq<Completion>): (rs: seq<Request>)
    ensures |rs| == |cs|
  {
    seq(|cs|, i requires 0 <= i < |cs| => cs[i].req)
  }

  /** The requests of one kind among the completions, in order. */
  function OfKind(cs: seq<Completion>, urgent: bool): seq<Request> {
    if cs == [] then []
    else
      var last := cs[|cs| - 1];
      OfKind(cs[..|cs| - 1], urgent) + if last.urgent == urgent then [last.req] else []
  }

  // ----- conservation -------------------------------------------------------------------------------

  /** The urgent request waiting or being served. */
  function UrgentPart(s: State): seq<Request> {
    if s.isUrgent then [s.urgent] else []
  }

  /** The queued request in flight, unless an urgent one has taken its place. */
  function InFlight(s: State): seq<Request> {
    if s.process && !s.isUrgent then [s.current] else []
  }

  /** How often `r` occurs. */
  function Count(rs: seq<Request>, r: Request): nat {
    multiset(rs)[r]
  }

  ghost predicate Conserved(s: State, h: History) {
    forall r :: Count(h.queued, r) + Count(h.urgent, r) ==
      Count(Requests(h.completed), r) + Count(s.queue, r) + Count(UrgentPart(s), r) + Count(InFlight(s), r)
      + Count(h.displaced, r) + Count(h.dropped, r)
  }

  lemma CountJoin(a: seq<Request>, b: seq<Request>, r: Request)
    ensures Count(a + b, r) == Count(a, r) + Count(b, r)
  {
    assert multiset(a + b) == multiset(a) + multiset(b);
  }

  lemma CountOne(x: Request, r: Request)
    ensures Count([x], r) == (if r == x then 1 else 0) && Count([], r) == 0
  {
  }

  lemma CountCompleted(cs: seq<Completion>, c: Completion, r: Request)
    ensures Count(Requests(cs + [c]), r) == Count(Requests(cs), r) + Count([c.req], r)
  {
    assert Requests(cs + [c]) == Requests(cs) + [c.req];
    CountJoin(Requests(cs), [c.req], r);
  }

  lemma ConservedStep(s: State, h: History, e: Event)
    requires Conserved(s, h)
    ensures Conserved(Apply(s, e), Record(s, h, e))
  {
    hide Count, Requests;
    var s', h' := Apply(s, e), Record(s, h, e);
    forall r
      ensures Count(h'.queued, r) + Count(h'.urgent, r) ==
        Count(Requests(h'.completed), r) + Count(s'.queue, r) + Count(UrgentPart(s'), r) + Count(InFlight(s'), r)
        + Count(h'.displaced, r) + Count(h'.dropped, r)
    {
      CountOne(s.current, r);
      CountOne(s.urgent, r);
      match e {
        case Send(x) =>
          CountJoin(s.queue, [x], r);
          CountJoin(h.queued, [x], r);
        case SendNow(x) =>
          CountOne(x, r);
          CountJoin(h.urgent, [x], r);
          CountJoin(h.displaced, [s.current], r);
        case Client(_) =>
        case Process(again) =>
          if s.process && s.phase.EndRequest? {
            CountCompleted(h.completed, h'.completed[|h.completed|], r);
            CountOne(s.Served(), r);
            if again.Some? {
              CountJoin(h.urgent, [again.value], r);
              CountJoin(h.dropped, [again.value], r);
            }
          } else if !s.process && !s.isUrgent && s.queue != [] {
            assert s.queue == [s.queue[0]] + s.queue[1..];
            CountJoin([s.queue[0]], s.queue[1..], r);
          }
      }
    }
  }

  /** In every run each accepted request is in exactly one place: completed, queued, in the urgent slot, in
      flight, displaced by an urgent one, or dropped inside a callback. */
  lemma {:induction false} Conservation(s: State, events: seq<Event>)
    requires Initial(s)
    ensures var (t, h) := Run(s, events); Conserved(t, h)
    decreases |events|
  {
    if events != [] {
      var before := events[..|events| - 1];
      Conservation(s, before);
      var (t, h) := Run(s, before);
      ConservedStep(t, h, events[|events| - 1]);
    }
  }

  /** So no request completes more often than it was accepted. */
  lemma AtMostOnce(s: State, events: seq<Event>, r: Request)
    requires Initial(s)
    ensures var (t, h) := Run(s, events);
      Count(Requests(h.completed), r) <= Count(h.queued, r) + Count(h.urgent, r)
  {
    hide Run, Requests, Count;
    Conservation(s, events);
  }

  /** A request that was accepted once and then displaced is never called back, and dropped ones neither. */
  lemma DisplacedNeverCompletes(s: State, events: seq<Event>, r: Request)
    requires Initial(s)
    ensures var (t, h) := Run(s, events);
      Count(h.queued, r) + Count(h.urgent, r) == 1 && Count(h.displaced, r) + Count(h.dropped, r) >= 1 ==>
        Count(Requests(h.completed), r) == 0
  {
    hide Run, Requests, Count;
    Conservation(s, events);
  }

  // ----- whose status a completion reports ------------------------------------------------------------

  /** Between the start of a transfer and its end the client runs the transfer of the served request, except
      for a late urgent one, which stands in for the displaced request. */
  ghost predicate OwnerKnown(s: State, h: History) {
    && (s.process && s.isUrgent && h.late ==> !s.phase.SendRequest?)
    && (s.process && !s.phase.SendRequest? ==> s.owner == if s.isUrgent && !h.late then s.urgent else s.current)
    && (s.process && s.phase.EndRequest? ==> s.status.Success? || s.status.Abort?)
    && (!s.process && s.isUrgent ==> !h.late)
    && (s.isUrgent && h.late ==> s.current in h.displaced)
    && forall c :: c in h.completed ==>
         && (c.status.Success? || c.status.Abort?)
         && (if c.late then c.urgent && c.owner in h.displaced else c.owner == c.req)
  }

  lemma OwnerStep(s: State, h: History, e: Event)
    requires OwnerKnown(s, h)
    ensures OwnerKnown(Apply(s, e), Record(s, h, e))
  {
  }

  lemma {:induction false} OwnStatus(s: State, events: seq<Event>)
    requires Initial(s)
    ensures var (t, h) := Run(s, events); OwnerKnown(t, h)
    decreases |events|
  {
    if events != [] {
      var before := events[..|events| - 1];
      OwnStatus(s, before);
      var (t, h) := Run(s, before);
      OwnerStep(t, h, events[|events| - 1]);
    }
  }

  // ----- when nothing is lost ---------------------------------------------------------------------------

  /** No urgent request is accepted while a transfer is in progress: not from outside, and not from the completion
      callback of a queued transfer. */
  predicate Gentle(s: State, e: Event) {
    && (e.SendNow? && s.process ==> s.isUrgent)
    && (e.Process? && s.process && s.phase.EndRequest? ==> !Overwrites(s, e.fromCallback))
  }

  ghost predicate AllGentle(s: State, events: seq<Event>) {
    events == [] ||
      (var before, e := events[..|events| - 1], events[|events| - 1];
       AllGentle(s, before) && Gentle(Run(s, before).0, e))
  }

  ghost predicate NothingLost(h: History) {
    h.displaced == [] && h.dropped == []
  }

  /** Queued and urgent requests have been completed in the order in which they were accepted, and none is lost. */
  ghost predicate InOrder(s: State, h: History) {
    && NothingLost(h) && !h.late
    && OfKind(h.completed, false) + InFlight(s) + s.queue == h.queued
    && OfKind(h.completed, true) + UrgentPart(s) == h.urgent
    && forall c :: c in h.completed ==> !c.late
  }

  lemma OfKindSnoc(cs: seq<Completion>, c: Completion)
    ensures OfKind(cs + [c], c.urgent) == OfKind(cs, c.urgent) + [c.req]
    ensures OfKind(cs + [c], !c.urgent) == OfKind(cs, !c.urgent)
  {
    assert (cs + [c])[..|cs|] == cs;
  }

  lemma OrderStep(s: State, h: History, e: Event)
    requires InOrder(s, h) && Gentle(s, e)
    ensures InOrder(Apply(s, e), Record(s, h, e))
  {
    hide OfKind;
    var s', h' := Apply(s, e), Record(s, h, e);
    var queued, urgent := OfKind(h.completed, false), OfKind(h.completed, true);
    if e.Process? && s.process && s.phase.EndRequest? {
      OfKindSnoc(h.completed, h'.completed[|h.completed|]);
    } else if e.Process? && !s.process && !s.isUrgent && s.queue != [] {
      assert s.queue == [s.queue[0]] + s'.queue;
      assert queued + [s.queue[0]] + s'.queue == queued + [] + s.queue;
    } else if e.Send? && |s.queue| < QUEUE_LENGTH {
      assert queued + InFlight(s) + (s.queue + [e.r]) == queued + InFlight(s) + s.queue + [e.r];
    } else if e.SendNow? && !s.isUrgent {
      assert urgent + [e.r] == urgent + [] + [e.r];
    }
  }

  /** What is lost stays lost, and an event that is not gentle loses a request. */
  lemma LossStep(s: State, h: History, e: Event)
    ensures NothingLost(Record(s, h, e)) <==> NothingLost(h) && Gentle(s, e)
  {
  }

  lemma OrderLosesNothing(s: State, h: History)
    ensures InOrder(s, h) ==> NothingLost(h)
  {
  }

  /** Requests complete in order with none lost exactly if every event is gentle; and a request is lost exactly if
      one is not. */
  lemma {:induction false} FifoOrder(s: State, events: seq<Event>)
    requires Initial(s)
    ensures var (t, h) := Run(s, events);
      && (AllGentle(s, events) <==> InOrder(t, h))
      && (AllGentle(s, events) <==> NothingLost(h))
    decreases |events|
  {
    if events != [] {
      var before, e := events[..|events| - 1], events[|events| - 1];
      FifoOrder(s, before);
      var (t, h) := Run(s, before);
      hide InOrder, NothingLost, Apply, Record, Gentle;
      LossStep(t, h, e);
      if AllGentle(s, events) { OrderStep(t, h, e); }
      OrderLosesNothing(Apply(t, e), Record(t, h, e));
    }
  }

  /** Then each request also gets the status of its own transfer. */
  lemma GentleStatus(s: State, events: seq<Event>)
    requires Initial(s) && AllGentle(s, events)
    ensures forall c :: c in Run(s, events).1.completed ==>
      c.owner == c.req && (c.status.Success? || c.status.Abort?)
  {
    hide Run;
    OwnStatus(s, events);
    FifoOrder(s, events);
  }

  lemma RunNone(s: State)
    ensures Run(s, []) == (s, NOTHING)
  {
  }

  lemma RunSnoc(s: State, events: seq<Event>, e: Event)
    ensures var (t, h) := Run(s, events); Run(s, events + [e]) == (Apply(t, e), Record(t, h, e))
  {
    hide Apply, Record;
    assert (events + [e])[..|events|] == events;
  }

  /** The smallest loss: `b` is asked for urgently while `a` is being transferred.  `a` is displaced; the success of its
      transfer is reported to `b`, which was never sent. */
  lemma QueuedDisplaced(s: State, a: Request, b: Request)
    requires Initial(s)
    ensures Run(s, [Send(a), Process(None), Process(None), SendNow(b)]).1.displaced == [a]
    ensures var (t, h) := Run(s, [Send(a), Process(None), Process(None), SendNow(b),
                                  Client(Success), Process(None), Process(None)]);
      !t.process && !t.isUrgent && h.completed == [Completion(b, true, true, Success, a)]
  {
    hide Run;
    RunNone(s);
    RunSnoc(s, [], Send(a));
    var e1: seq<Event> := [] + [Send(a)];
    RunSnoc(s, e1, Process(None));
    var e2: seq<Event> := e1 + [Process(None)];
    RunSnoc(s, e2, Process(None));
    var e3: seq<Event> := e2 + [Process(None)];
    RunSnoc(s, e3, SendNow(b));
    var e4: seq<Event> := e3 + [SendNow(b)];
    RunSnoc(s, e4, Client(Success));
    var e5: seq<Event> := e4 + [Client(Success)];
    RunSnoc(s, e5, Process(None));
    var e6: seq<Event> := e5 + [Process(None)];
    RunSnoc(s, e6, Process(None));
    var e7: seq<Event> := e6 + [Process(None)];
    assert e4 == [Send(a), Process(None), Process(None), SendNow(b)];
    assert e7 == [Send(a), Process(None), Process(None), SendNow(b), Client(Success), Process(None), Process(None)];
  }

  /** The other loss: the callback of `a` asks for `b`, which is accepted and then cleared. */
  lemma CallbackDropped(s: State, a: Request, b: Request)
    requires Initial(s) && a.hasCallback
    ensures
      var (t, h) := Run(s, [Send(a), Process(None), Process(None), Client(Success), Process(None), Process(Some(b))]);
      !t.isUrgent && h.urgent == h.dropped == [b]
  {
    hide Run;
    RunNone(s);
    RunSnoc(s, [], Send(a));
    var e1: seq<Event> := [] + [Send(a)];
    RunSnoc(s, e1, Process(None));
    var e2: seq<Event> := e1 + [Process(None)];
    RunSnoc(s, e2, Process(None));
    var e3: seq<Event> := e2 + [Process(None)];
    RunSnoc(s, e3, Client(Success));
    var e4: seq<Event> := e3 + [Client(Success)];
    RunSnoc(s, e4, Process(None));
    var e5: seq<Event> := e4 + [Process(None)];
    RunSnoc(s, e5, Process(Some(b)));
    var e6: seq<Event> := e5 + [Process(Some(b))];
    assert e6 == [Send(a), Process(None), Process(None), Client(Success), Process(None), Process(Some(b))];
  }

  // ----- what is asked for is served --------------------------------------------------------------------------

  /** What every reachable state satisfies: the client is idle exactly while no transfer runs, and a transfer ends only
      with an answer. */
  predicate Sound(s: State) {
    && (s.status.Idle? <==> !s.process || s.phase.SendRequest?)
    && (s.process && s.phase.EndRequest? ==> !s.status.Busy?)
  }

  lemma {:induction false} Reachable(s: State, events: seq<Event>)
    requires Initial(s)
    ensures Sound(Run(s, events).0)
    decreases |events|
  {
    if events != [] {
      Reachable(s, events[..|events| - 1]);
    }
  }

  /** The requests still to be served, in the order in which they come: the one in hand, an urgent one, the queue. */
  function Pending(s: State): seq<Request> {
    (if s.isUrgent then [s.urgent] else if s.process then [s.current] else []) + s.queue
  }

  /** Nothing can be done before the client answers. */
  predicate Waiting(s: State) {
    s.process && s.phase.WaitResult? && s.status.Busy?
  }

  /** The process steps that did not have to wait for the client. */
  function FreeSteps(s: State, events: seq<Event>): nat {
    if events == [] then 0
    else
      var before := events[..|events| - 1];
      FreeSteps(s, before) + if events[|events| - 1].Process? && !Waiting(Run(s, before).0) then 1 else 0
  }

  /** The answers of the client, in order: what it reports while it is busy, other than being busy. */
  function Answers(s: State, events: seq<Event>): seq<Status> {
    if events == [] then []
    else
      var before, e := events[..|events| - 1], events[|events| - 1];
      Answers(s, before) +
        if e.Client? && Run(s, before).0.status.Busy? && (e.result.Success? || e.result.Abort?) then [e.result] else []
  }

  /** The answer that has been given and not yet reported. */
  function Given(s: State): seq<Status> {
    if s.status.Success? || s.status.Abort? then [s.status] else []
  }

  function Statuses(cs: seq<Completion>): seq<Status> {
    seq(|cs|, i requires 0 <= i < |cs| => cs[i].status)
  }

  /** How far the transfer in hand has come: four steps start, send, accept the answer and report it. */
  function Stage(s: State): nat {
    if !s.process then 0
    else match s.phase
      case SendRequest => 1
      case WaitResult => 2
      case EndRequest => 3
  }

  lemma Snoc(cs: seq<Completion>, c: Completion)
    ensures Statuses(cs + [c]) == Statuses(cs) + [c.status]
    ensures Requests(cs + [c]) == Requests(cs) + [c.req]
  {
  }

  lemma AnswerStep(s: State, h: History, e: Event)
    requires Sound(s)
    ensures var t, k := Apply(s, e), Record(s, h, e);
      && Sound(t)
      && Statuses(k.completed) + Given(t) ==
         Statuses(h.completed) + Given(s)
         + if e.Client? && s.status.Busy? && (e.result.Success? || e.result.Abort?) then [e.result] else []
  {
    hide Statuses, Requests;
    if e.Process? && s.process && s.phase.EndRequest? {
      Snoc(h.completed, Record(s, h, e).completed[|h.completed|]);
    }
  }

  /** Every answer of the client is reported, once and in order: in every run, whatever else happens. */
  lemma {:induction false} EveryAnswerReported(s: State, events: seq<Event>)
    requires Sound(s)
    ensures var (t, h) := Run(s, events);
      Sound(t) && Statuses(h.completed) + Given(t) == Given(s) + Answers(s, events)
    decreases |events|
  {
    if events != [] {
      var before, e := events[..|events| - 1], events[|events| - 1];
      EveryAnswerReported(s, before);
      var (t, h) := Run(s, before);
      hide Apply, Record, Statuses, Given, Sound;
      AnswerStep(t, h, e);
    }
  }

  lemma ServeStep(s: State, h: History, e: Event)
    requires Sound(s)
    ensures var t, k := Apply(s, e), Record(s, h, e);
      && Sound(t)
      && |h.completed| <= |k.completed| && |k.completed| + |Pending(t)| >= |h.completed| + |Pending(s)|
      && (Pending(s) != [] ==>
            4 * |k.completed| + Stage(t) ==
            4 * |h.completed| + Stage(s) + if e.Process? && !Waiting(s) then 1 else 0)
  {
  }

  /** Nothing gets stuck: every four steps that need not wait for the client complete a request, as long as there are
      any; in every run, whatever else happens. */
  lemma {:induction false} KeepsServing(s: State, events: seq<Event>)
    requires Sound(s)
    ensures var (t, h) := Run(s, events);
      && Sound(t) && |h.completed| + |Pending(t)| >= |Pending(s)|
      && (|h.completed| < |Pending(s)| ==> 4 * |h.completed| + Stage(t) == Stage(s) + FreeSteps(s, events))
    decreases |events|
  {
    if events != [] {
      var before, e := events[..|events| - 1], events[|events| - 1];
      KeepsServing(s, before);
      var (t, h) := Run(s, before);
      hide Apply, Record, Pending, Stage, Sound;
      ServeStep(t, h, e);
    }
  }

  /** The queued request that an event brings. */
  function Accepted(s: State, e: Event): seq<Request> {
    if e.Send? && |s.queue| < QUEUE_LENGTH then [e.r] else []
  }

  /** The request that an event completes. */
  function Done(s: State, e: Event): seq<Request> {
    if e.Process? && s.process && s.phase.EndRequest? then [s.Served()] else []
  }

  lemma TurnOne(s: State, e: Event)
    requires !e.SendNow?
    ensures Done(s, e) + Pending(Apply(s, e)) == Pending(s) + Accepted(s, e)
  {
    if e.Process? && !s.process && !s.isUrgent && s.queue != [] {
      assert s.queue == [s.queue[0]] + s.queue[1..];
    }
  }

  lemma RecordOne(s: State, h: History, e: Event)
    ensures var k := Record(s, h, e);
      k.queued == h.queued + Accepted(s, e) && Requests(k.completed) == Requests(h.completed) + Done(s, e)
  {
    hide Statuses, Requests;
    if Done(s, e) != [] {
      Snoc(h.completed, Record(s, h, e).completed[|h.completed|]);
    }
  }

  lemma TurnStep(s: State, h: History, e: Event)
    requires !e.SendNow?
    ensures var t, k := Apply(s, e), Record(s, h, e);
      && k.queued == h.queued + Accepted(s, e)
      && Requests(k.completed) + Pending(t) == Requests(h.completed) + Pending(s) + Accepted(s, e)
  {
    TurnOne(s, e);
    RecordOne(s, h, e);
    hide Requests, Pending, Apply, Record, Done, Accepted;
    var past, t := Requests(h.completed), Apply(s, e);
    assert past + Done(s, e) + Pending(t) == past + (Done(s, e) + Pending(t));
    assert past + (Pending(s) + Accepted(s, e)) == past + Pending(s) + Accepted(s, e);
  }

  /** Unless an urgent request comes in between, requests are completed in the order in which they are pending, those
      accepted meanwhile last. */
  lemma {:induction false} InTurn(s: State, events: seq<Event>)
    requires Sound(s) && forall i :: 0 <= i < |events| ==> !events[i].SendNow?
    ensures var (t, h) := Run(s, events);
      Requests(h.completed) + Pending(t) == Pending(s) + h.queued
    decreases |events|
  {
    if events != [] {
      var before, e := events[..|events| - 1], events[|events| - 1];
      InTurn(s, before);
      var (t, h) := Run(s, before);
      hide Apply, Record, Requests, Pending;
      TurnStep(t, h, e);
    }
  }

  /** From every reachable state: after four steps for each pending request, waiting for the client not counted, all of
      them have been completed, in order, each with the answer that the client gave to it; and if nothing was accepted
      meanwhile the queue and the urgent slot are empty. */
  lemma Drains(start: State, past: seq<Event>, events: seq<Event>)
    requires Initial(start) && forall i :: 0 <= i < |events| ==> !events[i].SendNow?
    requires var s := Run(start, past).0; FreeSteps(s, events) >= 4 * |Pending(s)|
    ensures var s := Run(start, past).0;
      var (t, h) := Run(s, events);
      && Pending(s) <= Requests(h.completed)
      && Statuses(h.completed) <= Given(s) + Answers(s, events)
      && (h.queued == [] ==> Requests(h.completed) == Pending(s) && t.queue == [] && !t.isUrgent && !t.process)
  {
    var s := Run(start, past).0;
    var (t, h) := Run(s, events);
    hide Run;
    Reachable(start, past);
    EveryAnswerReported(s, events);
    KeepsServing(s, events);
    InTurn(s, events);
    var done := Requests(h.completed);
    assert |done| >= |Pending(s)|;
    assert (done + Pending(t))[..|Pending(s)|] == Pending(s);
    assert Pending(s) == done[..|Pending(s)|];
  }

  // ----- the object ------------------------------------------------------------------------------------------

  class Arbiter {
    const queue: Fifo.Queue<Request>
    var current: Request      // sub_obj
    var urgent: Request       // sdo_now
    var isUrgent: bool        // is_sdo_now
    var process: bool         // sdo_process
    var phase: Phase          // sdo_state
    var status: Status        // status of the SDO client
    ghost var owner: Request  // whose transfer the client runs

    ghost predicate Valid()
      reads this, queue, queue.buff
    {
      queue.Valid() && queue.Capacity() == QUEUE_LENGTH
    }

    ghost function Abs(): State
      requires Valid()
      reads this, queue, queue.buff
    {
      State(queue.Items(), current, urgent, isUrgent, process, phase, status, owner)
    }

    constructor ()
      ensures Valid() && fresh(queue) && fresh(queue.buff) && Initial(Abs())
    {
      queue := new Fifo.Queue(QUEUE_LENGTH);
      isUrgent, process, phase, status := false, false, SendRequest, Idle;
    }

    /** `sm_co_sdo_client_send` and `_receive`: refused only when the queue is full. */
    method ClientRequest(r: Request) returns (ok: bool)
      requires Valid()
      modifies queue, queue.buff
      ensures Valid() && Abs() == Apply(old(Abs()), Send(r))
      ensures ok <==> |old(Abs()).queue| < 10
    {
      ok := queue.Push(r);
    }

    /** `sm_co_sdo_client_send_now` and `_receive_now`: refused only while the urgent slot is taken. */
    method ClientRequestNow(r: Request) returns (ok: bool)
      requires Valid()
      modifies this
      ensures Valid() && Abs() == Apply(old(Abs()), SendNow(r))
      ensures ok <==> !old(isUrgent)
    {
      if isUrgent {
        return false;
      }
      urgent := r;
      isUrgent := true;
      return true;
    }

    /** One step of `sm_co_SDO_process`.  `again` is an urgent request that the callback makes, if it is called;
        the result is the request that was completed and the status reported for it, if any. */
    method ProcessStep(again: Option<Request>) returns (done: Option<(Request, Status)>)
      requires Valid()
      modifies this, queue
      ensures Valid() && Abs() == Apply(old(Abs()), Process(again))
      ensures done == if old(process && phase.EndRequest?) then Some((old(Abs()).Served(), old(status))) else None
    {
      done := None;
      if process {
        var served := if isUrgent then urgent else current;
        match phase {
          case SendRequest =>
            status := Busy;
            owner := served;
            phase := WaitResult;
          case WaitResult =>
            if status.Success? || status.Abort? {
              phase := EndRequest;
            }
          case EndRequest =>
            done := Some((served, status));
            if served.hasCallback && again.Some? {
              var _ := ClientRequestNow(again.value);
            }
            status := Idle;
            process := false;
            if isUrgent {
              isUrgent := false;
            }
        }
      } else if isUrgent {
        process := true;
        phase := SendRequest;
      } else {
        var ok;
        ok, current := queue.Pop(current);
        if ok {
          process := true;
          phase := SendRequest;
        }
      }
    }
  }
}
