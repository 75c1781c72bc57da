/**
  The stream channel as a concurrent protocol. Any number of RPC handlers register their stream when
  they start and clear the registration when they end; any number of packet threads write through the
  registered stream under the mutex. A handler also answers arbitration by writing to its own stream, and
  takes no lock for that. Every lock, read, assignment and unlock is a step, and a write takes two: it
  begins and it ends.
 */
module StreamProtocol {
  import opened Prelude

  /** A handler is named by its stream, which lives from the start of the RPC to its return. */
  type Handler = nat
  type Thread = nat

  datatype HandlerPhase =
    | Started        // before set_stream takes the lock
    | SetLocked      // in set_stream, before the assignment
    | SetDone        // in set_stream, after the assignment
    | Serving        // reading requests
    | Replying       // inside Write on its own stream
    | ClearLocked    // in clear_stream, before the assignment
    | ClearDone      // in clear_stream, after the assignment
    | Returned       // the stream no longer exists

  /** A packet thread, while it handles punt number `id`. */
  datatype Punt =
    | Idle
    | Waiting(id: nat)                 // before send_pkt_in takes the lock
    | Locked(id: nat)                  // before the pointer is tested
    | Writing(id: nat, to: Handler)    // pointer tested, inside Write
    | Decided(id: nat, sent: bool)     // before the unlock

  datatype Owner = HandlerOwner(h: Handler) | PuntOwner(t: Thread)

  datatype Event =
    | Set(h: Handler) | Clear(h: Handler) | Replied(h: Handler)
    | Sent(id: nat, to: Handler) | Unsent(id: nat)

  datatype State = State(
    lock: Option<Owner>,
    stream: Option<Handler>,
    handlers: map<Handler, HandlerPhase>,
    punts: map<Thread, Punt>,
    nextPunt: nat,
    log: seq<Event>,               // effects on the shared pointer and on streams, in order
    reports: seq<(nat, bool)>)     // results returned by send_pkt_in

  const INIT := State(None, None, map[], map[], 0, [], [])

  /** Who moves next. Only a serving handler has a choice: to leave, or to answer an arbitration request. */
  datatype Step = HandlerStep(h: Handler) | ReplyStep(h: Handler) | PuntStep(t: Thread)

  function PhaseOf(s: State, h: Handler): Option<HandlerPhase> {
    if h in s.handlers then Some(s.handlers[h]) else None
  }

  function PuntOf(s: State, t: Thread): Punt {
    if t in s.punts then s.punts[t] else Idle
  }

  function SetPhase(s: State, h: Handler, p: HandlerPhase): State {
    s.(handlers := s.handlers[h := p])
  }

  function SetPunt(s: State, t: Thread, p: Punt): State {
    s.(punts := s.punts[t := p])
  }

  /** A step that cannot be taken (the lock is held by another) leaves the state as it is. */
  function MoveHandler(s: State, h: Handler): State {
    match PhaseOf(s, h)
    case None => SetPhase(s, h, Started)
    case Some(p) =>
      match p
      case Started => if s.lock.None? then SetPhase(s, h, SetLocked).(lock := Some(HandlerOwner(h))) else s
      case SetLocked => SetPhase(s, h, SetDone).(stream := Some(h), log := s.log + [Set(h)])
      case SetDone => SetPhase(s, h, Serving).(lock := None)
      case Serving => if s.lock.None? then SetPhase(s, h, ClearLocked).(lock := Some(HandlerOwner(h))) else s
      case Replying => SetPhase(s, h, Serving).(log := s.log + [Replied(h)])
      case ClearLocked => SetPhase(s, h, ClearDone).(stream := None, log := s.log + [Clear(h)])
      case ClearDone => SetPhase(s, h, Returned).(lock := None)
      case Returned => s
  }

  function BeginReply(s: State, h: Handler): State {
    if PhaseOf(s, h) == Some(Serving) then SetPhase(s, h, Replying) else s
  }

  function MovePunt(s: State, t: Thread): State {
    match PuntOf(s, t)
    case Idle => SetPunt(s, t, Waiting(s.nextPunt)).(nextPunt := s.nextPunt + 1)
    case Waiting(id) => if s.lock.None? then SetPunt(s, t, Locked(id)).(lock := Some(PuntOwner(t))) else s
    case Locked(id) =>
      if s.stream.None? then SetPunt(s, t, Decided(id, false)).(log := s.log + [Unsent(id)])
      else SetPunt(s, t, Writing(id, s.stream.value))
    case Writing(id, h) => SetPunt(s, t, Decided(id, true)).(log := s.log + [Sent(id, h)])
    case Decided(id, sent) => SetPunt(s, t, Idle).(lock := None, reports := s.reports + [(id, sent)])
  }

  function Move(s: State, step: Step): State {
    match step
    case HandlerStep(h) => MoveHandler(s, h)
    case ReplyStep(h) => BeginReply(s, h)
    case PuntStep(t) => MovePunt(s, t)
  }

  /** Any interleaving is a sequence of steps. */
  function RunFrom(s: State, steps: seq<Step>): State {
    if steps == [] then s else Move(RunFrom(s, steps[..|steps| - 1]), steps[|steps| - 1])
  }

  function Run(steps: seq<Step>): State {
    RunFrom(INIT, steps)
  }

  // ----- The mutex -----

  predicate HoldsAsHandler(p: HandlerPhase) {
    p.SetLocked? || p.SetDone? || p.ClearLocked? || p.ClearDone?
  }

  predicate HoldsAsPunt(p: Punt) {
    p.Locked? || p.Writing? || p.Decided?
  }

  ghost predicate LockInv(s: State) {
    && (forall h :: h in s.handlers ==> (HoldsAsHandler(s.handlers[h]) <==> s.lock == Some(HandlerOwner(h))))
    && (forall t :: t in s.punts ==> (HoldsAsPunt(s.punts[t]) <==> s.lock == Some(PuntOwner(t))))
    && (s.lock.Some? ==> match s.lock.value case HandlerOwner(h) => h in s.handlers case PuntOwner(t) => t in s.punts)
  }

  lemma LockHandlerStep(s: State, h: Handler)
    requires LockInv(s)
    ensures LockInv(MoveHandler(s, h))
  {
  }

  lemma LockReplyStep(s: State, h: Handler)
    requires LockInv(s)
    ensures LockInv(BeginReply(s, h))
  {
  }

  lemma LockPuntStep(s: State, t: Thread)
    requires LockInv(s)
    ensures LockInv(MovePunt(s, t))
  {
  }

  lemma LockStep(s: State, step: Step)
    requires LockInv(s)
    ensures LockInv(Move(s, step))
  {
    hide LockInv, MoveHandler, BeginReply, MovePunt;
    match step
    case HandlerStep(h) => LockHandlerStep(s, h);
    case ReplyStep(h) => LockReplyStep(s, h);
    case PuntStep(t) => LockPuntStep(s, t);
  }

  // ----- The registered stream -----

  predicate Registered(p: HandlerPhase) {
    p.SetDone? || p.Serving? || p.Replying? || p.ClearLocked?
  }

  /** The registered stream's handler has not cleared it, and a pointer read under the lock stays current. */
  ghost predicate StreamInv(s: State) {
    && (s.stream.Some? ==> s.stream.value in s.handlers && Registered(s.handlers[s.stream.value]))
    && (forall t :: t in s.punts && s.punts[t].Writing? ==> s.stream == Some(s.punts[t].to))
    && (forall h :: h in s.handlers && s.handlers[h].SetDone? ==> s.stream == Some(h))
    && (forall h :: h in s.handlers && s.handlers[h].ClearDone? ==> s.stream == None)
  }

  /** Whoever holds the lock is alone. */
  lemma HolderIsAlone(s: State, h: Handler)
    requires LockInv(s) && h in s.handlers && HoldsAsHandler(s.handlers[h])
    ensures forall t :: t in s.punts ==> !HoldsAsPunt(s.punts[t])
    ensures forall g :: g in s.handlers && g != h ==> !HoldsAsHandler(s.handlers[g])
  {
  }

  lemma StreamChanges(s: State, h: Handler)
    requires LockInv(s) && StreamInv(s) && h in s.handlers && (s.handlers[h].SetLocked? || s.handlers[h].ClearLocked?)
    ensures StreamInv(MoveHandler(s, h))
  {
    HolderIsAlone(s, h);
    hide LockInv;
    assert MoveHandler(s, h).handlers == s.handlers[h := if s.handlers[h].SetLocked? then SetDone else ClearDone];
  }

  /** A handler moves without touching the pointer. */
  lemma StreamKept(s: State, s': State, h: Handler, p: HandlerPhase)
    requires StreamInv(s) && s'.stream == s.stream && s'.punts == s.punts && s'.handlers == s.handlers[h := p]
    requires !p.SetDone? && !p.ClearDone? && (h in s.handlers && Registered(s.handlers[h]) ==> Registered(p))
    ensures StreamInv(s')
  {
  }

  lemma StreamHandlerStep(s: State, h: Handler)
    requires LockInv(s) && StreamInv(s)
    ensures StreamInv(MoveHandler(s, h))
  {
    hide LockInv, StreamInv;
    var s' := MoveHandler(s, h);
    if h in s.handlers && (s.handlers[h].SetLocked? || s.handlers[h].ClearLocked?) {
      StreamChanges(s, h);
    } else if s' != s {
      StreamKept(s, s', h, s'.handlers[h]);
    }
  }

  lemma StreamReplyStep(s: State, h: Handler)
    requires StreamInv(s)
    ensures StreamInv(BeginReply(s, h))
  {
  }

  lemma StreamPuntStep(s: State, t: Thread)
    requires StreamInv(s)
    ensures StreamInv(MovePunt(s, t))
  {
  }

  lemma StreamStep(s: State, step: Step)
    requires LockInv(s) && StreamInv(s)
    ensures StreamInv(Move(s, step))
  {
    hide LockInv, StreamInv, MoveHandler, BeginReply, MovePunt;
    match step
    case HandlerStep(h) => StreamHandlerStep(s, h);
    case ReplyStep(h) => StreamReplyStep(s, h);
    case PuntStep(t) => StreamPuntStep(s, t);
  }

  // ----- The history -----

  /** The stream registered by the last set or clear. */
  function Current(log: seq<Event>): Option<Handler> {
    if log == [] then None
    else match log[|log| - 1]
      case Set(h) => Some(h)
      case Clear(_) => None
      case _ => Current(log[..|log| - 1])
  }

  /** The event is what the sequential code would do after `before`. */
  predicate Allowed(before: seq<Event>, e: Event) {
    match e
    case Set(h) => Set(h) !in before
    case Clear(h) => Set(h) in before && Clear(h) !in before
    case Replied(h) => Set(h) in before && Clear(h) !in before
    case Sent(_, h) => Current(before) == Some(h) && Set(h) in before && Clear(h) !in before
    case Unsent(_) => Current(before) == None
  }

  /** One atomic operation after another. */
  predicate Sequential(log: seq<Event>) {
    log == [] || (Sequential(log[..|log| - 1]) && Allowed(log[..|log| - 1], log[|log| - 1]))
  }

  predicate HasSet(p: HandlerPhase) {
    !p.Started? && !p.SetLocked?
  }

  predicate HasCleared(p: HandlerPhase) {
    p.ClearDone? || p.Returned?
  }

  ghost predicate LogInv(s: State) {
    && Current(s.log) == s.stream
    && Sequential(s.log)
    && (forall h :: h in s.handlers ==>
          (Set(h) in s.log <==> HasSet(s.handlers[h])) && (Clear(h) in s.log <==> HasCleared(s.handlers[h])))
    && (forall h :: h !in s.handlers ==> Set(h) !in s.log && Clear(h) !in s.log)
  }

  lemma LogGrows(log: seq<Event>, e: Event)
    ensures forall x :: x in log + [e] <==> x in log || x == e
    ensures Current(log + [e]) ==
            if e.Set? then Some(e.h) else if e.Clear? then None else Current(log)
    ensures Sequential(log + [e]) <==> Sequential(log) && Allowed(log, e)
  {
    assert (log + [e])[..|log|] == log;
  }

  /** Steps that write nothing down do not change what a handler has done. */
  lemma LogKept(s: State, s': State)
    requires LogInv(s) && s'.log == s.log && s'.stream == s.stream && s'.handlers.Keys >= s.handlers.Keys
    requires forall h :: h in s'.handlers ==>
               if h in s.handlers then HasSet(s'.handlers[h]) == HasSet(s.handlers[h]) &&
                                       HasCleared(s'.handlers[h]) == HasCleared(s.handlers[h])
               else s'.handlers[h].Started?
    ensures LogInv(s')
  {
    hide Current, Sequential;
  }

  predicate Writes(p: HandlerPhase) {
    p.SetLocked? || p.ClearLocked? || p.Replying?
  }

  /** A handler's event, in the phase that allows it. */
  lemma LogEvent(s: State, h: Handler, e: Event, p: HandlerPhase, stream: Option<Handler>)
    requires LogInv(s) && h in s.handlers && !e.Sent? && !e.Unsent? && e.h == h && Allowed(s.log, e)
    requires stream == if e.Set? then Some(h) else if e.Clear? then None else s.stream
    requires HasSet(p) && (HasCleared(p) <==> e.Clear?) && !HasCleared(s.handlers[h])
    ensures LogInv(s.(handlers := s.handlers[h := p], stream := stream, log := s.log + [e]))
  {
    hide Current, Sequential, HasSet, HasCleared;
    LogGrows(s.log, e);
  }

  lemma LogKnows(s: State, h: Handler)
    requires LogInv(s) && h in s.handlers
    ensures (Set(h) in s.log <==> HasSet(s.handlers[h])) && (Clear(h) in s.log <==> HasCleared(s.handlers[h]))
  {
  }

  lemma LogHandlerEvent(s: State, h: Handler)
    requires LogInv(s) && h in s.handlers && Writes(s.handlers[h])
    ensures LogInv(MoveHandler(s, h))
  {
    LogKnows(s, h);
    hide LogInv, Sequential, Current;
    match s.handlers[h]
    case SetLocked => LogEvent(s, h, Set(h), SetDone, Some(h));
    case ClearLocked => LogEvent(s, h, Clear(h), ClearDone, None);
    case Replying => LogEvent(s, h, Replied(h), Serving, s.stream);
  }

  lemma LogPuntEvent(s: State, e: Event, p: map<Thread, Punt>)
    requires LogInv(s) && StreamInv(s)
    requires (e.Sent? && s.stream == Some(e.to)) || (e.Unsent? && s.stream == None)
    ensures LogInv(s.(log := s.log + [e], punts := p))
  {
    hide Current, Sequential;
    LogGrows(s.log, e);
  }

  lemma LogHandlerStep(s: State, h: Handler)
    requires LogInv(s)
    ensures LogInv(MoveHandler(s, h))
  {
    hide LogInv;
    if h in s.handlers && Writes(s.handlers[h]) {
      LogHandlerEvent(s, h);
    } else {
      LogKept(s, MoveHandler(s, h));
    }
  }

  lemma LogPuntStep(s: State, t: Thread)
    requires StreamInv(s) && LogInv(s)
    ensures LogInv(MovePunt(s, t))
  {
    hide LogInv;
    var s' := MovePunt(s, t);
    match PuntOf(s, t)
    case Locked(id) =>
      if s.stream.None? { LogPuntEvent(s, Unsent(id), s'.punts); } else { LogKept(s, s'); }
    case Writing(id, h) => LogPuntEvent(s, Sent(id, h), s'.punts);
    case _ => LogKept(s, s');
  }

  lemma LogStep(s: State, step: Step)
    requires LockInv(s) && StreamInv(s) && LogInv(s)
    ensures LogInv(Move(s, step))
  {
    hide LogInv, LockInv, StreamInv, MoveHandler, MovePunt;
    match step
    case HandlerStep(h) => LogHandlerStep(s, h);
    case ReplyStep(h) => LogKept(s, BeginReply(s, h));
    case PuntStep(t) => LogPuntStep(s, t);
  }

  lemma {:induction false} Safe(steps: seq<Step>)
    ensures LockInv(Run(steps)) && StreamInv(Run(steps)) && LogInv(Run(steps))
  {
    if steps == [] {
    } else {
      var s, step := Run(steps[..|steps| - 1]), steps[|steps| - 1];
      Safe(steps[..|steps| - 1]);
      hide *;
      RunLast(steps);
      LockStep(s, step);
      StreamStep(s, step);
      LogStep(s, step);
    }
  }

  lemma RunLast(steps: seq<Step>)
    requires steps != []
    ensures Run(steps) == Move(Run(steps[..|steps| - 1]), steps[|steps| - 1])
  {
  }

  // ----- What happens to each punt -----

  function Outcomes(log: seq<Event>, id: nat): nat {
    if log == [] then 0
    else
      var e := log[|log| - 1];
      Outcomes(log[..|log| - 1], id) + if (e.Sent? || e.Unsent?) && e.id == id then 1 else 0
  }

  /** How often a result was returned for this punt. */
  function Reported(reports: seq<(nat, bool)>, id: nat): nat {
    if reports == [] then 0
    else Reported(reports[..|reports| - 1], id) + if reports[|reports| - 1].0 == id then 1 else 0
  }

  predicate Undecided(p: Punt) {
    p.Waiting? || p.Locked? || p.Writing?
  }

  /** What a thread still owes its punt: the write or refusal, or the return of its result. */
  datatype Debt = ToDecide | ToReport

  predicate Owes(p: Punt, debt: Debt) {
    Undecided(p) || (debt.ToReport? && p.Decided?)
  }

  ghost predicate Owed(s: State, id: nat, debt: Debt) {
    exists t :: t in s.punts && Owes(s.punts[t], debt) && s.punts[t].id == id
  }

  ghost predicate OwedElsewhere(s: State, t: Thread, id: nat, debt: Debt) {
    exists u :: u in s.punts && u != t && Owes(s.punts[u], debt) && s.punts[u].id == id
  }

  lemma OwedSplit(s: State, t: Thread, id: nat, debt: Debt)
    ensures Owed(s, id, debt) <==>
            OwedElsewhere(s, t, id, debt) || (Owes(PuntOf(s, t), debt) && PuntOf(s, t).id == id)
  {
    if Owes(PuntOf(s, t), debt) && PuntOf(s, t).id == id {
      assert t in s.punts;
    }
  }

  lemma ElsewhereKept(s: State, s': State, t: Thread, id: nat, debt: Debt)
    requires s'.punts == s.punts[t := PuntOf(s', t)]
    ensures OwedElsewhere(s', t, id, debt) <==> OwedElsewhere(s, t, id, debt)
  {
    if u :| u in s.punts && u != t && Owes(s.punts[u], debt) && s.punts[u].id == id {
      assert u in s'.punts && s'.punts[u] == s.punts[u];
    }
    if u :| u in s'.punts && u != t && Owes(s'.punts[u], debt) && s'.punts[u].id == id {
      assert u in s.punts && s'.punts[u] == s.punts[u];
    }
  }

  /** One thread's move changes at most what is owed to its own punt. */
  lemma OwedMoved(s: State, s': State, t: Thread)
    requires s'.punts == s.punts[t := PuntOf(s', t)]
    ensures forall id: nat, debt: Debt :: Owed(s, id, debt) <==>
              OwedElsewhere(s, t, id, debt) || (Owes(PuntOf(s, t), debt) && PuntOf(s, t).id == id)
    ensures forall id: nat, debt: Debt :: Owed(s', id, debt) <==>
              OwedElsewhere(s, t, id, debt) || (Owes(PuntOf(s', t), debt) && PuntOf(s', t).id == id)
  {
    hide Owed, OwedElsewhere, PuntOf;
    forall id: nat, debt: Debt
      ensures Owed(s, id, debt) <==>
                OwedElsewhere(s, t, id, debt) || (Owes(PuntOf(s, t), debt) && PuntOf(s, t).id == id)
      ensures Owed(s', id, debt) <==>
                OwedElsewhere(s, t, id, debt) || (Owes(PuntOf(s', t), debt) && PuntOf(s', t).id == id)
    {
      OwedSplit(s, t, id, debt);
      OwedSplit(s', t, id, debt);
      ElsewhereKept(s, s', t, id, debt);
    }
  }

  /** The result of `send_pkt_in` tells whether the packet was written. */
  ghost predicate Truthful(log: seq<Event>, id: nat, sent: bool) {
    if sent then exists h :: Sent(id, h) in log else Unsent(id) in log
  }

  /** The number of results a punt should have so far. */
  ghost function Due(s: State, id: nat, debt: Debt): nat {
    if id < s.nextPunt && !Owed(s, id, debt) then 1 else 0
  }

  ghost predicate PuntInv(s: State) {
    && (forall t :: t in s.punts && !s.punts[t].Idle? ==> s.punts[t].id < s.nextPunt)
    && (forall t, u :: t in s.punts && u in s.punts && t != u && !s.punts[t].Idle? && !s.punts[u].Idle? ==>
          s.punts[t].id != s.punts[u].id)
    && (forall id: nat :: Outcomes(s.log, id) == Due(s, id, ToDecide))
    && (forall id: nat :: Reported(s.reports, id) == Due(s, id, ToReport))
    && (forall t :: t in s.punts && s.punts[t].Decided? ==> Truthful(s.log, s.punts[t].id, s.punts[t].sent))
    && (forall i :: 0 <= i < |s.reports| ==> Truthful(s.log, s.reports[i].0, s.reports[i].1))
  }

  lemma OutcomesGrow(log: seq<Event>, e: Event, id: nat)
    ensures Outcomes(log + [e], id) ==
            Outcomes(log, id) + if (e.Sent? || e.Unsent?) && e.id == id then 1 else 0
  {
    assert (log + [e])[..|log|] == log;
  }

  lemma TruthGrows(log: seq<Event>, e: Event, id: nat, sent: bool)
    requires Truthful(log, id, sent)
    ensures Truthful(log + [e], id, sent)
  {
    if sent {
      var h :| Sent(id, h) in log;
      assert Sent(id, h) in log + [e];
    }
  }

  lemma ReportedGrow(reports: seq<(nat, bool)>, id: nat, sent: bool, any: nat)
    ensures Reported(reports + [(id, sent)], any) == Reported(reports, any) + if any == id then 1 else 0
  {
    assert (reports + [(id, sent)])[..|reports|] == reports;
  }

  /** Steps of handlers leave every punt where it is. */
  lemma PuntHandlerStep(s: State, s': State)
    requires PuntInv(s) && s'.punts == s.punts && s'.nextPunt == s.nextPunt && s'.reports == s.reports
    requires s'.log == s.log || exists e: Event :: !e.Sent? && !e.Unsent? && s'.log == s.log + [e]
    ensures PuntInv(s')
  {
    hide Outcomes, Truthful, Reported;
    assert forall id: nat, debt: Debt :: Owed(s', id, debt) <==> Owed(s, id, debt);
    hide Owed;
    if s'.log != s.log {
      var e: Event :| !e.Sent? && !e.Unsent? && s'.log == s.log + [e];
      forall id: nat ensures Outcomes(s'.log, id) == Outcomes(s.log, id) {
        OutcomesGrow(s.log, e, id);
      }
      TruthsGrow(s, e);
    }
  }

  lemma TruthsGrow(s: State, e: Event)
    requires PuntInv(s)
    ensures forall t :: t in s.punts && s.punts[t].Decided? ==> Truthful(s.log + [e], s.punts[t].id, s.punts[t].sent)
    ensures forall i :: 0 <= i < |s.reports| ==> Truthful(s.log + [e], s.reports[i].0, s.reports[i].1)
  {
    hide Truthful, Outcomes;
    forall t | t in s.punts && s.punts[t].Decided?
      ensures Truthful(s.log + [e], s.punts[t].id, s.punts[t].sent)
    {
      TruthGrows(s.log, e, s.punts[t].id, s.punts[t].sent);
    }
    forall i | 0 <= i < |s.reports|
      ensures Truthful(s.log + [e], s.reports[i].0, s.reports[i].1)
    {
      TruthGrows(s.log, e, s.reports[i].0, s.reports[i].1);
    }
  }

  /** A thread takes its punt one phase further without deciding it. */
  lemma PuntKept(s: State, s': State, t: Thread)
    requires PuntInv(s) && s'.log == s.log && s'.punts == s.punts[t := PuntOf(s', t)]
    requires t in s.punts && Undecided(s.punts[t]) && Undecided(PuntOf(s', t)) && PuntOf(s', t).id == s.punts[t].id
    requires s'.nextPunt == s.nextPunt && s'.reports == s.reports
    ensures PuntInv(s')
  {
    hide Outcomes, Truthful, Reported, Owed, OwedElsewhere;
    OwedMoved(s, s', t);
  }

  lemma PuntBegun(s: State, t: Thread)
    requires PuntInv(s) && PuntOf(s, t).Idle?
    ensures PuntInv(MovePunt(s, t))
  {
    hide Outcomes, Truthful, Reported, Owed, OwedElsewhere;
    OwedMoved(s, MovePunt(s, t), t);
  }

  lemma PuntDecided(s: State, t: Thread, e: Event)
    requires PuntInv(s) && t in s.punts && Undecided(s.punts[t]) && (e.Sent? || e.Unsent?) && e.id == s.punts[t].id
    ensures PuntInv(SetPunt(s, t, Decided(e.id, e.Sent?)).(log := s.log + [e]))
  {
    hide Outcomes, Truthful, Reported, Owed, OwedElsewhere;
    var s' := SetPunt(s, t, Decided(e.id, e.Sent?)).(log := s.log + [e]);
    OwedMoved(s, s', t);
    OnlyOneThread(s, t, ToDecide);
    forall id: nat
      ensures Outcomes(s'.log, id) == Due(s', id, ToDecide)
    {
      OutcomesGrow(s.log, e, id);
    }
    TruthsGrow(s, e);
    assert Truthful(s'.log, e.id, e.Sent?) by { TruthNow(s.log, e); }
  }

  lemma OnlyOneThread(s: State, t: Thread, debt: Debt)
    requires PuntInv(s) && t in s.punts && Owes(s.punts[t], debt)
    ensures !OwedElsewhere(s, t, s.punts[t].id, debt)
  {
  }

  lemma TruthNow(log: seq<Event>, e: Event)
    requires e.Sent? || e.Unsent?
    ensures Truthful(log + [e], e.id, e.Sent?)
  {
    assert e in log + [e];
    if e.Sent? {
      assert e == Sent(e.id, e.to);
    }
  }

  lemma PuntReported(s: State, t: Thread)
    requires PuntInv(s) && PuntOf(s, t).Decided?
    ensures PuntInv(MovePunt(s, t))
  {
    hide Outcomes, Truthful, Reported, Owed, OwedElsewhere;
    var s', p := MovePunt(s, t), PuntOf(s, t);
    OwedMoved(s, s', t);
    OnlyOneThread(s, t, ToReport);
    forall id: nat
      ensures Reported(s'.reports, id) == Due(s', id, ToReport)
    {
      ReportedGrow(s.reports, p.id, p.sent, id);
    }
  }

  lemma PuntStepKeeps(s: State, step: Step)
    requires PuntInv(s)
    ensures PuntInv(Move(s, step))
  {
    hide PuntInv;
    match step
    case HandlerStep(h) => PuntHandlerStep(s, MoveHandler(s, h));
    case ReplyStep(h) => PuntHandlerStep(s, BeginReply(s, h));
    case PuntStep(t) =>
      match PuntOf(s, t)
      case Idle => PuntBegun(s, t);
      case Waiting(id) => if s.lock.None? { PuntKept(s, MovePunt(s, t), t); }
      case Locked(id) =>
        if s.stream.None? { PuntDecided(s, t, Unsent(id)); } else { PuntKept(s, MovePunt(s, t), t); }
      case Writing(id, h) => PuntDecided(s, t, Sent(id, h));
      case Decided(id, sent) => PuntReported(s, t);
  }

  lemma {:induction false} Conserved(steps: seq<Step>)
    ensures PuntInv(Run(steps))
  {
    if steps == [] {
      assert forall id: nat, debt: Debt :: Due(INIT, id, debt) == 0;
    } else {
      Conserved(steps[..|steps| - 1]);
      hide *;
      RunLast(steps);
      PuntStepKeeps(Run(steps[..|steps| - 1]), steps[|steps| - 1]);
    }
  }

  // ----- Main results -----

  /** In a sequential history nothing is written to a stream after it was cleared. */
  lemma {:induction false} SequentialIsSafe(log: seq<Event>, i: nat, j: nat)
    requires Sequential(log) && i < j < |log| && log[i].Clear?
    ensures !(log[j].Sent? && log[j].to == log[i].h) && log[j] != Replied(log[i].h)
  {
    var before := log[..|log| - 1];
    if j < |log| - 1 {
      SequentialIsSafe(before, i, j);
    } else {
      assert before[i] == log[i] && log[i] == Clear(log[i].h);
    }
  }

  /** Whatever the interleaving, nothing is written to a stream whose handler has cleared it. */
  lemma NoWriteAfterClear(steps: seq<Step>, i: nat, j: nat)
    requires i < j < |Run(steps).log| && Run(steps).log[i].Clear?
    ensures var log := Run(steps).log; !(log[j].Sent? && log[j].to == log[i].h) && log[j] != Replied(log[i].h)
  {
    Safe(steps);
    SequentialIsSafe(Run(steps).log, i, j);
  }

  /** While a thread is between the test and the write, the stream it writes to is still being served. */
  lemma WriterSeesLiveStream(steps: seq<Step>, t: Thread)
    requires PuntOf(Run(steps), t).Writing?
    ensures var s := Run(steps); var h := s.punts[t].to;
            h in s.handlers && !HasCleared(s.handlers[h]) && s.stream == Some(h)
  {
    Safe(steps);
  }

  /**
    A punt has exactly one outcome once its thread has decided it, exactly one reported result once its
    thread has returned, and none before; every reported result is the outcome.
   */
  lemma EveryPuntOnce(steps: seq<Step>, id: nat)
    ensures var s := Run(steps); Outcomes(s.log, id) == if id < s.nextPunt && !Owed(s, id, ToDecide) then 1 else 0
    ensures var s := Run(steps); Reported(s.reports, id) == if id < s.nextPunt && !Owed(s, id, ToReport) then 1 else 0
    ensures var s := Run(steps);
            forall i :: 0 <= i < |s.reports| ==> Truthful(s.log, s.reports[i].0, s.reports[i].1)
  {
    Conserved(steps);
  }

  lemma {:induction false} ReportedIsIn(reports: seq<(nat, bool)>, id: nat) returns (i: nat)
    requires Reported(reports, id) > 0
    ensures i < |reports| && reports[i].0 == id
  {
    i := |reports| - 1;
    if reports[i].0 == id {
    } else {
      i := ReportedIsIn(reports[..i], id);
    }
  }

  /** When the threads have returned, every punt that was begun has its true result among the reports. */
  lemma FinishedIsReported(steps: seq<Step>, id: nat)
    requires id < Run(steps).nextPunt && forall t: Thread :: PuntOf(Run(steps), t).Idle?
    ensures var s := Run(steps); exists sent: bool :: (id, sent) in s.reports && Truthful(s.log, id, sent)
  {
    hide Run, Outcomes, Truthful, Reported;
    var s := Run(steps);
    EveryPuntOnce(steps, id);
    assert forall t :: t in s.punts ==> PuntOf(s, t) == s.punts[t];
    var i := ReportedIsIn(s.reports, id);
    assert s.reports[i] == (id, s.reports[i].1);
  }

  // ----- What happens to each reply -----

  function RepliesIn(log: seq<Event>, h: Handler): nat {
    if log == [] then 0 else RepliesIn(log[..|log| - 1], h) + if log[|log| - 1] == Replied(h) then 1 else 0
  }

  /** The replies that `h` began: its reply steps taken while it served. */
  function RepliesBegun(steps: seq<Step>, h: Handler): nat {
    if steps == [] then 0
    else
      var n := |steps| - 1;
      RepliesBegun(steps[..n], h) + if steps[n] == ReplyStep(h) && PhaseOf(Run(steps[..n]), h) == Some(Serving) then 1 else 0
  }

  function ReplyingNow(s: State, h: Handler): nat {
    if PhaseOf(s, h) == Some(Replying) then 1 else 0
  }

  lemma RepliesGrow(log: seq<Event>, e: Event, h: Handler)
    ensures RepliesIn(log + [e], h) == RepliesIn(log, h) + if e == Replied(h) then 1 else 0
  {
    assert (log + [e])[..|log|] == log;
  }

  lemma ReplyPhase(s: State, step: Step, h: Handler)
    ensures var s' := Move(s, step);
            RepliesIn(s'.log, h) + ReplyingNow(s', h) ==
            RepliesIn(s.log, h) + ReplyingNow(s, h) + if step == ReplyStep(h) && PhaseOf(s, h) == Some(Serving) then 1 else 0
  {
    hide RepliesIn, MoveHandler, MovePunt;
    match step
    case HandlerStep(g) => ReplyHandlerStep(s, g, h);
    case ReplyStep(g) =>
    case PuntStep(t) => ReplyPuntStep(s, t, h);
  }

  lemma ReplyHandlerStep(s: State, g: Handler, h: Handler)
    ensures var s' := MoveHandler(s, g);
            RepliesIn(s'.log, h) + ReplyingNow(s', h) == RepliesIn(s.log, h) + ReplyingNow(s, h)
  {
    hide RepliesIn;
    match PhaseOf(s, g)
    case Some(SetLocked) => RepliesGrow(s.log, Set(g), h);
    case Some(Replying) => RepliesGrow(s.log, Replied(g), h);
    case Some(ClearLocked) => RepliesGrow(s.log, Clear(g), h);
    case _ =>
  }

  lemma ReplyPuntStep(s: State, t: Thread, h: Handler)
    ensures var s' := MovePunt(s, t);
            RepliesIn(s'.log, h) == RepliesIn(s.log, h) && s'.handlers == s.handlers
  {
    hide RepliesIn;
    match PuntOf(s, t)
    case Locked(id) => RepliesGrow(s.log, Unsent(id), h);
    case Writing(id, g) => RepliesGrow(s.log, Sent(id, g), h);
    case _ =>
  }

  /** Every reply that was begun is written, once, unless it is being written now. */
  lemma {:induction false} EveryReplyOnce(steps: seq<Step>, h: Handler)
    ensures RepliesIn(Run(steps).log, h) + (if PhaseOf(Run(steps), h) == Some(Replying) then 1 else 0) ==
            RepliesBegun(steps, h)
  {
    if steps == [] {
    } else {
      var n := |steps| - 1;
      EveryReplyOnce(steps[..n], h);
      RunLast(steps);
      ReplyPhase(Run(steps[..n]), steps[n], h);
      hide Run, RepliesIn, Move;
    }
  }

  // ----- When a punt reaches a controller -----

  /** A stream is registered only after the streams registered before it were cleared. */
  predicate OneAtATime(log: seq<Event>) {
    log == [] ||
    (OneAtATime(log[..|log| - 1]) &&
     (log[|log| - 1].Set? ==> AllCleared(log[..|log| - 1])))
  }

  predicate AllCleared(log: seq<Event>) {
    forall i :: 0 <= i < |log| && log[i].Set? ==> Clear(log[i].h) in log
  }

  predicate Open(log: seq<Event>, h: Handler) {
    Set(h) in log && Clear(h) !in log
  }

  lemma {:induction false} ClearNeedsSet(log: seq<Event>, h: Handler)
    requires Sequential(log) && Clear(h) in log
    ensures Set(h) in log
  {
    var before := log[..|log| - 1];
    assert log == before + [log[|log| - 1]];
    if Clear(h) in before {
      ClearNeedsSet(before, h);
    }
  }

  /** With one controller at a time the registered stream is the one that is open. */
  lemma {:induction false} RegisteredIsOpen(log: seq<Event>, h: Handler)
    requires Sequential(log) && OneAtATime(log)
    ensures Current(log) == Some(h) <==> Open(log, h)
  {
    if log == [] {
    } else {
      var before, e := log[..|log| - 1], log[|log| - 1];
      assert log == before + [e];
      RegisteredIsOpen(before, h);
      match e
      case Set(g) =>
        if Clear(g) in before {
          ClearNeedsSet(before, g);
        }
        assert Set(h) in before ==> Clear(h) in before;
      case Clear(g) =>
        RegisteredIsOpen(before, g);
      case _ =>
    }
  }

  /** So a punt finds a stream exactly while some handler is registered, and it finds that one. */
  lemma ServedIsFound(steps: seq<Step>, h: Handler)
    requires OneAtATime(Run(steps).log)
    ensures var s := Run(steps);
            s.stream == Some(h) <==> h in s.handlers && Registered(s.handlers[h])
  {
    hide Run, Current, Sequential, OneAtATime;
    Safe(steps);
    RegisteredIsOpen(Run(steps).log, h);
  }

  /** The packet threads find exactly the streams that are being served. */
  ghost predicate FindsServed(s: State) {
    forall h: Handler :: s.stream == Some(h) <==> h in s.handlers && Registered(s.handlers[h])
  }

  lemma OneAtATimeGrows(log: seq<Event>, e: Event)
    ensures OneAtATime(log + [e]) <==> OneAtATime(log) && (e.Set? ==> AllCleared(log))
  {
    assert (log + [e])[..|log|] == log;
  }

  /** A step adds at most one event, and a registration only when the handler holds the lock. */
  lemma LogOfStep(s: State, step: Step)
    ensures var s' := Move(s, step);
            s'.log == s.log ||
            exists e: Event :: s'.log == s.log + [e] &&
              (e.Set? ==> PhaseOf(s, e.h) == Some(SetLocked) && step == HandlerStep(e.h))
  {
    var s' := Move(s, step);
    if s'.log != s.log {
      var e := s'.log[|s.log|];
      assert s'.log == s.log + [e];
    }
  }

  /** A registration while another stream is served leaves that stream unfound. */
  lemma NewcomerFoundOnlyAlone(s: State, h: Handler)
    requires LogInv(s) && FindsServed(s) && PhaseOf(s, h) == Some(SetLocked)
    requires FindsServed(Move(s, HandlerStep(h)))
    ensures AllCleared(s.log)
  {
    hide Current, Sequential;
    var s' := Move(s, HandlerStep(h));
    forall i | 0 <= i < |s.log| && s.log[i].Set?
      ensures Clear(s.log[i].h) in s.log
    {
      var g := s.log[i].h;
      assert s.log[i] == Set(g) && Set(g) in s.log;
      assert s'.handlers == s.handlers[h := SetDone] && s'.stream == Some(h);
    }
  }

  lemma NoOverlapIsFound(steps: seq<Step>)
    requires OneAtATime(Run(steps).log)
    ensures FindsServed(Run(steps))
  {
    hide Run, OneAtATime, Registered;
    forall h: Handler
      ensures Run(steps).stream == Some(h) <==> h in Run(steps).handlers && Registered(Run(steps).handlers[h])
    {
      ServedIsFound(steps, h);
    }
  }

  lemma FoundStep(steps: seq<Step>)
    requires steps != []
    ensures var s, s' := Run(steps[..|steps| - 1]), Run(steps);
            OneAtATime(s'.log) <==> OneAtATime(s.log) && FindsServed(s')
  {
    var s, s', last := Run(steps[..|steps| - 1]), Run(steps), steps[|steps| - 1];
    Safe(steps[..|steps| - 1]);
    RunLast(steps);
    LogOfStep(s, last);
    hide *;
    if s'.log != s.log {
      var e: Event :| s'.log == s.log + [e] &&
        (e.Set? ==> PhaseOf(s, e.h) == Some(SetLocked) && last == HandlerStep(e.h));
      OneAtATimeGrows(s.log, e);
      if OneAtATime(s.log) && FindsServed(s') && e.Set? {
        NoOverlapIsFound(steps[..|steps| - 1]);
        NewcomerFoundOnlyAlone(s, e.h);
      }
    }
    if OneAtATime(s'.log) {
      NoOverlapIsFound(steps);
    }
  }

  ghost predicate FoundThroughout(steps: seq<Step>) {
    forall n :: 0 <= n <= |steps| ==> FindsServed(Run(steps[..n]))
  }

  lemma FoundThroughoutLast(steps: seq<Step>)
    requires steps != []
    ensures FoundThroughout(steps) <==> FoundThroughout(steps[..|steps| - 1]) && FindsServed(Run(steps))
  {
    hide FindsServed, Run;
    var front := steps[..|steps| - 1];
    assert steps[..|steps|] == steps;
    assert forall n :: 0 <= n <= |front| ==> front[..n] == steps[..n];
    if FoundThroughout(steps) {
      forall n | 0 <= n <= |front| ensures FindsServed(Run(front[..n])) {
        assert FindsServed(Run(steps[..n]));
      }
    }
  }

  /**
    Throughout a run the packet threads find exactly the streams being served, if and only if no handler
    registered before the earlier ones had cleared.
   */
  lemma {:induction false} AlwaysFoundIff(steps: seq<Step>)
    ensures FoundThroughout(steps) <==> OneAtATime(Run(steps).log)
  {
    if steps == [] {
      assert steps[..0] == [];
    } else {
      hide *;
      AlwaysFoundIff(steps[..|steps| - 1]);
      FoundThroughoutLast(steps);
      FoundStep(steps);
    }
  }

  function MoveFour(s: State, x: Step): State {
    Move(Move(Move(Move(s, x), x), x), x)
  }

  lemma HandlerEnters(s: State, h: Handler)
    requires h !in s.handlers && s.lock.None?
    ensures MoveFour(s, HandlerStep(h)) ==
            s.(handlers := s.handlers[h := Serving], stream := Some(h), log := s.log + [Set(h)])
  {
    var x := HandlerStep(h);
    var s1 := Move(s, x);
    assert s1 == s.(handlers := s.handlers[h := Started]);
    var s2 := Move(s1, x);
    assert s2 == s.(handlers := s.handlers[h := SetLocked], lock := Some(HandlerOwner(h)));
    var s3 := Move(s2, x);
    assert s3 == s2.(handlers := s.handlers[h := SetDone], stream := Some(h), log := s.log + [Set(h)]);
  }

  lemma HandlerLeaves(s: State, h: Handler)
    requires PhaseOf(s, h) == Some(Serving) && s.lock.None?
    ensures MoveFour(s, HandlerStep(h)) ==
            s.(handlers := s.handlers[h := Returned], stream := None, log := s.log + [Clear(h)])
  {
    var x := HandlerStep(h);
    var s1 := Move(s, x);
    assert s1 == s.(handlers := s.handlers[h := ClearLocked], lock := Some(HandlerOwner(h)));
    var s2 := Move(s1, x);
    assert s2 == s1.(handlers := s.handlers[h := ClearDone], stream := None, log := s.log + [Clear(h)]);
    var s3 := Move(s2, x);
    assert s3 == s2.(handlers := s.handlers[h := Returned], lock := None);
  }

  lemma PuntUnsent(s: State, t: Thread)
    requires PuntOf(s, t).Idle? && s.lock.None? && s.stream.None?
    ensures var s' := MoveFour(s, PuntStep(t));
            s'.reports == s.reports + [(s.nextPunt, false)] && s'.handlers == s.handlers && s'.lock.None?
  {
    var x := PuntStep(t);
    var s1 := Move(s, x);
    assert s1 == s.(punts := s.punts[t := Waiting(s.nextPunt)], nextPunt := s.nextPunt + 1);
    var s2 := Move(s1, x);
    assert s2 == s1.(punts := s.punts[t := Locked(s.nextPunt)], lock := Some(PuntOwner(t)));
    var s3 := Move(s2, x);
    assert s3 == s2.(punts := s.punts[t := Decided(s.nextPunt, false)], log := s.log + [Unsent(s.nextPunt)]);
  }

  /** Of two serving controllers, the first to leave silences the other. */
  lemma OverlapLosesPackets(s: State, g: Handler, h: Handler, t: Thread)
    requires g != h && PhaseOf(s, g) == Some(Serving) && PhaseOf(s, h) == Some(Serving)
    requires s.lock.None? && PuntOf(s, t).Idle?
    ensures var s' := MoveFour(MoveFour(s, HandlerStep(g)), PuntStep(t));
            PhaseOf(s', h) == Some(Serving) && s'.reports == s.reports + [(s.nextPunt, false)]
  {
    hide MoveFour;
    HandlerLeaves(s, g);
    PuntUnsent(MoveFour(s, HandlerStep(g)), t);
  }

  /** Two controllers can be serving at once. */
  lemma OverlapHappens()
    ensures var s := MoveFour(MoveFour(INIT, HandlerStep(1)), HandlerStep(2));
            PhaseOf(s, 1) == Some(Serving) && PhaseOf(s, 2) == Some(Serving) && s.lock.None? &&
            s == Run([HandlerStep(1), HandlerStep(1), HandlerStep(1), HandlerStep(1),
                      HandlerStep(2), HandlerStep(2), HandlerStep(2), HandlerStep(2)])
  {
    hide MoveFour;
    var one, two := HandlerStep(1), HandlerStep(2);
    HandlerEnters(INIT, 1);
    HandlerEnters(MoveFour(INIT, one), 2);
    RunFour([], one);
    assert [] + [one, one, one, one] == [one, one, one, one];
    RunFour([one, one, one, one], two);
    assert [one, one, one, one] + [two, two, two, two] == [one, one, one, one, two, two, two, two];
  }

  lemma RunFour(steps: seq<Step>, x: Step)
    ensures Run(steps + [x, x, x, x]) == MoveFour(Run(steps), x)
  {
    hide Run, Move;
    RunMore(steps, x);
    RunMore(steps + [x], x);
    RunMore(steps + [x] + [x], x);
    RunMore(steps + [x] + [x] + [x], x);
    assert steps + [x, x, x, x] == steps + [x] + [x] + [x] + [x];
  }

  lemma RunMore(steps: seq<Step>, x: Step)
    ensures Run(steps + [x]) == Move(Run(steps), x)
  {
    assert (steps + [x])[..|steps|] == steps;
  }

  // ----- Writes to one stream -----

  /** Two threads are inside Write on the stream of `h`: its handler and a packet thread. */
  ghost predicate Collides(s: State, h: Handler) {
    PhaseOf(s, h) == Some(Replying) && exists t :: t in s.punts && s.punts[t].Writing? && s.punts[t].to == h
  }

  /** The mutex keeps packet threads from each other: only a reply can collide, and only with one of them. */
  lemma OnlyRepliesCollide(steps: seq<Step>, t: Thread, u: Thread)
    requires PuntOf(Run(steps), t).Writing? && PuntOf(Run(steps), u).Writing?
    ensures t == u
  {
    Safe(steps);
  }

  predicate OthersOnly(steps: seq<Step>, h: Handler) {
    forall i :: 0 <= i < |steps| ==> steps[i] != HandlerStep(h) && steps[i] != ReplyStep(h)
  }

  /** A packet thread holds the lock or can take it, and would find the stream of `h`. */
  predicate Exposed(s: State, h: Handler) {
    s.stream == Some(h) && !(s.lock.Some? && s.lock.value.HandlerOwner?)
  }

  /** The handler that holds the lock is about to change the pointer. */
  predicate AboutToChange(s: State) {
    s.lock.Some? && s.lock.value.HandlerOwner? &&
    (PhaseOf(s, s.lock.value.h) == Some(SetLocked) || PhaseOf(s, s.lock.value.h) == Some(ClearLocked))
  }

  /** Out of reach: the stream is not registered, or a handler holds the lock that will change this. */
  ghost predicate Safeguarded(s: State, h: Handler) {
    LockInv(s) && StreamInv(s) && PhaseOf(s, h) == Some(Replying) && (s.stream == Some(h) ==> AboutToChange(s))
  }

  lemma GuardHandlerStep(s: State, h: Handler, g: Handler)
    requires LockInv(s) && g != h && (s.stream == Some(h) ==> AboutToChange(s))
    ensures var s' := MoveHandler(s, g);
            PhaseOf(s', h) == PhaseOf(s, h) && (s'.stream == Some(h) ==> AboutToChange(s'))
  {
    if s.stream == Some(h) && g != s.lock.value.h && g in s.handlers {
      HolderIsAlone(s, s.lock.value.h);
    }
  }

  lemma GuardPuntStep(s: State, h: Handler, t: Thread)
    requires LockInv(s) && (s.stream == Some(h) ==> AboutToChange(s))
    ensures var s' := MovePunt(s, t);
            PhaseOf(s', h) == PhaseOf(s, h) && (s'.stream == Some(h) ==> AboutToChange(s'))
  {
    if s.stream == Some(h) {
      HolderIsAlone(s, s.lock.value.h);
    }
  }

  lemma SafeguardStep(s: State, h: Handler, step: Step)
    requires Safeguarded(s, h) && step != HandlerStep(h) && step != ReplyStep(h)
    ensures Safeguarded(Move(s, step), h)
  {
    LockStep(s, step);
    StreamStep(s, step);
    match step
    case HandlerStep(g) => GuardHandlerStep(s, h, g);
    case ReplyStep(g) =>
      assert s.stream == Some(h) ==> s.lock.value.h in s.handlers && HoldsAsHandler(s.handlers[s.lock.value.h]);
    case PuntStep(t) => GuardPuntStep(s, h, t);
    hide LockInv, StreamInv, MoveHandler, MovePunt;
  }

  lemma {:induction false} SafeguardHolds(s: State, h: Handler, steps: seq<Step>)
    requires Safeguarded(s, h) && OthersOnly(steps, h)
    ensures Safeguarded(RunFrom(s, steps), h)
  {
    hide Safeguarded;
    if steps == [] {
    } else {
      SafeguardHolds(s, h, steps[..|steps| - 1]);
      SafeguardStep(RunFrom(s, steps[..|steps| - 1]), h, steps[|steps| - 1]);
    }
  }

  lemma SafeguardedAlone(s: State, h: Handler)
    requires Safeguarded(s, h)
    ensures !Collides(s, h)
  {
  }

  lemma {:induction false} RunConcat(s: State, a: seq<Step>, b: seq<Step>)
    ensures RunFrom(s, a + b) == RunFrom(RunFrom(s, a), b)
    decreases |b|
  {
    if b == [] {
      assert a + b == a;
    } else {
      hide Move;
      RunConcat(s, a, b[..|b| - 1]);
      assert (a + b)[..|a + b| - 1] == a + b[..|b| - 1];
    }
  }

  lemma RunOne(s: State, x: Step)
    ensures RunFrom(s, [x]) == Move(s, x)
  {
    assert [x][..0] == [];
  }

  /** How many steps a packet thread is away from its next write. */
  function Distance(p: Punt): nat {
    match p case Writing(_, _) => 0 case Locked(_) => 1 case Waiting(_) => 2 case Idle => 3 case Decided(_, _) => 4
  }

  /** The packet thread `t` can go on, whatever the others do. */
  predicate Unhindered(s: State, h: Handler, t: Thread) {
    PhaseOf(s, h) == Some(Replying) && s.stream == Some(h) &&
    (PuntOf(s, t).Writing? ==> PuntOf(s, t).to == h) &&
    s.lock == if HoldsAsPunt(PuntOf(s, t)) then Some(PuntOwner(t)) else None
  }

  lemma UnhinderedStep(s: State, h: Handler, t: Thread)
    requires Unhindered(s, h, t) && !PuntOf(s, t).Writing?
    ensures var s' := Move(s, PuntStep(t)); Unhindered(s', h, t) && Distance(PuntOf(s', t)) < Distance(PuntOf(s, t))
  {
  }

  lemma {:induction false} ThreadGetsThere(s: State, h: Handler, t: Thread) returns (more: seq<Step>)
    requires Unhindered(s, h, t)
    ensures OthersOnly(more, h) && Collides(RunFrom(s, more), h)
    decreases Distance(PuntOf(s, t))
  {
    if PuntOf(s, t).Writing? {
      more := [];
      assert t in s.punts;
    } else {
      var x := PuntStep(t);
      UnhinderedStep(s, h, t);
      hide Unhindered, Move, Collides, RunFrom;
      var rest := ThreadGetsThere(Move(s, x), h, t);
      more := [x] + rest;
      RunOne(s, x);
      RunConcat(s, [x], rest);
    }
  }

  /** A thread that can go on: the one with the lock, or any one when the lock is free. */
  lemma SomeThread(s: State, h: Handler) returns (t: Thread)
    requires LockInv(s) && StreamInv(s) && PhaseOf(s, h) == Some(Replying) && Exposed(s, h)
    ensures Unhindered(s, h, t)
  {
    t := if s.lock.Some? then s.lock.value.t else 0;
    assert t in s.punts ==> (HoldsAsPunt(s.punts[t]) <==> s.lock == Some(PuntOwner(t)));
  }

  lemma HiddenIsSafeguarded(s: State, h: Handler)
    requires LockInv(s) && StreamInv(s) && PhaseOf(s, h) == Some(Replying) && !Exposed(s, h)
    ensures Safeguarded(s, h)
  {
    if s.stream == Some(h) {
      var g := s.lock.value.h;
      assert g in s.handlers && HoldsAsHandler(s.handlers[g]) && g != h;
    }
  }

  /**
    While a handler is inside the write of its reply, the others can bring a packet thread inside a write on
    the same stream exactly when that stream is registered and no handler holds the lock.
   */
  lemma ReplyCollidesIff(steps: seq<Step>, h: Handler)
    requires PhaseOf(Run(steps), h) == Some(Replying)
    ensures (exists more :: OthersOnly(more, h) && Collides(RunFrom(Run(steps), more), h)) <==>
            Exposed(Run(steps), h)
  {
    var s := Run(steps);
    Safe(steps);
    hide Run, RunFrom, LockInv, StreamInv, LogInv, Exposed, Collides, OthersOnly, Safeguarded, Unhindered;
    if Exposed(s, h) {
      var t := SomeThread(s, h);
      var more := ThreadGetsThere(s, h, t);
    } else {
      HiddenIsSafeguarded(s, h);
      forall more | OthersOnly(more, h)
        ensures !Collides(RunFrom(s, more), h)
      {
        SafeguardHolds(s, h, more);
        SafeguardedAlone(RunFrom(s, more), h);
      }
    }
  }

  /** Such a collision happens: one controller, one packet thread. */
  lemma ReplyCollides() returns (steps: seq<Step>)
    ensures Collides(Run(steps), 1)
  {
    var x, y := HandlerStep(1), ReplyStep(1);
    HandlerEnters(INIT, 1);
    RunFour([], x);
    assert [] + [x, x, x, x] == [x, x, x, x];
    RunMore([x, x, x, x], y);
    var start := [x, x, x, x] + [y];
    hide Run, RunFrom, MoveFour, Collides;
    var more := ThreadGetsThere(Run(start), 1, 0);
    RunConcat(INIT, start, more);
    steps := start + more;
  }
}
