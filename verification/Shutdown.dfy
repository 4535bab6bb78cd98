/**
 Starting and stopping the three servers. Each has a goroutine that waits for a signal, stops its
 server and closes a channel, and a goroutine that serves, waits for that channel and leaves the
 WaitGroup; the main goroutine starts them in turn, waits for the group, and shuts the sequencer
 down. Events are steps of any goroutine, of request handlers, and of the operating system.
 */
module Shutdown {
  import opened Bytes

  const SERVERS := 3

  datatype SignalPc = NoSignal | Registering | Receiving | Stopping | Closing | SignalDone

  datatype ServePc = NoServe | Serving | AwaitingClose | Leaving | ServeDone

  datatype Part = Part(signal: SignalPc, serve: ServePc, buffered: bool, closes: nat, inflight: nat)

  /** Start of server i: listen and spawn the signal goroutine, then Add(1), then spawn the serve goroutine. */
  datatype MainPc = Listen(i: nat) | AddOne(i: nat) | Spawn(i: nat) | Waiting | ShuttingDown | MainDone

  datatype State = State(main: MainPc, parts: seq<Part>, wg: int, shutdowns: nat, exited: bool)

  const IDLE := Part(NoSignal, NoServe, false, 0, 0)
  const INITIAL := State(Listen(0), [IDLE, IDLE, IDLE], 0, 0, false)

  datatype Event =
    // the main goroutine
    | ListenStep(ok: bool) | AddStep | SpawnStep | WaitReturns | SequencerShutdown
    // signal goroutine of server i
    | Notify(i: nat) | Receive(i: nat) | StopReturns(i: nat) | Close(i: nat)
    // serve goroutine of server i; ok is false when Serve fails
    | ServeReturns(i: nat, ok: bool) | SeeClosed(i: nat) | Done(i: nat)
    // a request handler ends
    | Depart(i: nat)
    // from outside: a request arrives, a signal is delivered
    | Arrive(i: nat) | Signal

  predicate StopBegun(p: Part) { p.signal.Stopping? || p.signal.Closing? || p.signal.SignalDone? }

  /** The stop call of the server has returned. */
  predicate StopReturned(p: Part) { p.signal.Closing? || p.signal.SignalDone? }

  predicate Registered(p: Part) { p.signal.Receiving? || StopBegun(p) }

  /** A step of one of the two goroutines of a server, or of its request handlers. */
  predicate IsPartEvent(e: Event) {
    e.Notify? || e.Receive? || e.StopReturns? || e.Close? || (e.ServeReturns? && e.ok) || e.SeeClosed? || e.Done? || e.Depart? || e.Arrive?
  }

  predicate PartEnabled(p: Part, e: Event)
    requires IsPartEvent(e)
  {
    match e
    case Notify(_) => p.signal.Registering?
    case Receive(_) => p.signal.Receiving? && p.buffered
    // GracefulStop and Shutdown return when no request is in progress.
    case StopReturns(_) => p.signal.Stopping? && p.inflight == 0
    case Close(_) => p.signal.Closing?
    case ServeReturns(_, _) => p.serve.Serving? && StopBegun(p)
    case SeeClosed(_) => p.serve.AwaitingClose? && p.closes > 0
    case Done(_) => p.serve.Leaving?
    case Depart(_) => p.inflight > 0
    // A server that is stopping still takes requests on open connections.
    case Arrive(_) => !p.serve.NoServe? && !StopReturned(p)
  }

  function PartStep(p: Part, e: Event): Part
    requires IsPartEvent(e) && PartEnabled(p, e)
  {
    match e
    case Notify(_) => p.(signal := Receiving)
    case Receive(_) => p.(signal := Stopping, buffered := false)
    case StopReturns(_) => p.(signal := Closing)
    case Close(_) => p.(signal := SignalDone, closes := p.closes + 1)
    case ServeReturns(_, _) => p.(serve := AwaitingClose)
    case SeeClosed(_) => p.(serve := Leaving)
    case Done(_) => p.(serve := ServeDone)
    case Depart(_) => p.(inflight := p.inflight - 1)
    case Arrive(_) => p.(inflight := p.inflight + 1)
  }

  predicate Enabled(s: State, e: Event)
    requires |s.parts| == SERVERS
  {
    && !s.exited
    && if IsPartEvent(e) then e.i < SERVERS && PartEnabled(s.parts[e.i], e)
       else
         match e
         case ListenStep(_) => s.main.Listen? && s.main.i < SERVERS
         case AddStep => s.main.AddOne? && s.main.i < SERVERS
         case SpawnStep => s.main.Spawn? && s.main.i < SERVERS
         case WaitReturns => s.main.Waiting? && s.wg == 0
         case SequencerShutdown => s.main.ShuttingDown?
         case ServeReturns(i, _) => i < SERVERS && s.parts[i].serve.Serving?
         case Signal => true
  }

  function SetPart(s: State, i: nat, p: Part): (s': State)
    requires |s.parts| == SERVERS && i < SERVERS
    ensures |s'.parts| == SERVERS
  {
    s.(parts := s.parts[i := p])
  }

  function Deliver(p: Part): Part { if Registered(p) then p.(buffered := true) else p }

  predicate NobodyListens(s: State)
    requires |s.parts| == SERVERS
  {
    !Registered(s.parts[0]) && !Registered(s.parts[1]) && !Registered(s.parts[2])
  }

  function Apply(s: State, e: Event): (s': State)
    requires |s.parts| == SERVERS && Enabled(s, e)
    ensures |s'.parts| == SERVERS
  {
    if IsPartEvent(e) then
      SetPart(s, e.i, PartStep(s.parts[e.i], e)).(wg := if e.Done? then s.wg - 1 else s.wg)
    else
      match e
      case ListenStep(ok) =>
        if !ok then s.(exited := true)
        else SetPart(s, s.main.i, s.parts[s.main.i].(signal := Registering)).(main := AddOne(s.main.i))
      case AddStep => s.(main := Spawn(s.main.i), wg := s.wg + 1)
      case SpawnStep =>
        SetPart(s, s.main.i, s.parts[s.main.i].(serve := Serving))
        .(main := if s.main.i + 1 < SERVERS then Listen(s.main.i + 1) else Waiting)
      case WaitReturns => s.(main := ShuttingDown)
      case SequencerShutdown => s.(main := MainDone, shutdowns := s.shutdowns + 1)
      case ServeReturns(_, _) => s.(exited := true)
      case Signal =>
        // Without a registered channel the default action of the signal ends the process.
        if NobodyListens(s) then s.(exited := true)
        else s.(parts := [Deliver(s.parts[0]), Deliver(s.parts[1]), Deliver(s.parts[2])])
  }

  // ----- safety

  /** How far main has come: the servers whose signal goroutine, Add and serve goroutine are started. */
  function Spawned(m: MainPc): nat {
    match m
    case Listen(i) => i
    case AddOne(i) => i + 1
    case Spawn(i) => i + 1
    case _ => SERVERS
  }

  function AddedTo(m: MainPc): nat {
    match m
    case Listen(i) => i
    case AddOne(i) => i
    case Spawn(i) => i + 1
    case _ => SERVERS
  }

  function ServingTo(m: MainPc): nat {
    match m
    case Listen(i) => i
    case AddOne(i) => i
    case Spawn(i) => i
    case _ => SERVERS
  }

  ghost predicate PartOk(m: MainPc, i: nat, p: Part) {
    && (p.signal.NoSignal? <==> i >= Spawned(m))
    && (p.serve.NoServe? <==> i >= ServingTo(m))
    && p.closes == (if p.signal.SignalDone? then 1 else 0)
    && (p.serve.AwaitingClose? || p.serve.Leaving? || p.serve.ServeDone? ==> StopBegun(p))
    && (p.serve.Leaving? || p.serve.ServeDone? ==> p.signal.SignalDone?)
    && (StopReturned(p) ==> p.inflight == 0)
    && (p.signal.NoSignal? || p.signal.Registering? ==> !p.buffered)
  }

  /** What server i still owes the WaitGroup. */
  function Owes(m: MainPc, i: nat, p: Part): int {
    if i < AddedTo(m) && !p.serve.ServeDone? then 1 else 0
  }

  ghost predicate Inv(s: State) {
    && |s.parts| == SERVERS
    && ((s.main.Listen? || s.main.AddOne? || s.main.Spawn?) ==> s.main.i < SERVERS)
    && (forall i :: 0 <= i < SERVERS ==> PartOk(s.main, i, s.parts[i]))
    && s.wg == Owes(s.main, 0, s.parts[0]) + Owes(s.main, 1, s.parts[1]) + Owes(s.main, 2, s.parts[2])
    && (s.main.ShuttingDown? || s.main.MainDone? ==> forall i :: 0 <= i < SERVERS ==> s.parts[i].serve.ServeDone?)
    && s.shutdowns == if s.main.MainDone? then 1 else 0
  }

  lemma MainKeepsInv(s: State, e: Event)
    requires Inv(s) && Enabled(s, e)
    requires e.ListenStep? || e.AddStep? || e.SpawnStep? || e.WaitReturns? || e.SequencerShutdown?
    ensures Inv(Apply(s, e))
  {
    var s' := Apply(s, e);
    forall i | 0 <= i < SERVERS ensures PartOk(s'.main, i, s'.parts[i]) {
      assert PartOk(s.main, i, s.parts[i]);
    }
  }

  lemma PartStepOk(m: MainPc, i: nat, p: Part, e: Event)
    requires PartOk(m, i, p) && i < SERVERS && IsPartEvent(e) && PartEnabled(p, e)
    ensures var p' := PartStep(p, e);
            && PartOk(m, i, p') && (p.serve.ServeDone? ==> p'.serve.ServeDone?)
            && Owes(m, i, p') == Owes(m, i, p) - if e.Done? then 1 else 0
  {
  }

  lemma PartKeepsInv(s: State, e: Event)
    requires Inv(s) && Enabled(s, e) && IsPartEvent(e)
    ensures Inv(Apply(s, e))
  {
    hide PartOk, Owes, PartStep, PartEnabled;
    PartStepOk(s.main, e.i, s.parts[e.i], e);
  }

  lemma DeliverOk(m: MainPc, i: nat, p: Part)
    requires PartOk(m, i, p)
    ensures PartOk(m, i, Deliver(p)) && Owes(m, i, Deliver(p)) == Owes(m, i, p) && Deliver(p).serve == p.serve
    ensures PartLeft(Deliver(p)) == PartLeft(p)
  {
  }

  lemma SignalKeepsInv(s: State)
    requires Inv(s) && Enabled(s, Signal)
    ensures Inv(Apply(s, Signal)) && Measure(Apply(s, Signal)) <= Measure(s)
  {
    hide PartOk, Owes, Deliver, PartLeft, MainLeft, Registered;
    DeliverOk(s.main, 0, s.parts[0]);
    DeliverOk(s.main, 1, s.parts[1]);
    DeliverOk(s.main, 2, s.parts[2]);
  }

  lemma StepKeepsInv(s: State, e: Event)
    requires Inv(s) && Enabled(s, e)
    ensures Inv(Apply(s, e))
  {
    if IsPartEvent(e) {
      PartKeepsInv(s, e);
    } else if e.Signal? {
      SignalKeepsInv(s);
    } else if !e.ServeReturns? {
      MainKeepsInv(s, e);
    }
  }

  ghost function Exec(s: State, events: seq<Event>): (r: Option<State>)
    requires Inv(s)
    ensures r.Some? ==> Inv(r.value)
    decreases |events|
  {
    if events == [] then Some(s)
    else
      match Exec(s, Init(events))
      case None => None
      case Some(t) => if Enabled(t, Last(events)) then (StepKeepsInv(t, Last(events)); Some(Apply(t, Last(events)))) else None
  }

  lemma InitialInv()
    ensures Inv(INITIAL)
  {
    assert PartOk(Listen(0), 0, IDLE) && PartOk(Listen(0), 1, IDLE) && PartOk(Listen(0), 2, IDLE);
  }

  /** The state after a run of the process. */
  ghost function RunFrom(events: seq<Event>): (r: Option<State>)
    ensures r.Some? ==> Inv(r.value)
  {
    InitialInv();
    Exec(INITIAL, events)
  }

  /**
   Safety in every interleaving: the WaitGroup counter is never negative, no channel is closed
   twice, the sequencer is shut down at most once, and only after every stop call has returned,
   every serve goroutine has left, and no CreateEntry or other request is in progress.
   */
  lemma ShutdownIsSafe(events: seq<Event>)
    requires RunFrom(events).Some?
    ensures var s := RunFrom(events).value;
            && s.wg >= 0 && s.shutdowns <= 1
            && (forall i :: 0 <= i < SERVERS ==> s.parts[i].closes <= 1)
            && (s.main.ShuttingDown? || s.shutdowns == 1 ==>
                  forall i :: 0 <= i < SERVERS ==>
                    StopReturned(s.parts[i]) && s.parts[i].serve.ServeDone? && s.parts[i].closes == 1 && s.parts[i].inflight == 0)
  {
    hide RunFrom;
    var s := RunFrom(events).value;
    assert PartOk(s.main, 0, s.parts[0]) && PartOk(s.main, 1, s.parts[1]) && PartOk(s.main, 2, s.parts[2]);
  }

  /**
   A server takes requests from the start of serving until its stop call has returned, also while
   it drains: the call does not return before the new request has ended as well.
   */
  lemma DrainingStillServes(s: State, i: nat)
    requires Inv(s) && !s.exited && i < SERVERS && !s.parts[i].serve.NoServe?
    ensures Enabled(s, Arrive(i)) <==> !StopReturned(s.parts[i])
    ensures !StopReturned(s.parts[i]) ==>
              var t := Apply(s, Arrive(i));
              && !Enabled(t, StopReturns(i)) && Enabled(t, Depart(i)) && Apply(t, Depart(i)) == s
  {
    if !StopReturned(s.parts[i]) {
      var t := Apply(s, Arrive(i));
      assert Apply(t, Depart(i)).parts == s.parts;
    }
  }

  // ----- progress

  /** A step of the process itself, and not a request or a signal from outside. */
  predicate IsInternal(e: Event) { !e.Arrive? && !e.Signal? }

  /** An internal step that is not the failure of Listen or Serve. */
  predicate IsRegular(e: Event) { IsInternal(e) && e != ListenStep(false) && !(e.ServeReturns? && !e.ok) }

  function SignalLeft(p: SignalPc): nat {
    match p
    case NoSignal => 5 case Registering => 4 case Receiving => 3 case Stopping => 2 case Closing => 1 case SignalDone => 0
  }

  function ServeLeft(p: ServePc): nat {
    match p
    case NoServe => 4 case Serving => 3 case AwaitingClose => 2 case Leaving => 1 case ServeDone => 0
  }

  function MainLeft(m: MainPc): int {
    match m
    case Listen(i) => 12 - 3 * i case AddOne(i) => 11 - 3 * i case Spawn(i) => 10 - 3 * i
    case Waiting => 2 case ShuttingDown => 1 case MainDone => 0
  }

  function PartLeft(p: Part): nat { SignalLeft(p.signal) + ServeLeft(p.serve) + p.inflight }

  /** The number of steps that the process can still take without new requests. */
  function Measure(s: State): int
    requires |s.parts| == SERVERS
  {
    MainLeft(s.main) + PartLeft(s.parts[0]) + PartLeft(s.parts[1]) + PartLeft(s.parts[2]) + if s.exited then 0 else 1
  }

  lemma MeasureSet(s: State, i: nat, p: Part)
    requires |s.parts| == SERVERS && i < SERVERS
    ensures Measure(SetPart(s, i, p)) == Measure(s) - PartLeft(s.parts[i]) + PartLeft(p)
  {
    hide PartLeft, MainLeft;
  }

  lemma MeasureOfPart(p: Part, e: Event)
    requires IsPartEvent(e) && PartEnabled(p, e)
    ensures if e.Arrive? then PartLeft(PartStep(p, e)) == PartLeft(p) + 1 else PartLeft(PartStep(p, e)) < PartLeft(p)
  {
  }

  lemma MeasureOfMain(s: State, e: Event)
    requires Inv(s) && Enabled(s, e) && !IsPartEvent(e) && !e.Signal?
    ensures Measure(Apply(s, e)) < Measure(s)
  {
    hide PartLeft, Owes;
    if (e.ListenStep? && e.ok) || e.SpawnStep? {
      var i := s.main.i;
      var p := Apply(s, e).parts[i];
      assert PartOk(s.main, i, s.parts[i]);
      StartedLeft(s.parts[i], p);
      MeasureSet(s, i, p);
    }
  }

  lemma StartedLeft(p: Part, p': Part)
    requires (p.signal.NoSignal? && p' == p.(signal := Registering)) || (p.serve.NoServe? && p' == p.(serve := Serving))
    ensures PartLeft(p') < PartLeft(p)
  {
  }

  lemma MeasureNonNegative(s: State)
    requires Inv(s)
    ensures Measure(s) >= 0
  {
  }

  /** Every internal step uses up the measure; an arriving request adds one; a signal adds nothing. */
  lemma MeasureDecreases(s: State, e: Event)
    requires Inv(s) && Enabled(s, e)
    ensures Measure(Apply(s, e)) >= 0
    ensures IsInternal(e) ==> Measure(Apply(s, e)) < Measure(s)
    ensures e.Arrive? ==> Measure(Apply(s, e)) == Measure(s) + 1
    ensures e.Signal? ==> Measure(Apply(s, e)) <= Measure(s)
  {
    hide PartOk, Owes, PartStep, PartEnabled, PartLeft, MainLeft;
    StepKeepsInv(s, e);
    MeasureNonNegative(Apply(s, e));
    if IsPartEvent(e) {
      MeasureOfPart(s.parts[e.i], e);
      MeasureSet(s, e.i, PartStep(s.parts[e.i], e));
    } else if e.Signal? {
      SignalKeepsInv(s);
    } else {
      MeasureOfMain(s, e);
    }
  }

  /** A server has a signal in its channel, or has taken one. */
  predicate Signalled(p: Part) { StopBegun(p) || (p.signal.Receiving? && p.buffered) }

  ghost predicate AllSignalled(s: State)
    requires |s.parts| == SERVERS
  {
    forall i :: 0 <= i < SERVERS ==> Signalled(s.parts[i])
  }

  lemma AllSignalledStays(s: State, e: Event)
    requires Inv(s) && Enabled(s, e) && AllSignalled(s)
    ensures AllSignalled(Apply(s, e))
  {
    var s' := Apply(s, e);
    forall i | 0 <= i < SERVERS ensures Signalled(s'.parts[i]) {
      assert Signalled(s.parts[i]);
      assert PartOk(s.main, i, s.parts[i]);
    }
  }

  function NextOf(p: Part, i: nat): Event {
    match p.signal
    case Receiving => Receive(i)
    case Stopping => if p.inflight > 0 then Depart(i) else StopReturns(i)
    case Closing => Close(i)
    case _ =>
      match p.serve
      case Serving => ServeReturns(i, true)
      case AwaitingClose => SeeClosed(i)
      case _ => Done(i)
  }

  /** No deadlock: once every server is signalled, some step of the process is possible until it is done or has exited. */
  lemma Progress(s: State) returns (e: Event)
    requires Inv(s) && AllSignalled(s) && !s.exited && !s.main.MainDone?
    ensures IsRegular(e) && Enabled(s, e)
  {
    assert Signalled(s.parts[0]) && Signalled(s.parts[1]) && Signalled(s.parts[2]);
    assert PartOk(s.main, 0, s.parts[0]) && PartOk(s.main, 1, s.parts[1]) && PartOk(s.main, 2, s.parts[2]);
    match s.main
    case Listen(_) => e := ListenStep(true);
    case AddOne(_) => e := AddStep;
    case Spawn(_) => e := SpawnStep;
    case ShuttingDown => e := SequencerShutdown;
    case Waiting =>
      if s.wg == 0 {
        e := WaitReturns;
      } else {
        var i := if !s.parts[0].serve.ServeDone? then 0 else if !s.parts[1].serve.ServeDone? then 1 else 2;
        e := NextOf(s.parts[i], i);
      }
  }

  ghost function Count(events: seq<Event>, internal: bool): nat {
    if events == [] then 0
    else Count(Init(events), internal)
         + if (internal && IsInternal(Last(events))) || (!internal && Last(events).Arrive?) then 1 else 0
  }

  /** Bounded work: a run takes at most as many internal steps as the measure at its start plus the requests that arrive. */
  lemma {:induction false} InternalStepsAreBounded(s: State, events: seq<Event>)
    requires Inv(s) && Exec(s, events).Some?
    ensures Count(events, true) + Measure(Exec(s, events).value) <= Measure(s) + Count(events, false)
    decreases |events|
  {
    hide Measure, Inv, Enabled, Apply;
    if events != [] {
      InternalStepsAreBounded(s, Init(events));
      ExecLength(Exec(s, Init(events)).value);
      MeasureDecreases(Exec(s, Init(events)).value, Last(events));
    }
  }

  lemma ExecLength(s: State)
    requires Inv(s)
    ensures |s.parts| == SERVERS
  {
  }

  lemma {:induction false} SignalledAlong(s: State, events: seq<Event>)
    requires Inv(s) && AllSignalled(s) && Exec(s, events).Some?
    ensures AllSignalled(Exec(s, events).value)
    decreases |events|
  {
    hide Inv, Enabled, Apply, AllSignalled;
    if events != [] {
      SignalledAlong(s, Init(events));
      ExecLength(Exec(s, Init(events)).value);
      AllSignalledStays(Exec(s, Init(events)).value, Last(events));
    }
  }

  /** The process cannot go on by itself, unless Listen or Serve fails. */
  ghost predicate Stuck(s: State)
    requires |s.parts| == SERVERS
  {
    forall e :: IsRegular(e) ==> !Enabled(s, e)
  }

  /**
   Termination: from the moment at which every server has received a signal after registering for
   it, a run that cannot take another step of its own has shut the sequencer down exactly once, or
   the process exited on an error.
   */
  lemma ShutdownIsReached(s: State, events: seq<Event>)
    requires Inv(s) && AllSignalled(s) && Exec(s, events).Some? && Stuck(Exec(s, events).value)
    ensures var t := Exec(s, events).value; t.exited || (t.main.MainDone? && t.shutdowns == 1)
  {
    hide Exec, Enabled;
    SignalledAlong(s, events);
    var t := Exec(s, events).value;
    if !t.exited && !t.main.MainDone? {
      var e := Progress(t);
    }
  }

  // ----- which signals are enough

  /** One signal is enough exactly when all servers have registered for it, and ends the process when none has. */
  lemma OneSignalSuffices(s: State)
    requires Inv(s) && !s.exited
    ensures AllSignalled(Apply(s, Signal)) <==> forall i :: 0 <= i < SERVERS ==> Registered(s.parts[i])
    ensures Apply(s, Signal).exited <==> forall i :: 0 <= i < SERVERS ==> !Registered(s.parts[i])
  {
    var s' := Apply(s, Signal);
    if AllSignalled(s') {
      assert Signalled(s'.parts[0]) && Signalled(s'.parts[1]) && Signalled(s'.parts[2]);
    }
  }

  ghost predicate NoSignals(events: seq<Event>) {
    forall i :: 0 <= i < |events| ==> !events[i].Signal?
  }

  lemma UnsignalledStep(s: State, e: Event, i: nat)
    requires Inv(s) && Enabled(s, e) && !e.Signal? && i < SERVERS && !Signalled(s.parts[i])
    ensures !Signalled(Apply(s, e).parts[i])
  {
    assert PartOk(s.main, i, s.parts[i]);
  }

  lemma {:induction false} UnsignalledAlong(s: State, events: seq<Event>, i: nat)
    requires Inv(s) && i < SERVERS && !Signalled(s.parts[i]) && Exec(s, events).Some? && NoSignals(events)
    ensures !Signalled(Exec(s, events).value.parts[i])
    decreases |events|
  {
    hide Inv, Enabled, Apply, Signalled;
    if events != [] {
      UnsignalledAlong(s, Init(events), i);
      ExecLength(Exec(s, Init(events)).value);
      UnsignalledStep(Exec(s, Init(events)).value, Last(events), i);
    }
  }

  /** A server without a signal keeps the sequencer running: without a further signal it is never shut down. */
  lemma UnsignalledNeverShutsDown(s: State, events: seq<Event>)
    requires Inv(s) && !AllSignalled(s) && Exec(s, events).Some? && NoSignals(events)
    ensures Exec(s, events).value.shutdowns == 0 && !Exec(s, events).value.main.ShuttingDown?
  {
    hide Exec;
    var i :| 0 <= i < SERVERS && !Signalled(s.parts[i]);
    UnsignalledAlong(s, events, i);
    var t := Exec(s, events).value;
    assert PartOk(t.main, i, t.parts[i]);
  }

  lemma ExecSnoc(s: State, events: seq<Event>, e: Event)
    requires Inv(s) && Exec(s, events).Some? && Enabled(Exec(s, events).value, e)
    ensures Exec(s, events + [e]) == Some(Apply(Exec(s, events).value, e))
  {
    InitLast(events, e);
  }

  lemma RegularKeepsRunning(s: State, e: Event)
    requires Inv(s) && Enabled(s, e) && IsRegular(e) && !s.exited
    ensures !Apply(s, e).exited
  {
  }

  /** Every run can go on, without failures and without signals, until it is stuck. */
  lemma {:induction false} RunsUntilStuck(s: State, events: seq<Event>) returns (more: seq<Event>)
    requires Inv(s) && Exec(s, events).Some? && !Exec(s, events).value.exited && NoSignals(events)
    ensures Exec(s, more).Some? && NoSignals(more)
    ensures Stuck(Exec(s, more).value) && !Exec(s, more).value.exited
    decreases Measure(Exec(s, events).value)
  {
    hide Exec, Enabled, Apply, Inv, Measure;
    var t := Exec(s, events).value;
    ExecLength(t);
    if e :| IsRegular(e) && Enabled(t, e) {
      ExecSnoc(s, events, e);
      RegularKeepsRunning(t, e);
      MeasureDecreases(t, e);
      more := RunsUntilStuck(s, events + [e]);
    } else {
      more := events;
    }
  }

  ghost predicate EndsWell(s: State) { s.exited || (s.main.MainDone? && s.shutdowns == 1) }

  /**
   Exactly: without further signals, every run that cannot go on has shut the sequencer down once
   or exited, if and only if every server is signalled.
   */
  lemma ShutdownExactly(s: State)
    requires Inv(s) && !s.exited
    ensures AllSignalled(s) <==>
              forall events :: Exec(s, events).Some? && NoSignals(events) && Stuck(Exec(s, events).value) ==> EndsWell(Exec(s, events).value)
  {
    hide Exec, PartOk, Owes, Stuck, AllSignalled, Measure;
    if AllSignalled(s) {
      forall events | Exec(s, events).Some? && NoSignals(events) && Stuck(Exec(s, events).value)
        ensures EndsWell(Exec(s, events).value)
      {
        ShutdownIsReached(s, events);
      }
    } else {
      ExecNothing(s);
      var events := RunsUntilStuck(s, []);
      UnsignalledNeverShutsDown(s, events);
    }
  }

  lemma ExecNothing(s: State)
    requires Inv(s)
    ensures Exec(s, []) == Some(s)
  {
  }

  /** A process that cannot go on by itself and is not done waits for signals in all three servers. */
  lemma StuckIsRegistered(s: State)
    requires Inv(s) && !s.exited && !s.main.MainDone? && Stuck(s)
    ensures forall i :: 0 <= i < SERVERS ==> Registered(s.parts[i])
  {
    assert IsRegular(ListenStep(true)) && IsRegular(AddStep) && IsRegular(SpawnStep) && IsRegular(SequencerShutdown);
    assert s.main.Waiting?;
    forall i | 0 <= i < SERVERS ensures Registered(s.parts[i]) {
      assert PartOk(s.main, i, s.parts[i]);
      assert IsRegular(Notify(i));
    }
  }

  lemma {:induction false} ExecConcat(s: State, a: seq<Event>, b: seq<Event>)
    requires Inv(s) && Exec(s, a).Some?
    ensures Exec(s, a + b) == Exec(Exec(s, a).value, b)
    decreases |b|
  {
    hide Inv, Enabled, Apply;
    if b == [] {
      assert a + b == a;
    } else {
      ExecConcat(s, a, Init(b));
      assert Init(a + b) == a + Init(b) && Last(a + b) == Last(b);
    }
  }

  /** A signal to a process that waits for one reaches all servers. */
  lemma WaitingTakesSignal(s: State)
    requires Inv(s) && !s.exited && !s.main.MainDone? && Stuck(s)
    ensures Enabled(s, Signal) && !Apply(s, Signal).exited && AllSignalled(Apply(s, Signal))
  {
    hide Stuck, PartOk, Owes;
    StuckIsRegistered(s);
    OneSignalSuffices(s);
  }

  ghost function Signals(events: seq<Event>): nat {
    if events == [] then 0 else Signals(Init(events)) + if Last(events).Signal? then 1 else 0
  }

  lemma {:induction false} SignalsConcat(a: seq<Event>, b: seq<Event>)
    ensures Signals(a + b) == Signals(a) + Signals(b)
    decreases |b|
  {
    if b == [] {
      assert a + b == a;
    } else {
      SignalsConcat(a, Init(b));
      assert Init(a + b) == a + Init(b) && Last(a + b) == Last(b);
    }
  }

  lemma {:induction false} NoSignalsCount(events: seq<Event>)
    requires NoSignals(events)
    ensures Signals(events) == 0
    decreases |events|
  {
    if events != [] {
      NoSignalsCount(Init(events));
    }
  }

  /**
   From every state of a process that has not exited, one more signal, given when the process
   waits for it, is enough for an orderly end: the sequencer is shut down once.
   */
  lemma OneMoreSignalEnds(s: State) returns (events: seq<Event>)
    requires Inv(s) && !s.exited
    ensures Exec(s, events).Some? && Signals(events) <= 1
    ensures var t := Exec(s, events).value; !t.exited && t.main.MainDone? && t.shutdowns == 1
  {
    hide Exec, Enabled, Apply, Stuck, AllSignalled, PartOk, Owes, Measure;
    ExecNothing(s);
    var first := RunsUntilStuck(s, []);
    NoSignalsCount(first);
    var t := Exec(s, first).value;
    if t.main.MainDone? {
      events := first;
    } else {
      WaitingTakesSignal(t);
      ExecSnoc(s, first, Signal);
      var u := Apply(t, Signal);
      ExecNothing(u);
      var rest := RunsUntilStuck(u, []);
      ShutdownIsReached(u, rest);
      NoSignalsCount(rest);
      InitLast(first, Signal);
      SignalsConcat(first + [Signal], rest);
      ExecConcat(s, first + [Signal], rest);
      events := first + [Signal] + rest;
    }
  }

  const EARLY: seq<Event> := [ListenStep(true), Notify(0)] + [Signal]

  /**
   A signal can come too early: it reaches the first server before the second is started, and the
   process can come to a point where only a failure or another signal moves it, never having shut
   the sequencer down.
   */
  lemma EarlySignalIsNotEnough() returns (more: seq<Event>)
    ensures RunFrom(EARLY).Some? && !RunFrom(EARLY).value.exited && !AllSignalled(RunFrom(EARLY).value)
    ensures var s := RunFrom(EARLY).value;
            && Exec(s, more).Some? && NoSignals(more) && Stuck(Exec(s, more).value)
            && !Exec(s, more).value.exited && Exec(s, more).value.shutdowns == 0
  {
    var s := EarlyState();
    hide Exec, Inv, Stuck, AllSignalled, Measure, RunFrom;
    ExecNothing(s);
    more := RunsUntilStuck(s, []);
    UnsignalledNeverShutsDown(s, more);
  }

  lemma EarlyState() returns (s: State)
    ensures RunFrom(EARLY) == Some(s) && Inv(s) && !s.exited && !AllSignalled(s)
  {
    InitialInv();
    ExecNothing(INITIAL);
    ExecSnoc(INITIAL, [], ListenStep(true));
    assert [] + [ListenStep(true)] == [ListenStep(true)];
    ExecSnoc(INITIAL, [ListenStep(true)], Notify(0));
    assert [ListenStep(true)] + [Notify(0)] == [ListenStep(true), Notify(0)];
    ExecSnoc(INITIAL, [ListenStep(true), Notify(0)], Signal);
    s := RunFrom(EARLY).value;
    assert !Signalled(s.parts[1]);
  }
}
