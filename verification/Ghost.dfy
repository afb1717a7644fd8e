/** The ghost engine of src/ghost.rs: an eight-state machine with a sync queue, a budget of
    wake cycles and an event log.  Log messages, timestamps and the mirrored world state
    are not part of the model. */
module Ghost {

  datatype GhostState = Init | Sleep | Wake | Beacon | Sync | Idle | Panic | Zeroized

  datatype Config = Config(idleToSleepAfterCycles: nat, syncBatchLimit: nat,
                           zeroizeOnPanic: bool, autoSleepWhenIdle: bool)

  datatype Metrics = Metrics(connected: nat, known: nat, route: nat)

  const NO_METRICS := Metrics(0, 0, 0)

  datatype Event =
    | StateChanged(from: GhostState, to: GhostState)
    | BeaconSent(state: GhostState, metrics: Metrics)
    | SyncBatch(batch: seq<string>)
    | PanicRaised(reason: string)
    | WasZeroized

  /** `stopped` is set when the event loop has ended. */
  datatype Engine = Engine(state: GhostState, metrics: Metrics, pending: seq<string>, wakeCyclesLeft: nat,
                           tamper: bool, events: seq<Event>, stopped: bool)

  datatype Trigger = Pulse | SyncTick | WakeUp | ForceSync | ForceBeacon | PanicNow(reason: string) | Manual

  datatype Decision = DoBeacon | DoSync(force: bool) | DoPanic(reason: string) | DoSleep | DoIdle

  datatype HealthBand = InitBand | Ready | Active | Degraded | Critical | Offline

  datatype Input =
    | BeaconTick | SyncTicked
    | CmdWake | CmdSleep | CmdEnqueueSync(item: string) | CmdTriggerSync | CmdTriggerBeacon
    | CmdTriggerPanic(reason: string) | CmdZeroize | CmdUpdateMetrics(metrics: Metrics)
    | CmdSetTamper(tamper: bool) | CmdObserveSignal

  // ---------- the functions of the state ----------

  predicate Refused(from: GhostState, to: GhostState) { from == Zeroized || (from == Panic && to == Beacon) }

  function Transition(e: Engine, to: GhostState): Engine {
    if Refused(e.state, to) || e.state == to then e
    else e.(state := to, events := e.events + [StateChanged(e.state, to)])
  }

  function Assess(c: Config, e: Engine): HealthBand {
    if e.state == Zeroized then Offline
    else if e.state == Init then InitBand
    else if e.state == Panic || e.tamper then Critical
    else if e.metrics.connected == 0 && c.autoSleepWhenIdle then Degraded
    else if |e.pending| > 0 then Active
    else if e.state == Sleep then Ready
    else Active
  }

  function Decide(c: Config, e: Engine, health: HealthBand, trigger: Trigger): seq<Decision> {
    if e.state == Zeroized then []
    else
      match trigger
      case PanicNow(reason) => [DoPanic(reason)]
      case ForceBeacon => [DoBeacon]
      case ForceSync => [DoSync(true)]
      case WakeUp => [DoBeacon]
      case _ =>
        if e.tamper || health == Critical then [DoPanic("tamper_detected")]
        else if e.state == Sleep then [DoSleep]
        else if |e.pending| > 0 || trigger == SyncTick then [DoSync(|e.pending| > 0)]
        else if trigger == Pulse then [DoBeacon]
        else if c.autoSleepWhenIdle && e.wakeCyclesLeft == 0 then
          if e.metrics.connected == 0 then [DoSleep] else [DoIdle]
        else [DoIdle]
  }

  // ---------- the steps ----------

  function PerformBeacon(e: Engine): Engine {
    if e.state == Zeroized then e
    else
      var e' := Transition(e, Beacon);
      e'.(events := e'.events + [BeaconSent(e'.state, e'.metrics)])
  }

  /** Moves up to the limit from the queue into a batch; an empty batch is sent only if forced. */
  function TakeBatch(c: Config, e: Engine, force: bool): Engine {
    var n := if |e.pending| < c.syncBatchLimit then |e.pending| else c.syncBatchLimit;
    if n == 0 && !force then e
    else e.(pending := e.pending[n..], events := e.events + [SyncBatch(e.pending[..n])])
  }

  function PerformSync(c: Config, e: Engine, force: bool): Engine {
    if e.state == Zeroized || e.state == Panic || (e.pending == [] && !force) then e
    else Transition(TakeBatch(c, Transition(e, Sync), force), Idle)
  }

  function PerformZeroize(e: Engine): Engine {
    var e' := Transition(e.(pending := [], metrics := NO_METRICS, wakeCyclesLeft := 0, tamper := false), Zeroized);
    e'.(events := e'.events + [WasZeroized])
  }

  function PerformPanic(c: Config, e: Engine, reason: string): Engine {
    if e.state == Zeroized then e
    else
      var e' := Transition(e, Panic);
      var e'' := e'.(events := e'.events + [PanicRaised(reason)]);
      if c.zeroizeOnPanic then PerformZeroize(e'') else e''
  }

  function Act(c: Config, e: Engine, d: Decision): Engine {
    match d
    case DoBeacon => PerformBeacon(e)
    case DoSync(force) => PerformSync(c, e, force)
    case DoPanic(reason) => PerformPanic(c, e, reason)
    case DoSleep => if e.state != Zeroized then Transition(e, Sleep) else e
    case DoIdle => if e.state != Zeroized && e.state != Sleep then Transition(e, Idle) else e
  }

  function AfterActivePulse(c: Config, e: Engine): Engine {
    if e.state == Zeroized || e.state == Panic then e
    else
      var left := if e.wakeCyclesLeft > 0 then e.wakeCyclesLeft - 1 else 0;
      if e.metrics.connected > 0 then
        var e' := e.(wakeCyclesLeft := c.idleToSleepAfterCycles);
        if e.state != Idle && e.state != Beacon then Transition(e', Idle) else e'
      else
        var e' := e.(wakeCyclesLeft := left);
        if left == 0 && c.autoSleepWhenIdle then Transition(e', Sleep) else e'
  }

  function ActAll(c: Config, e: Engine, ds: seq<Decision>): Engine
    decreases |ds|
  {
    if ds == [] then e else ActAll(c, Act(c, e, ds[0]), ds[1..])
  }

  function RunCycle(c: Config, e: Engine, trigger: Trigger): Engine {
    if e.state == Zeroized then e
    else
      var ds := Decide(c, e, Assess(c, e), trigger);
      if ds == [] then e else AfterActivePulse(c, ActAll(c, e, ds))
  }

  /** The trigger of the cycle an input starts, if it starts one. */
  function CycleOf(e: Engine, input: Input): seq<Trigger> {
    if e.stopped || e.state == Zeroized then []
    else
      match input
      case BeaconTick => if e.state == Sleep then [] else [Pulse]
      case SyncTicked => if e.state == Sleep then [] else [SyncTick]
      case CmdWake => if e.state == Panic then [] else [WakeUp]
      case CmdSleep => []
      case CmdEnqueueSync(_) => [Manual]
      case CmdTriggerSync => [ForceSync]
      case CmdTriggerBeacon => [ForceBeacon]
      case CmdTriggerPanic(reason) => [PanicNow(reason)]
      case CmdZeroize => []
      case CmdUpdateMetrics(_) => [Manual]
      case CmdSetTamper(tamper) => if tamper then [PanicNow("tamper_flag_set")] else []
      case CmdObserveSignal => [Manual]
  }

  /** What an input changes before any cycle. */
  function Prepare(c: Config, e: Engine, input: Input): Engine {
    if e.stopped then e
    else
      match input
      case CmdWake =>
        if e.state == Zeroized || e.state == Panic then e
        else Transition(e.(wakeCyclesLeft := c.idleToSleepAfterCycles), Wake)
      case CmdSleep => if e.state == Zeroized then e else Transition(e.(wakeCyclesLeft := 0), Sleep)
      case CmdEnqueueSync(item) => if e.state == Zeroized then e else e.(pending := e.pending + [item])
      case CmdZeroize => PerformZeroize(e).(stopped := true)
      case CmdUpdateMetrics(metrics) => e.(metrics := metrics)
      case CmdSetTamper(tamper) => e.(tamper := tamper)
      case _ => e
  }

  function Handle(c: Config, e: Engine, input: Input): Engine {
    var e' := Prepare(c, e, input);
    var cycle := CycleOf(e, input);
    if cycle == [] then e' else RunCycle(c, e', cycle[0])
  }

  function Boot(c: Config): Engine {
    Transition(Engine(Init, NO_METRICS, [], c.idleToSleepAfterCycles, false, [], false), Sleep)
  }

  function Run(c: Config, inputs: seq<Input>): Engine {
    if inputs == [] then Boot(c) else Handle(c, Run(c, inputs[..|inputs| - 1]), inputs[|inputs| - 1])
  }

  // ---------- the event log ----------

  ghost predicate LiveEvent(ev: Event) { ev.BeaconSent? || ev.SyncBatch? || ev.PanicRaised? }

  /** The state changes form one path from Init to `s`; nothing leaves Zeroized, Panic does
      not become Beacon, and no beacon, batch or panic is sent from Zeroized. */
  ghost predicate Path(events: seq<Event>, s: GhostState) {
    if events == [] then s == Init
    else
      var before, ev := events[..|events| - 1], events[|events| - 1];
      match ev
      case StateChanged(from, to) => to == s && from != to && !Refused(from, to) && Path(before, from)
      case WasZeroized => s == Zeroized && Path(before, s)
      case _ => s != Zeroized && Path(before, s)
  }

  /** The contents of all batches sent, in order. */
  ghost function Sent(events: seq<Event>): seq<string> {
    if events == [] then []
    else
      Sent(events[..|events| - 1])
      + if events[|events| - 1].SyncBatch? then events[|events| - 1].batch else []
  }

  ghost predicate BatchesWithin(events: seq<Event>, limit: nat) {
    forall i :: 0 <= i < |events| && events[i].SyncBatch? ==> |events[i].batch| <= limit
  }

  /** The items taken in so far. */
  ghost function AcceptedItems(c: Config, inputs: seq<Input>): seq<string> {
    if inputs == [] then []
    else
      var n := |inputs| - 1;
      var e := Run(c, inputs[..n]);
      AcceptedItems(c, inputs[..n])
      + if inputs[n].CmdEnqueueSync? && !e.stopped && e.state != Zeroized then [inputs[n].item] else []
  }

  ghost predicate Conserved(e: Engine, accepted: seq<string>) {
    if e.state == Zeroized then e.pending == [] && Sent(e.events) <= accepted
    else Sent(e.events) + e.pending == accepted
  }

  ghost predicate Consistent(c: Config, e: Engine, accepted: seq<string>) {
    Path(e.events, e.state) && Conserved(e, accepted) && BatchesWithin(e.events, c.syncBatchLimit)
  }

  lemma SentSnoc(events: seq<Event>, ev: Event)
    ensures Sent(events + [ev]) == Sent(events) + if ev.SyncBatch? then ev.batch else []
  {
  }

  lemma PathSnoc(events: seq<Event>, ev: Event, s: GhostState)
    requires Path(events, s) && s != Zeroized && LiveEvent(ev)
    ensures Path(events + [ev], s)
  {
  }

  lemma PathChange(events: seq<Event>, from: GhostState, to: GhostState)
    requires Path(events, from) && from != to && !Refused(from, to)
    ensures Path(events + [StateChanged(from, to)], to)
  {
  }

  lemma TransitionConsistent(c: Config, e: Engine, to: GhostState, accepted: seq<string>)
    requires Consistent(c, e, accepted) && to != Zeroized
    ensures Consistent(c, Transition(e, to), accepted)
  {
    if e.state != to && !Refused(e.state, to) {
      PathChange(e.events, e.state, to);
      SentSnoc(e.events, StateChanged(e.state, to));
    }
  }

  /** Sending an event that is no batch. */
  lemma EmitConsistent(c: Config, e: Engine, ev: Event, accepted: seq<string>)
    requires Consistent(c, e, accepted) && e.state != Zeroized && LiveEvent(ev) && !ev.SyncBatch?
    ensures Consistent(c, e.(events := e.events + [ev]), accepted)
  {
    PathSnoc(e.events, ev, e.state);
    SentSnoc(e.events, ev);
  }

  /** Moving the front of the queue into a batch. */
  lemma BatchConsistent(c: Config, e: Engine, n: nat, accepted: seq<string>)
    requires Consistent(c, e, accepted) && e.state != Zeroized && n <= |e.pending| && n <= c.syncBatchLimit
    ensures Consistent(c, e.(pending := e.pending[n..], events := e.events + [SyncBatch(e.pending[..n])]), accepted)
  {
    var ev := SyncBatch(e.pending[..n]);
    PathSnoc(e.events, ev, e.state);
    SentSnoc(e.events, ev);
    assert Sent(e.events) + e.pending[..n] + e.pending[n..] == Sent(e.events) + e.pending;
  }

  lemma BeaconConsistent(c: Config, e: Engine, accepted: seq<string>)
    requires Consistent(c, e, accepted)
    ensures Consistent(c, PerformBeacon(e), accepted)
  {
    if e.state != Zeroized {
      var e' := Transition(e, Beacon);
      TransitionConsistent(c, e, Beacon, accepted);
      EmitConsistent(c, e', BeaconSent(e'.state, e'.metrics), accepted);
    }
  }

  lemma EraseConsistent(c: Config, e: Engine, accepted: seq<string>)
    requires Consistent(c, e, accepted) && e.state != Zeroized
    ensures Consistent(c, e.(pending := [], state := Zeroized,
                             events := e.events + [StateChanged(e.state, Zeroized)]), accepted)
  {
  }

  lemma NoticeConsistent(c: Config, e: Engine, accepted: seq<string>)
    requires Consistent(c, e, accepted) && e.state == Zeroized
    ensures Consistent(c, e.(events := e.events + [WasZeroized]), accepted)
  {
  }

  /** Dropping the queue and the counters before Zeroized. */
  lemma ZeroizeConsistent(c: Config, e: Engine, accepted: seq<string>)
    requires Consistent(c, e, accepted)
    ensures Consistent(c, PerformZeroize(e), accepted) && PerformZeroize(e).state == Zeroized
  {
    var cleared := e.(pending := [], metrics := NO_METRICS, wakeCyclesLeft := 0, tamper := false);
    if e.state != Zeroized {
      EraseConsistent(c, e, accepted);
    }
    NoticeConsistent(c, Transition(cleared, Zeroized), accepted);
  }

  lemma PanicConsistent(c: Config, e: Engine, reason: string, accepted: seq<string>)
    requires Consistent(c, e, accepted)
    ensures Consistent(c, PerformPanic(c, e, reason), accepted)
  {
    if e.state != Zeroized {
      var e' := Transition(e, Panic);
      TransitionConsistent(c, e, Panic, accepted);
      EmitConsistent(c, e', PanicRaised(reason), accepted);
      ZeroizeConsistent(c, e'.(events := e'.events + [PanicRaised(reason)]), accepted);
    }
  }

  lemma TakeBatchConsistent(c: Config, e: Engine, force: bool, accepted: seq<string>)
    requires Consistent(c, e, accepted) && e.state != Zeroized
    ensures Consistent(c, TakeBatch(c, e, force), accepted)
  {
    BatchConsistent(c, e, if |e.pending| < c.syncBatchLimit then |e.pending| else c.syncBatchLimit, accepted);
  }

  lemma SyncConsistent(c: Config, e: Engine, force: bool, accepted: seq<string>)
    requires Consistent(c, e, accepted)
    ensures Consistent(c, PerformSync(c, e, force), accepted)
  {
    if !(e.state == Zeroized || e.state == Panic || (e.pending == [] && !force)) {
      TransitionConsistent(c, e, Sync, accepted);
      TakeBatchConsistent(c, Transition(e, Sync), force, accepted);
      TransitionConsistent(c, TakeBatch(c, Transition(e, Sync), force), Idle, accepted);
    }
  }

  lemma ActConsistent(c: Config, e: Engine, d: Decision, accepted: seq<string>)
    requires Consistent(c, e, accepted)
    ensures Consistent(c, Act(c, e, d), accepted)
  {
    match d
    case DoBeacon => BeaconConsistent(c, e, accepted);
    case DoSync(force) => SyncConsistent(c, e, force, accepted);
    case DoPanic(reason) => PanicConsistent(c, e, reason, accepted);
    case DoSleep => TransitionConsistent(c, e, Sleep, accepted);
    case DoIdle => TransitionConsistent(c, e, Idle, accepted);
  }

  lemma AfterConsistent(c: Config, e: Engine, accepted: seq<string>)
    requires Consistent(c, e, accepted)
    ensures Consistent(c, AfterActivePulse(c, e), accepted)
  {
    if e.state == Zeroized || e.state == Panic {
    } else if e.metrics.connected > 0 {
      TransitionConsistent(c, e.(wakeCyclesLeft := c.idleToSleepAfterCycles), Idle, accepted);
    } else {
      var left := if e.wakeCyclesLeft > 0 then e.wakeCyclesLeft - 1 else 0;
      TransitionConsistent(c, e.(wakeCyclesLeft := left), Sleep, accepted);
    }
  }

  lemma {:induction false} ActAllConsistent(c: Config, e: Engine, ds: seq<Decision>, accepted: seq<string>)
    requires Consistent(c, e, accepted)
    ensures Consistent(c, ActAll(c, e, ds), accepted)
    decreases |ds|
  {
    if ds != [] {
      ActConsistent(c, e, ds[0], accepted);
      ActAllConsistent(c, Act(c, e, ds[0]), ds[1..], accepted);
    }
  }

  lemma CycleConsistent(c: Config, e: Engine, trigger: Trigger, accepted: seq<string>)
    requires Consistent(c, e, accepted)
    ensures Consistent(c, RunCycle(c, e, trigger), accepted)
  {
    var ds := Decide(c, e, Assess(c, e), trigger);
    ActAllConsistent(c, e, ds, accepted);
    AfterConsistent(c, ActAll(c, e, ds), accepted);
  }

  lemma PrepareConsistent(c: Config, e: Engine, input: Input, accepted: seq<string>)
    requires Consistent(c, e, accepted)
    ensures Consistent(c, Prepare(c, e, input),
              if input.CmdEnqueueSync? && !e.stopped && e.state != Zeroized then accepted + [input.item] else accepted)
  {
    if !e.stopped {
      match input
      case CmdWake => TransitionConsistent(c, e.(wakeCyclesLeft := c.idleToSleepAfterCycles), Wake, accepted);
      case CmdSleep => TransitionConsistent(c, e.(wakeCyclesLeft := 0), Sleep, accepted);
      case CmdZeroize => ZeroizeConsistent(c, e, accepted);
      case CmdEnqueueSync(item) =>
        assert Sent(e.events) + (e.pending + [item]) == Sent(e.events) + e.pending + [item];
      case _ =>
    }
  }

  lemma {:induction false} RunConsistent(c: Config, inputs: seq<Input>)
    ensures Consistent(c, Run(c, inputs), AcceptedItems(c, inputs))
  {
    if inputs == [] {
      var start := Engine(Init, NO_METRICS, [], c.idleToSleepAfterCycles, false, [], false);
      TransitionConsistent(c, start, Sleep, []);
    } else {
      var n := |inputs| - 1;
      var e := Run(c, inputs[..n]);
      RunConsistent(c, inputs[..n]);
      PrepareConsistent(c, e, inputs[n], AcceptedItems(c, inputs[..n]));
      var cycle := CycleOf(e, inputs[n]);
      if cycle != [] {
        CycleConsistent(c, Prepare(c, e, inputs[n]), cycle[0], AcceptedItems(c, inputs));
      }
    }
  }

  /** In every run: until zeroization the batches sent followed by the queue are exactly the
      items taken in, in order; afterwards the batches are a prefix of them. */
  lemma NothingLostOrReordered(c: Config, inputs: seq<Input>)
    ensures var e := Run(c, inputs);
      && (e.state != Zeroized ==> Sent(e.events) + e.pending == AcceptedItems(c, inputs))
      && Sent(e.events) <= AcceptedItems(c, inputs)
      && BatchesWithin(e.events, c.syncBatchLimit)
  {
    RunConsistent(c, inputs);
  }

  lemma {:induction false} PathStaysZeroized(events: seq<Event>, s: GhostState, i: nat, j: nat)
    requires Path(events, s) && i < j < |events|
    requires events[i] == WasZeroized || (events[i].StateChanged? && events[i].to == Zeroized)
    ensures events[j] == WasZeroized && s == Zeroized
  {
    var n := |events| - 1;
    var ev := events[n];
    var before := if ev.StateChanged? then ev.from else s;
    assert events[..n][i] == events[i];
    if i < n - 1 {
      PathStaysZeroized(events[..n], before, i, n - 1);
    } else {
      assert events[..n][n - 1] == events[i];
    }
    if j < n {
      assert events[..n][j] == events[j];
      PathStaysZeroized(events[..n], before, i, j);
    }
  }

  /** In every run the state changes are one unbroken path, and Zeroized is final: nothing
      but the zeroization notice itself is sent from it. */
  lemma ZeroizedIsFinal(c: Config, inputs: seq<Input>, i: nat, j: nat)
    requires i < j < |Run(c, inputs).events|
    requires var ev := Run(c, inputs).events[i]; ev == WasZeroized || (ev.StateChanged? && ev.to == Zeroized)
    ensures Run(c, inputs).events[j] == WasZeroized
    ensures Path(Run(c, inputs).events, Run(c, inputs).state) && Run(c, inputs).state == Zeroized
  {
    RunConsistent(c, inputs);
    PathStaysZeroized(Run(c, inputs).events, Run(c, inputs).state, i, j);
  }

  /** Where the reported state changes lead. */
  function StateAfter(events: seq<Event>): GhostState {
    if events == [] then Init
    else
      match events[|events| - 1]
      case StateChanged(_, to) => to
      case _ => StateAfter(events[..|events| - 1])
  }

  lemma {:induction false} PathLeadsTo(events: seq<Event>, s: GhostState)
    requires Path(events, s)
    ensures StateAfter(events) == s
  {
    if events != [] {
      var ev := events[|events| - 1];
      PathLeadsTo(events[..|events| - 1], if ev.StateChanged? then ev.from else s);
    }
  }

  lemma {:induction false} PathEdge(events: seq<Event>, s: GhostState, i: nat)
    requires Path(events, s) && i < |events| && events[i].StateChanged?
    ensures var ev := events[i];
      && ev.from == StateAfter(events[..i]) && ev.from != ev.to
      && ev.from != Zeroized && !(ev.from == Panic && ev.to == Beacon)
  {
    var n := |events| - 1;
    var before := if events[n].StateChanged? then events[n].from else s;
    if i < n {
      assert events[..n][..i] == events[..i] && events[..n][i] == events[i];
      PathEdge(events[..n], before, i);
    } else {
      PathLeadsTo(events[..n], before);
    }
  }

  /** In every run each reported change starts where the one before ended, the first at Init
      and the last ending in the present state; none leaves Zeroized, and Panic never turns
      into Beacon. */
  lemma ChangesFormAPath(c: Config, inputs: seq<Input>, i: nat)
    requires i < |Run(c, inputs).events| && Run(c, inputs).events[i].StateChanged?
    ensures var ev := Run(c, inputs).events[i];
      && ev.from == StateAfter(Run(c, inputs).events[..i]) && ev.from != ev.to
      && ev.from != Zeroized && !(ev.from == Panic && ev.to == Beacon)
    ensures StateAfter(Run(c, inputs).events) == Run(c, inputs).state
  {
    RunConsistent(c, inputs);
    PathEdge(Run(c, inputs).events, Run(c, inputs).state, i);
    PathLeadsTo(Run(c, inputs).events, Run(c, inputs).state);
  }

  // ---------- falling asleep ----------

  /** No peers, no tamper flag, and neither panicking nor zeroized. */
  ghost predicate Calm(e: Engine) {
    e.metrics.connected == 0 && !e.tamper && !e.stopped && e.state !in {Init, Panic, Zeroized}
  }

  /** Inputs that bring no peers, wake-up, panic or end. */
  ghost predicate Quiet(input: Input) {
    match input
    case CmdWake => false
    case CmdTriggerPanic(_) => false
    case CmdZeroize => false
    case CmdUpdateMetrics(metrics) => metrics.connected == 0
    case CmdSetTamper(tamper) => !tamper
    case _ => true
  }

  function HandleAll(c: Config, e: Engine, inputs: seq<Input>): Engine {
    if inputs == [] then e
    else Handle(c, HandleAll(c, e, inputs[..|inputs| - 1]), inputs[|inputs| - 1])
  }

  /** How many cycles the inputs start. */
  function Cycles(c: Config, e: Engine, inputs: seq<Input>): nat {
    if inputs == [] then 0
    else
      var n := |inputs| - 1;
      Cycles(c, e, inputs[..n]) + |CycleOf(HandleAll(c, e, inputs[..n]), inputs[n])|
  }

  lemma CalmAct(c: Config, e: Engine, d: Decision)
    requires Calm(e) && !d.DoPanic?
    ensures Calm(Act(c, e, d)) && Act(c, e, d).wakeCyclesLeft == e.wakeCyclesLeft
  {
  }

  lemma CalmAfter(c: Config, e: Engine)
    requires c.autoSleepWhenIdle && Calm(e)
    ensures var e' := AfterActivePulse(c, e);
      && Calm(e')
      && e'.wakeCyclesLeft == (if e.wakeCyclesLeft > 0 then e.wakeCyclesLeft - 1 else 0)
      && (e'.wakeCyclesLeft == 0 ==> e'.state == Sleep)
  {
  }

  lemma CalmCycle(c: Config, e: Engine, trigger: Trigger)
    requires c.autoSleepWhenIdle && Calm(e) && !trigger.PanicNow?
    ensures var e' := RunCycle(c, e, trigger);
      && Calm(e')
      && e'.wakeCyclesLeft == (if e.wakeCyclesLeft > 0 then e.wakeCyclesLeft - 1 else 0)
      && (e'.wakeCyclesLeft == 0 ==> e'.state == Sleep)
  {
    var ds := Decide(c, e, Assess(c, e), trigger);
    assert |ds| == 1 && !ds[0].DoPanic?;
    var acted := Act(c, e, ds[0]);
    assert ds[1..] == [];
    assert ActAll(c, acted, ds[1..]) == acted;
    CalmAct(c, e, ds[0]);
    CalmAfter(c, acted);
  }

  lemma CalmHandle(c: Config, e: Engine, input: Input)
    requires c.autoSleepWhenIdle && Calm(e) && Quiet(input)
    ensures var e' := Handle(c, e, input);
      && Calm(e')
      && |CycleOf(e, input)| <= 1
      && e'.wakeCyclesLeft <= e.wakeCyclesLeft
      && (CycleOf(e, input) != [] ==>
            e'.wakeCyclesLeft == (if e.wakeCyclesLeft > 0 then e.wakeCyclesLeft - 1 else 0)
            && (e'.wakeCyclesLeft == 0 ==> e'.state == Sleep))
      && (CycleOf(e, input) == [] ==>
            e'.state == Sleep || (e'.state == e.state && e'.wakeCyclesLeft == e.wakeCyclesLeft))
  {
    var cycle := CycleOf(e, input);
    if cycle != [] {
      CalmCycle(c, Prepare(c, e, input), cycle[0]);
    }
  }

  lemma {:induction false} QuietRun(c: Config, e: Engine, inputs: seq<Input>)
    requires c.autoSleepWhenIdle && Calm(e)
    requires forall i :: 0 <= i < |inputs| ==> Quiet(inputs[i])
    ensures var e' := HandleAll(c, e, inputs); var n := Cycles(c, e, inputs);
      && Calm(e')
      && e'.wakeCyclesLeft <= (if e.wakeCyclesLeft > n then e.wakeCyclesLeft - n else 0)
      && (n >= 1 && e'.wakeCyclesLeft == 0 ==> e'.state == Sleep)
  {
    if inputs != [] {
      var n := |inputs| - 1;
      QuietRun(c, e, inputs[..n]);
      CalmHandle(c, HandleAll(c, e, inputs[..n]), inputs[n]);
    }
  }

  /** With auto-sleep, no peers and neither wake-up nor panic, the engine is asleep once the
      wake budget's worth of cycles has run, and again after every later input. */
  lemma FallsAsleep(c: Config, e: Engine, inputs: seq<Input>)
    requires c.autoSleepWhenIdle && Calm(e)
    requires forall i :: 0 <= i < |inputs| ==> Quiet(inputs[i])
    requires Cycles(c, e, inputs) >= 1 && Cycles(c, e, inputs) >= e.wakeCyclesLeft
    ensures HandleAll(c, e, inputs).state == Sleep
  {
    QuietRun(c, e, inputs);
  }

  // ---------- panic and progress ----------

  /** In every run a panic command is reported at once and, if so configured, ends in
      zeroization with an empty queue. */
  lemma PanicTakesHold(c: Config, inputs: seq<Input>, reason: string)
    requires Run(c, inputs).state != Zeroized && !Run(c, inputs).stopped
    ensures var e, e' := Run(c, inputs), Run(c, inputs + [CmdTriggerPanic(reason)]);
      var raised := e.events + Raised(e.state, reason);
      if c.zeroizeOnPanic
      then e'.state == Zeroized && e'.pending == []
           && e'.events == raised + [StateChanged(Panic, Zeroized)] + [WasZeroized]
      else e'.state == Panic && e'.pending == e.pending && e'.events == raised
  {
    assert (inputs + [CmdTriggerPanic(reason)])[..|inputs|] == inputs;
    PanicHandled(c, Run(c, inputs), reason);
  }

  function Raised(from: GhostState, reason: string): seq<Event> {
    (if from == Panic then [] else [StateChanged(from, Panic)]) + [PanicRaised(reason)]
  }

  lemma PanicHandled(c: Config, e: Engine, reason: string)
    requires e.state != Zeroized && !e.stopped
    ensures var e' := Handle(c, e, CmdTriggerPanic(reason));
      var raised := e.events + Raised(e.state, reason);
      if c.zeroizeOnPanic
      then e'.state == Zeroized && e'.pending == []
           && e'.events == raised + [StateChanged(Panic, Zeroized)] + [WasZeroized]
      else e'.state == Panic && e'.pending == e.pending && e'.events == raised
  {
    var ds := Decide(c, e, Assess(c, e), PanicNow(reason));
    assert ds == [DoPanic(reason)] && ds[1..] == [];
    var acted := Act(c, e, ds[0]);
    assert ActAll(c, acted, ds[1..]) == acted;
    assert e.state != Panic ==>
      e.events + [StateChanged(e.state, Panic)] + [PanicRaised(reason)] == e.events + Raised(e.state, reason);
  }

  /** Awake, connected and undisturbed. */
  ghost predicate Awake(e: Engine) {
    e.metrics.connected > 0 && !e.tamper && !e.stopped && e.state !in {Init, Sleep, Panic, Zeroized}
  }

  function Rest(items: seq<string>, n: nat): seq<string> { if n < |items| then items[n..] else [] }

  lemma RestRest(items: seq<string>, m: nat, n: nat)
    ensures Rest(Rest(items, m), n) == Rest(items, m + n)
  {
  }

  lemma SyncTickSends(c: Config, e: Engine)
    requires Awake(e)
    ensures Awake(Handle(c, e, SyncTicked)) && Handle(c, e, SyncTicked).pending == Rest(e.pending, c.syncBatchLimit)
  {
    var ds := Decide(c, e, Assess(c, e), SyncTick);
    assert ds == [DoSync(|e.pending| > 0)] && ds[1..] == [];
    var acted := Act(c, e, ds[0]);
    assert ActAll(c, acted, ds[1..]) == acted;
  }

  function Ticks(n: nat): seq<Input> { seq(n, _ => SyncTicked) }

  lemma TickSends(c: Config, e: Engine, n: nat)
    requires n > 0 && Awake(HandleAll(c, e, Ticks(n - 1)))
    ensures Awake(HandleAll(c, e, Ticks(n)))
    ensures HandleAll(c, e, Ticks(n)).pending == Rest(HandleAll(c, e, Ticks(n - 1)).pending, c.syncBatchLimit)
  {
    assert Ticks(n)[..n - 1] == Ticks(n - 1);
    SyncTickSends(c, HandleAll(c, e, Ticks(n - 1)));
  }

  function RestOften(items: seq<string>, n: nat, size: nat): seq<string> {
    if n == 0 then items else Rest(RestOften(items, n - 1, size), size)
  }

  lemma {:induction false} RestOftenIs(items: seq<string>, n: nat, size: nat)
    ensures RestOften(items, n, size) == Rest(items, n * size)
  {
    if n != 0 {
      RestOftenIs(items, n - 1, size);
      RestRest(items, (n - 1) * size, size);
      assert (n - 1) * size + size == n * size;
    }
  }

  lemma {:induction false} TicksSend(c: Config, e: Engine, n: nat)
    requires Awake(e)
    ensures Awake(HandleAll(c, e, Ticks(n)))
    ensures HandleAll(c, e, Ticks(n)).pending == RestOften(e.pending, n, c.syncBatchLimit)
  {
    if n != 0 {
      TicksSend(c, e, n - 1);
      TickSends(c, e, n);
    }
  }

  /** Sync ticks alone drain the queue, a full batch at a time. */
  lemma TicksDrain(c: Config, e: Engine, n: nat)
    requires Awake(e)
    ensures HandleAll(c, e, Ticks(n)).pending == Rest(e.pending, n * c.syncBatchLimit)
  {
    TicksSend(c, e, n);
    RestOftenIs(e.pending, n, c.syncBatchLimit);
  }
}
