/** What the ghost engine of src/ghost.rs reports for every input: a table of the events
    appended, written without its assess / decide / act machinery, and the proof that every run
    follows it. */
module GhostTraces {
  import opened Ghost

  // ---------- the table ----------

  function Move(from: GhostState, to: GhostState): seq<Event> {
    if from == to then [] else [StateChanged(from, to)]
  }

  /** After a cycle: with peers the engine idles, unless it has just sent a beacon; without, it
      goes to sleep when the wake budget runs out. */
  function Settle(c: Config, state: GhostState, connected: nat, budget: nat): seq<Event> {
    if connected > 0 then if state == Beacon then [] else Move(state, Idle)
    else if c.autoSleepWhenIdle && budget <= 1 then Move(state, Sleep)
    else []
  }

  /** A beacon carries the state then held and the metrics; in panic the state does not change. */
  function BeaconTrace(c: Config, from: GhostState, metrics: Metrics, budget: nat): seq<Event> {
    if from == Panic then [BeaconSent(Panic, metrics)]
    else Move(from, Beacon) + [BeaconSent(Beacon, metrics)] + Settle(c, Beacon, metrics.connected, budget)
  }

  function BatchSize(c: Config, pending: seq<string>): (n: nat)
    ensures n <= |pending|
  {
    if |pending| < c.syncBatchLimit then |pending| else c.syncBatchLimit
  }

  /** A forced sync, or one with items waiting. */
  function SyncTrace(c: Config, from: GhostState, pending: seq<string>, connected: nat, budget: nat): seq<Event> {
    if from == Panic then []
    else
      Move(from, Sync) + [SyncBatch(pending[..BatchSize(c, pending)])] + [StateChanged(Sync, Idle)]
      + Settle(c, Idle, connected, budget)
  }

  function PanicTrace(c: Config, from: GhostState, reason: string): seq<Event> {
    Move(from, Panic) + [PanicRaised(reason)]
    + if c.zeroizeOnPanic then [StateChanged(Panic, Zeroized)] + [WasZeroized] else []
  }

  /** An input without a tick or order of its own, once its item or metrics are taken in. */
  function ManualTrace(c: Config, e: Engine): seq<Event> {
    if e.tamper || e.state == Panic then PanicTrace(c, e.state, "tamper_detected")
    else if e.state == Sleep then Settle(c, Sleep, e.metrics.connected, e.wakeCyclesLeft)
    else if e.pending != [] then SyncTrace(c, e.state, e.pending, e.metrics.connected, e.wakeCyclesLeft)
    else if c.autoSleepWhenIdle && e.wakeCyclesLeft == 0 && e.metrics.connected == 0 then Move(e.state, Sleep)
    else Move(e.state, Idle) + Settle(c, Idle, e.metrics.connected, e.wakeCyclesLeft)
  }

  function Trace(c: Config, e: Engine, input: Input): seq<Event> {
    match input
    case BeaconTick =>
      if e.state == Sleep then []
      else if e.tamper || e.state == Panic then PanicTrace(c, e.state, "tamper_detected")
      else if e.pending != [] then SyncTrace(c, e.state, e.pending, e.metrics.connected, e.wakeCyclesLeft)
      else BeaconTrace(c, e.state, e.metrics, e.wakeCyclesLeft)
    case SyncTicked =>
      if e.state == Sleep then []
      else if e.tamper || e.state == Panic then PanicTrace(c, e.state, "tamper_detected")
      else if e.pending != [] then SyncTrace(c, e.state, e.pending, e.metrics.connected, e.wakeCyclesLeft)
      else Settle(c, e.state, e.metrics.connected, e.wakeCyclesLeft)
    case CmdWake =>
      if e.state == Panic then []
      else Move(e.state, Wake) + BeaconTrace(c, Wake, e.metrics, c.idleToSleepAfterCycles)
    case CmdSleep => Move(e.state, Sleep)
    case CmdTriggerSync => SyncTrace(c, e.state, e.pending, e.metrics.connected, e.wakeCyclesLeft)
    case CmdTriggerBeacon => BeaconTrace(c, e.state, e.metrics, e.wakeCyclesLeft)
    case CmdTriggerPanic(reason) => PanicTrace(c, e.state, reason)
    case CmdZeroize => Move(e.state, Zeroized) + [WasZeroized]
    case CmdSetTamper(tamper) => if tamper then PanicTrace(c, e.state, "tamper_flag_set") else []
    case CmdEnqueueSync(item) => ManualTrace(c, e.(pending := e.pending + [item]))
    case CmdUpdateMetrics(metrics) => ManualTrace(c, e.(metrics := metrics))
    case CmdObserveSignal => ManualTrace(c, e)
  }

  // ---------- the engine follows it ----------

  lemma Join<T>(a: seq<T>, b: seq<T>, d: seq<T>)
    ensures a + b + d == a + (b + d)
  {
  }

  lemma SettleIs(c: Config, e: Engine)
    requires e.state != Zeroized && e.state != Panic
    ensures AfterActivePulse(c, e).events == e.events + Settle(c, e.state, e.metrics.connected, e.wakeCyclesLeft)
  {
  }

  lemma MoveIs(e: Engine, to: GhostState)
    requires !Refused(e.state, to)
    ensures Transition(e, to) == e.(state := to, events := e.events + Move(e.state, to))
  {
    assert e.events + [] == e.events;
  }

  lemma BeaconIs(c: Config, e: Engine)
    requires e.state != Zeroized
    ensures AfterActivePulse(c, PerformBeacon(e)).events
         == e.events + BeaconTrace(c, e.state, e.metrics, e.wakeCyclesLeft)
  {
    if e.state != Panic {
      MoveIs(e, Beacon);
      SettleIs(c, PerformBeacon(e));
      var settle := Settle(c, Beacon, e.metrics.connected, e.wakeCyclesLeft);
      Join(e.events, Move(e.state, Beacon), [BeaconSent(Beacon, e.metrics)]);
      Join(e.events, Move(e.state, Beacon) + [BeaconSent(Beacon, e.metrics)], settle);
    }
  }

  lemma SyncIs(c: Config, e: Engine)
    requires e.state != Zeroized
    ensures AfterActivePulse(c, PerformSync(c, e, true)).events
         == e.events + SyncTrace(c, e.state, e.pending, e.metrics.connected, e.wakeCyclesLeft)
  {
    if e.state == Panic {
      assert e.events + [] == e.events;
    } else {
      MoveIs(e, Sync);
      var batch := SyncBatch(e.pending[..BatchSize(c, e.pending)]);
      var taken := TakeBatch(c, Transition(e, Sync), true);
      MoveIs(taken, Idle);
      SettleIs(c, PerformSync(c, e, true));
      var settle := Settle(c, Idle, e.metrics.connected, e.wakeCyclesLeft);
      Join(e.events, Move(e.state, Sync), [batch]);
      Join(e.events, Move(e.state, Sync) + [batch], [StateChanged(Sync, Idle)]);
      Join(e.events, Move(e.state, Sync) + [batch] + [StateChanged(Sync, Idle)], settle);
    }
  }

  lemma PanicIs(c: Config, e: Engine, reason: string)
    requires e.state != Zeroized
    ensures AfterActivePulse(c, PerformPanic(c, e, reason)).events == e.events + PanicTrace(c, e.state, reason)
  {
    MoveIs(e, Panic);
    Join(e.events, Move(e.state, Panic), [PanicRaised(reason)]);
    var raised := Move(e.state, Panic) + [PanicRaised(reason)];
    if c.zeroizeOnPanic {
      Join(e.events + raised, [StateChanged(Panic, Zeroized)], [WasZeroized]);
      Join(e.events, raised, [StateChanged(Panic, Zeroized)] + [WasZeroized]);
    } else {
      assert raised + [] == raised;
    }
  }

  /** A cycle carries out the one decision it takes. */
  lemma CycleIs(c: Config, e: Engine, trigger: Trigger)
    requires e.state != Zeroized
    ensures |Decide(c, e, Assess(c, e), trigger)| == 1
    ensures RunCycle(c, e, trigger) == AfterActivePulse(c, Act(c, e, Decide(c, e, Assess(c, e), trigger)[0]))
  {
    var ds := Decide(c, e, Assess(c, e), trigger);
    assert ds[1..] == [];
    var acted := Act(c, e, ds[0]);
    assert ActAll(c, acted, ds[1..]) == acted;
  }

  lemma TickIs(c: Config, e: Engine, input: Input)
    requires e.state != Zeroized && !e.stopped && (input.BeaconTick? || input.SyncTicked?)
    ensures Handle(c, e, input).events == e.events + Trace(c, e, input)
  {
    if e.state != Sleep {
      CycleIs(c, e, if input.BeaconTick? then Pulse else SyncTick);
      if e.tamper || e.state == Panic {
        PanicIs(c, e, "tamper_detected");
      } else if e.pending != [] {
        SyncIs(c, e);
      } else if input.BeaconTick? {
        BeaconIs(c, e);
      } else {
        SettleIs(c, e);
      }
    } else {
      assert e.events + [] == e.events;
    }
  }

  lemma ManualIs(c: Config, e: Engine)
    requires e.state != Zeroized
    ensures RunCycle(c, e, Manual).events == e.events + ManualTrace(c, e)
  {
    CycleIs(c, e, Manual);
    if e.tamper || e.state == Panic {
      PanicIs(c, e, "tamper_detected");
    } else if e.state == Sleep {
      SettleIs(c, e);
    } else if e.pending != [] {
      SyncIs(c, e);
    } else if c.autoSleepWhenIdle && e.wakeCyclesLeft == 0 && e.metrics.connected == 0 {
      MoveIs(e, Sleep);
      SettleIs(c, Transition(e, Sleep));
      assert e.events + Move(e.state, Sleep) + [] == e.events + Move(e.state, Sleep);
    } else {
      MoveIs(e, Idle);
      SettleIs(c, Transition(e, Idle));
      Join(e.events, Move(e.state, Idle), Settle(c, Idle, e.metrics.connected, e.wakeCyclesLeft));
    }
  }

  lemma CommandIs(c: Config, e: Engine, input: Input)
    requires e.state != Zeroized && !e.stopped
    requires input.CmdWake? || input.CmdSleep? || input.CmdTriggerSync? || input.CmdTriggerBeacon? || input.CmdZeroize?
    ensures Handle(c, e, input).events == e.events + Trace(c, e, input)
  {
    match input
    case CmdWake =>
      if e.state == Panic {
        assert e.events + [] == e.events;
      } else {
        var woken := Transition(e.(wakeCyclesLeft := c.idleToSleepAfterCycles), Wake);
        MoveIs(e.(wakeCyclesLeft := c.idleToSleepAfterCycles), Wake);
        CycleIs(c, woken, WakeUp);
        BeaconIs(c, woken);
        Join(e.events, Move(e.state, Wake), BeaconTrace(c, Wake, e.metrics, c.idleToSleepAfterCycles));
      }
    case CmdSleep => MoveIs(e.(wakeCyclesLeft := 0), Sleep);
    case CmdTriggerSync =>
      CycleIs(c, e, ForceSync);
      SyncIs(c, e);
    case CmdTriggerBeacon =>
      CycleIs(c, e, ForceBeacon);
      BeaconIs(c, e);
    case CmdZeroize =>
      MoveIs(e.(pending := [], metrics := NO_METRICS, wakeCyclesLeft := 0, tamper := false), Zeroized);
      Join(e.events, Move(e.state, Zeroized), [WasZeroized]);
  }

  lemma HandleIs(c: Config, e: Engine, input: Input)
    requires e.state != Zeroized && !e.stopped
    ensures Handle(c, e, input).events == e.events + Trace(c, e, input)
  {
    match input
    case BeaconTick => TickIs(c, e, input);
    case SyncTicked => TickIs(c, e, input);
    case CmdTriggerPanic(reason) =>
      CycleIs(c, e, PanicNow(reason));
      PanicIs(c, e, reason);
    case CmdSetTamper(tamper) =>
      if tamper {
        CycleIs(c, e.(tamper := true), PanicNow("tamper_flag_set"));
        PanicIs(c, e.(tamper := true), "tamper_flag_set");
      } else {
        assert e.events + [] == e.events;
      }
    case CmdEnqueueSync(item) => ManualIs(c, e.(pending := e.pending + [item]));
    case CmdUpdateMetrics(metrics) => ManualIs(c, e.(metrics := metrics));
    case CmdObserveSignal => ManualIs(c, e);
    case _ => CommandIs(c, e, input);
  }

  // ---------- what the table reads ----------

  /** The metrics last reported and the tamper flag last set, as the inputs tell it. */
  function Reported(inputs: seq<Input>): Metrics {
    if inputs == [] then NO_METRICS
    else
      match inputs[|inputs| - 1]
      case CmdUpdateMetrics(metrics) => metrics
      case _ => Reported(inputs[..|inputs| - 1])
  }

  function Flagged(inputs: seq<Input>): bool {
    if inputs == [] then false
    else
      match inputs[|inputs| - 1]
      case CmdSetTamper(tamper) => tamper
      case _ => Flagged(inputs[..|inputs| - 1])
  }

  function Spent(c: Config, connected: nat, budget: nat): nat {
    if connected > 0 then c.idleToSleepAfterCycles else if budget > 0 then budget - 1 else 0
  }

  /** The wake budget: full again with peers or on waking, one less after any other cycle, none
      after the order to sleep. */
  function NextBudget(c: Config, e: Engine, input: Input): nat {
    var quiet := e.tamper || e.state == Panic;
    match input
    case BeaconTick =>
      if e.state == Sleep || quiet then e.wakeCyclesLeft else Spent(c, e.metrics.connected, e.wakeCyclesLeft)
    case SyncTicked =>
      if e.state == Sleep || quiet then e.wakeCyclesLeft else Spent(c, e.metrics.connected, e.wakeCyclesLeft)
    case CmdWake =>
      if e.state == Panic then e.wakeCyclesLeft else Spent(c, e.metrics.connected, c.idleToSleepAfterCycles)
    case CmdSleep => 0
    case CmdZeroize => 0
    case CmdTriggerPanic(_) => e.wakeCyclesLeft
    case CmdSetTamper(_) => e.wakeCyclesLeft
    case CmdUpdateMetrics(metrics) =>
      if quiet then e.wakeCyclesLeft else Spent(c, metrics.connected, e.wakeCyclesLeft)
    case CmdTriggerSync =>
      if e.state == Panic then e.wakeCyclesLeft else Spent(c, e.metrics.connected, e.wakeCyclesLeft)
    case CmdTriggerBeacon =>
      if e.state == Panic then e.wakeCyclesLeft else Spent(c, e.metrics.connected, e.wakeCyclesLeft)
    case _ => if quiet then e.wakeCyclesLeft else Spent(c, e.metrics.connected, e.wakeCyclesLeft)
  }

  ghost predicate SameFields(e: Engine, e': Engine) {
    e'.metrics == e.metrics && e'.tamper == e.tamper && e'.stopped == e.stopped
  }

  lemma ActKeeps(c: Config, e: Engine, d: Decision)
    requires e.state != Zeroized && Act(c, e, d).state != Zeroized && (e.state == Panic ==> !d.DoSleep? && !d.DoIdle?)
    ensures SameFields(e, Act(c, e, d)) && Act(c, e, d).wakeCyclesLeft == e.wakeCyclesLeft
    ensures Act(c, e, d).state == Panic <==> d.DoPanic? || e.state == Panic
  {
    match d
    case DoSync(force) => SyncKeeps(c, e, force);
    case DoPanic(reason) => PanicKeeps(c, e, reason);
    case DoBeacon =>
    case DoSleep =>
    case DoIdle =>
  }

  lemma SyncKeeps(c: Config, e: Engine, force: bool)
    requires e.state != Zeroized
    ensures var e' := PerformSync(c, e, force);
      SameFields(e, e') && e'.wakeCyclesLeft == e.wakeCyclesLeft && (e'.state == Panic <==> e.state == Panic)
  {
    if e.state != Panic && (e.pending != [] || force) {
      MoveIs(e, Sync);
      var taken := TakeBatch(c, Transition(e, Sync), force);
      assert SameFields(e, taken) && taken.wakeCyclesLeft == e.wakeCyclesLeft && taken.state == Sync;
      MoveIs(taken, Idle);
    }
  }

  lemma PanicKeeps(c: Config, e: Engine, reason: string)
    requires e.state != Zeroized && PerformPanic(c, e, reason).state != Zeroized
    ensures var e' := PerformPanic(c, e, reason);
      SameFields(e, e') && e'.wakeCyclesLeft == e.wakeCyclesLeft && e'.state == Panic
  {
  }

  lemma AfterKeeps(c: Config, e: Engine)
    requires e.state != Zeroized
    ensures SameFields(e, AfterActivePulse(c, e)) && AfterActivePulse(c, e).state != Zeroized
    ensures AfterActivePulse(c, e).wakeCyclesLeft
         == if e.state == Panic then e.wakeCyclesLeft else Spent(c, e.metrics.connected, e.wakeCyclesLeft)
  {
  }

  lemma DecisionInPanic(c: Config, e: Engine, trigger: Trigger)
    requires e.state == Panic
    ensures var d := Decide(c, e, Assess(c, e), trigger)[0]; !d.DoSleep? && !d.DoIdle?
  {
  }

  /** Until zeroization a cycle leaves metrics and flag alone and spends the budget, unless it
      panics or is in panic. */
  lemma CycleKeeps(c: Config, e: Engine, trigger: Trigger)
    requires e.state != Zeroized && RunCycle(c, e, trigger).state != Zeroized
    ensures var e' := RunCycle(c, e, trigger);
      && SameFields(e, e')
      && e'.wakeCyclesLeft
         == (if Decide(c, e, Assess(c, e), trigger)[0].DoPanic? || e.state == Panic then e.wakeCyclesLeft
             else Spent(c, e.metrics.connected, e.wakeCyclesLeft))
  {
    CycleIs(c, e, trigger);
    var d := Decide(c, e, Assess(c, e), trigger)[0];
    var acted := Act(c, e, d);
    if e.state == Panic { DecisionInPanic(c, e, trigger); }
    assert acted.state != Zeroized;
    ActKeeps(c, e, d);
    AfterKeeps(c, acted);
  }

  lemma HandleKeeps(c: Config, e: Engine, input: Input)
    requires e.state != Zeroized && !e.stopped && Handle(c, e, input).state != Zeroized
    ensures var e' := Handle(c, e, input);
      && e'.metrics == (if input.CmdUpdateMetrics? then input.metrics else e.metrics)
      && e'.tamper == (if input.CmdSetTamper? then input.tamper else e.tamper)
      && e'.wakeCyclesLeft == NextBudget(c, e, input) && !e'.stopped
  {
    var cycle := CycleOf(e, input);
    if cycle != [] {
      CycleKeeps(c, Prepare(c, e, input), cycle[0]);
    }
  }

  lemma StaysZeroized(c: Config, e: Engine, input: Input)
    requires e.state == Zeroized
    ensures Handle(c, e, input).state == Zeroized
  {
  }

  /** In every run, until zeroization: metrics and flag are the last ones given, the wake budget
      follows its rule, and the engine goes on. */
  lemma {:induction false} FieldsAreLast(c: Config, inputs: seq<Input>)
    requires Run(c, inputs).state != Zeroized
    ensures var e := Run(c, inputs); e.metrics == Reported(inputs) && e.tamper == Flagged(inputs) && !e.stopped
    ensures inputs == [] ==> Run(c, inputs).wakeCyclesLeft == c.idleToSleepAfterCycles
    ensures inputs != [] ==>
      Run(c, inputs).wakeCyclesLeft == NextBudget(c, Run(c, inputs[..|inputs| - 1]), inputs[|inputs| - 1])
  {
    if inputs != [] {
      var front, input := inputs[..|inputs| - 1], inputs[|inputs| - 1];
      if Run(c, front).state == Zeroized { StaysZeroized(c, Run(c, front), input); }
      FieldsAreLast(c, front);
      HandleKeeps(c, Run(c, front), input);
    }
  }

  /** In every run, until zeroization, each input appends exactly the events of the table, which
      reads the state held, the queue, the metrics and the flag last given, and the budget. */
  lemma EveryInputIsTraced(c: Config, inputs: seq<Input>, input: Input)
    requires Run(c, inputs).state != Zeroized
    ensures var e := Run(c, inputs).(metrics := Reported(inputs), tamper := Flagged(inputs));
      Run(c, inputs + [input]).events == Run(c, inputs).events + Trace(c, e, input)
  {
    assert (inputs + [input])[..|inputs|] == inputs;
    FieldsAreLast(c, inputs);
    HandleIs(c, Run(c, inputs), input);
  }

  // ---------- zeroization ----------

  ghost predicate Cleared(e: Engine) {
    e.state == Zeroized && e.pending == [] && e.metrics == NO_METRICS && e.wakeCyclesLeft == 0 && !e.tamper
  }

  lemma PanicClears(c: Config, e: Engine, reason: string)
    requires e.state != Zeroized
    ensures PerformPanic(c, e, reason).state == Zeroized ==> Cleared(PerformPanic(c, e, reason))
  {
  }

  lemma SyncStaysUp(c: Config, e: Engine, force: bool)
    requires e.state != Zeroized
    ensures PerformSync(c, e, force).state != Zeroized
  {
  }

  lemma CycleClears(c: Config, e: Engine, trigger: Trigger)
    requires e.state != Zeroized && RunCycle(c, e, trigger).state == Zeroized
    ensures Cleared(RunCycle(c, e, trigger))
  {
    CycleIs(c, e, trigger);
    var d := Decide(c, e, Assess(c, e), trigger)[0];
    if Act(c, e, d).state != Zeroized { AfterKeeps(c, Act(c, e, d)); }
    if d.DoPanic? { PanicClears(c, e, d.reason); }
    if d.DoSync? { SyncStaysUp(c, e, d.force); }
  }

  /** In every run the input that zeroizes leaves no item, metrics, budget or flag behind. */
  lemma ZeroizingClears(c: Config, inputs: seq<Input>, input: Input)
    requires Run(c, inputs).state != Zeroized && Run(c, inputs + [input]).state == Zeroized
    ensures Cleared(Run(c, inputs + [input]))
  {
    assert (inputs + [input])[..|inputs|] == inputs;
    FieldsAreLast(c, inputs);
    var e := Run(c, inputs);
    if CycleOf(e, input) != [] { CycleClears(c, Prepare(c, e, input), CycleOf(e, input)[0]); }
  }

  lemma Stops(c: Config, e: Engine)
    ensures Handle(c, e, CmdZeroize).stopped
  {
  }

  lemma StaysStopped(c: Config, e: Engine, input: Input)
    requires e.stopped
    ensures Handle(c, e, input) == e
  {
  }

  lemma {:induction false} StoppedForGood(c: Config, e: Engine, later: seq<Input>)
    requires e.stopped
    ensures HandleAll(c, e, later) == e
  {
    if later != [] {
      StoppedForGood(c, e, later[..|later| - 1]);
      StaysStopped(c, e, later[|later| - 1]);
    }
  }

  /** After the order to zeroize the engine has stopped: nothing it is given changes anything. */
  lemma ZeroizeStops(c: Config, inputs: seq<Input>, later: seq<Input>)
    ensures var ended := Run(c, inputs + [CmdZeroize]); ended.stopped && HandleAll(c, ended, later) == ended
  {
    assert (inputs + [CmdZeroize])[..|inputs|] == inputs;
    Stops(c, Run(c, inputs));
    StoppedForGood(c, Run(c, inputs + [CmdZeroize]), later);
  }
}
