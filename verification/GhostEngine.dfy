/** The engine object of src/ghost.rs, each method proved against module Ghost. */
module GhostEngines {
  import opened Ghost

  class GhostEngine {
    const config: Config
    var state: GhostState
    var metrics: Metrics
    var pending: seq<string>
    var wakeCyclesLeft: nat
    var tamper: bool
    var events: seq<Event>
    var stopped: bool

    ghost function State(): Engine
      reads this
    {
      Engine(state, metrics, pending, wakeCyclesLeft, tamper, events, stopped)
    }

    /** `spawn_inner` and the first transition of `run`. */
    constructor (config: Config)
      ensures this.config == config && State() == Boot(config)
    {
      this.config := config;
      state, metrics, pending := Init, NO_METRICS, [];
      wakeCyclesLeft, tamper, events, stopped := config.idleToSleepAfterCycles, false, [], false;
      new;
      MoveTo(Sleep);
    }

    method MoveTo(to: GhostState)
      modifies this
      ensures State() == Transition(old(State()), to)
    {
      var from := state;
      match (from, to) {
        case (Zeroized, _) => return;
        case (Panic, Beacon) => return;
        case _ =>
      }
      if from != to {
        state := to;
        events := events + [StateChanged(from, to)];
      }
    }

    method SendBeacon()
      modifies this
      ensures State() == PerformBeacon(old(State()))
    {
      if state == Zeroized {
        return;
      }
      MoveTo(Beacon);
      events := events + [BeaconSent(state, metrics)];
    }

    method SyncIfNeeded(force: bool)
      modifies this
      ensures State() == PerformSync(config, old(State()), force)
    {
      if state == Zeroized || state == Panic {
        return;
      }
      if pending == [] && !force {
        return;
      }
      MoveTo(Sync);
      SendBatch(force);
      MoveTo(Idle);
    }

    /** The queue is emptied from the front, one item at a time, up to the limit. */
    method SendBatch(force: bool)
      modifies this
      ensures State() == TakeBatch(config, old(State()), force)
    {
      var batch, queue := [], pending;
      while |batch| < config.syncBatchLimit && queue != []
        invariant |batch| <= config.syncBatchLimit && batch + queue == pending
        decreases |queue|
      {
        batch, queue := batch + [queue[0]], queue[1..];
      }
      assert pending[..|batch|] == batch && pending[|batch|..] == queue;
      pending := queue;
      if batch != [] || force {
        events := events + [SyncBatch(batch)];
      }
    }

    method Erase()
      modifies this
      ensures State() == PerformZeroize(old(State()))
    {
      pending, metrics, wakeCyclesLeft, tamper := [], NO_METRICS, 0, false;
      MoveTo(Zeroized);
      events := events + [WasZeroized];
    }

    method RaisePanic(reason: string)
      modifies this
      ensures State() == PerformPanic(config, old(State()), reason)
    {
      if state == Zeroized {
        return;
      }
      MoveTo(Panic);
      events := events + [PanicRaised(reason)];
      if config.zeroizeOnPanic {
        Erase();
      }
    }

    method CarryOut(d: Decision)
      modifies this
      ensures State() == Act(config, old(State()), d)
    {
      match d {
        case DoBeacon => SendBeacon();
        case DoSync(force) => SyncIfNeeded(force);
        case DoPanic(reason) => RaisePanic(reason);
        case DoSleep =>
          if state != Zeroized {
            MoveTo(Sleep);
          }
        case DoIdle =>
          if state != Zeroized && state != Sleep {
            MoveTo(Idle);
          }
      }
    }

    method SpendCycle()
      modifies this
      ensures State() == AfterActivePulse(config, old(State()))
    {
      if state == Zeroized || state == Panic {
        return;
      }
      if wakeCyclesLeft > 0 {
        wakeCyclesLeft := wakeCyclesLeft - 1;
      }
      if metrics.connected > 0 {
        wakeCyclesLeft := config.idleToSleepAfterCycles;
        if state != Idle && state != Beacon {
          MoveTo(Idle);
        }
        return;
      }
      if wakeCyclesLeft == 0 && config.autoSleepWhenIdle {
        MoveTo(Sleep);
      }
    }

    method Cycle(trigger: Trigger)
      modifies this
      ensures State() == RunCycle(config, old(State()), trigger)
    {
      if state == Zeroized {
        return;
      }
      var snapshot := Engine(state, metrics, pending, wakeCyclesLeft, tamper, events, stopped);
      var decisions := Decide(config, snapshot, Assess(config, snapshot), trigger);
      if decisions == [] {
        return;
      }
      assert decisions[0..] == decisions;
      for i := 0 to |decisions|
        invariant ActAll(config, State(), decisions[i..]) == ActAll(config, old(State()), decisions)
      {
        assert decisions[i..][1..] == decisions[i + 1..];
        CarryOut(decisions[i]);
      }
      SpendCycle();
    }

    /** One arm of the select loop; after Zeroize the loop is left and inputs are ignored. */
    method Receive(input: Input)
      modifies this
      ensures State() == Handle(config, old(State()), input)
    {
      if stopped {
        return;
      }
      match input {
        case BeaconTick =>
          if state != Sleep && state != Zeroized {
            Cycle(Pulse);
          }
        case SyncTicked =>
          if state != Sleep && state != Zeroized {
            Cycle(SyncTick);
          }
        case CmdWake =>
          if state != Zeroized && state != Panic {
            wakeCyclesLeft := config.idleToSleepAfterCycles;
            MoveTo(Wake);
            Cycle(WakeUp);
          }
        case CmdSleep =>
          if state != Zeroized {
            wakeCyclesLeft := 0;
            MoveTo(Sleep);
          }
        case CmdEnqueueSync(item) =>
          if state != Zeroized {
            pending := pending + [item];
            Cycle(Manual);
          }
        case CmdTriggerSync =>
          if state != Zeroized {
            Cycle(ForceSync);
          }
        case CmdTriggerBeacon =>
          if state != Zeroized {
            Cycle(ForceBeacon);
          }
        case CmdTriggerPanic(reason) =>
          if state != Zeroized {
            Cycle(PanicNow(reason));
          }
        case CmdZeroize =>
          Erase();
          stopped := true;
        case CmdUpdateMetrics(m) =>
          metrics := m;
          Cycle(Manual);
        case CmdSetTamper(t) =>
          tamper := t;
          if t && state != Zeroized {
            Cycle(PanicNow("tamper_flag_set"));
          }
        case CmdObserveSignal =>
          Cycle(Manual);
      }
    }
  }

  /** A whole run; the theorems about Run hold of what it leaves. */
  method RunEngine(config: Config, inputs: seq<Input>) returns (engine: GhostEngine)
    ensures fresh(engine) && engine.config == config && engine.State() == Run(config, inputs)
  {
    engine := new GhostEngine(config);
    for i := 0 to |inputs|
      invariant engine.config == config && engine.State() == Run(config, inputs[..i])
    {
      assert inputs[..i + 1][..i] == inputs[..i];
      engine.Receive(inputs[i]);
    }
    assert inputs[..|inputs|] == inputs;
  }
}
