/** Runs of many replicas with a last-writer-wins register: writes, sends and deliveries of
    snapshots (src/crdt_state.rs).  A register that is set does not look at what it holds. */
module RegisterRuns {
  import opened Lexicographic
  import opened Crdt

  type Write = Lww<string>

  /** What a replica holds, and every write it has made or received. */
  datatype Replica = Replica(held: Write, history: set<Write>)

  datatype System = System(replicas: map<Name, Replica>, messages: set<Replica>)

  datatype Step =
    | Create(at: Name, write: Write)
    | Set(at: Name, write: Write)
    | Send(at: Name)
    | Deliver(at: Name, message: Replica)

  predicate Enabled(sys: System, step: Step) {
    match step
    case Create(at, _) => at !in sys.replicas
    case Deliver(at, message) => at in sys.replicas && message in sys.messages
    case _ => step.at in sys.replicas
  }

  function Apply(sys: System, step: Step): System
    requires Enabled(sys, step)
  {
    match step
    case Create(at, write) => sys.(replicas := sys.replicas[at := Replica(write, {write})])
    case Set(at, write) =>
      sys.(replicas := sys.replicas[at := Replica(write, sys.replicas[at].history + {write})])
    case Send(at) => sys.(messages := sys.messages + {sys.replicas[at]})
    case Deliver(at, message) =>
      var r := sys.replicas[at];
      sys.(replicas := sys.replicas[at := Replica(LwwMerge(r.held, message.held), r.history + message.history)])
  }

  predicate ValidRun(steps: seq<Step>)
    decreases |steps|, 0
  {
    steps == [] || (ValidRun(steps[..|steps| - 1]) && Enabled(Run(steps[..|steps| - 1]), steps[|steps| - 1]))
  }

  function Run(steps: seq<Step>): System
    requires ValidRun(steps)
    decreases |steps|, 1
  {
    if steps == [] then System(map[], {}) else Apply(Run(steps[..|steps| - 1]), steps[|steps| - 1])
  }

  ghost predicate Newest(r: Replica) { IsLwwJoin(r.history, r.held) }

  ghost predicate AllNewest(sys: System) { forall r :: r in sys.replicas ==> Newest(sys.replicas[r]) }

  /** The write of a `Set` is not older than what it overwrites. */
  predicate Timely(sys: System, step: Step)
    requires Enabled(sys, step)
  {
    step.Set? ==> !Newer(step.write, sys.replicas[step.at].held)
  }

  predicate NoLateSet(steps: seq<Step>)
    requires ValidRun(steps)
  {
    steps == [] || (NoLateSet(steps[..|steps| - 1]) && Timely(Run(steps[..|steps| - 1]), steps[|steps| - 1]))
  }

  /** A write becomes the newest exactly when what was held, a newest, is not newer. */
  lemma SetNewest(r: Replica, write: Write)
    requires Newest(r)
    ensures Newest(Replica(write, r.history + {write})) <==> !Newer(write, r.held)
  {
    LessTotal(write.node, write.node);
    LessTotal(write.node, r.held.node);
    if !Newer(write, r.held) {
      forall m | m in r.history ensures !Newer(write, m) {
        if Newer(write, m) {
          LessTotal(r.held.node, m.node);
          LessTotal(write.node, m.node);
          if write.ts == m.ts == r.held.ts && Less(r.held.node, write.node) {
            LessTransitive(r.held.node, write.node, m.node);
          }
        }
      }
    }
  }

  lemma CreateNewest(write: Write)
    ensures Newest(Replica(write, {write}))
  {
    LessTotal(write.node, write.node);
  }

  lemma StepNewest(sys: System, step: Step)
    requires Enabled(sys, step) && AllNewest(sys) && forall m :: m in sys.messages ==> Newest(m)
    ensures AllNewest(Apply(sys, step)) <==> Timely(sys, step)
    ensures forall m :: m in Apply(sys, step).messages ==> Newest(m)
  {
    var after := Apply(sys, step);
    assert forall r :: r in sys.replicas && r != step.at ==> after.replicas[r] == sys.replicas[r];
    match step {
      case Create(at, write) => CreateNewest(write);
      case Set(at, write) =>
        SetNewest(sys.replicas[at], write);
        assert at in after.replicas;
      case Send(at) =>
      case Deliver(at, m) =>
        LwwJoinMerge(sys.replicas[at].history, m.history, sys.replicas[at].held, m.held);
    }
  }

  lemma {:induction false} NewestInOrder(steps: seq<Step>)
    requires ValidRun(steps) && NoLateSet(steps)
    ensures AllNewest(Run(steps)) && forall m :: m in Run(steps).messages ==> Newest(m)
  {
    if steps != [] {
      NewestInOrder(steps[..|steps| - 1]);
      StepNewest(Run(steps[..|steps| - 1]), steps[|steps| - 1]);
    }
  }

  lemma {:induction false} ValidPrefix(steps: seq<Step>, n: nat)
    requires ValidRun(steps) && n <= |steps|
    ensures ValidRun(steps[..n]) && (NoLateSet(steps) ==> NoLateSet(steps[..n]))
  {
    if n < |steps| {
      assert steps[..|steps| - 1][..n] == steps[..n];
      ValidPrefix(steps[..|steps| - 1], n);
    } else {
      assert steps[..n] == steps;
    }
  }

  ghost predicate NewestAt(steps: seq<Step>, n: nat) {
    n <= |steps| && ValidRun(steps[..n]) && AllNewest(Run(steps[..n]))
  }

  /** At every point of a run every replica holds a newest of the writes it has made or
      received, if and only if no `Set` of the run was older than what it overwrote. */
  lemma {:induction false} HoldsNewestExactly(steps: seq<Step>)
    requires ValidRun(steps)
    ensures (forall n: nat :: n <= |steps| ==> NewestAt(steps, n)) <==> NoLateSet(steps)
  {
    if NoLateSet(steps) {
      forall n: nat | n <= |steps| ensures NewestAt(steps, n) {
        ValidPrefix(steps, n);
        NewestInOrder(steps[..n]);
      }
    } else {
      LateSetShows(steps);
    }
  }

  lemma {:induction false} LateSetShows(steps: seq<Step>)
    requires ValidRun(steps) && !NoLateSet(steps)
    ensures exists n: nat :: n <= |steps| && !NewestAt(steps, n)
  {
    var k := |steps| - 1;
    var front := steps[..k];
    if NoLateSet(front) {
      NewestInOrder(front);
      StepNewest(Run(front), steps[k]);
      assert steps[..|steps|] == steps;
      assert !NewestAt(steps, |steps|);
    } else {
      LateSetShows(front);
      var n: nat :| n <= |front| && !NewestAt(front, n);
      assert front[..n] == steps[..n];
      assert !NewestAt(steps, n);
    }
  }

  /** A lagging clock: the second write of this run is older than the first. */
  lemma LateSetRun(node: Name)
    ensures var steps := [Create(node, Lww("x", 10, node)), Set(node, Lww("y", 5, node))];
      ValidRun(steps) && !NewestAt(steps, 2)
  {
    var first, second := Create(node, Lww("x", 10, node)), Set(node, Lww("y", 5, node));
    var steps := [first, second];
    assert steps[..1] == [first] && [first][..0] == [] && steps[..2] == steps;
    assert ValidRun([]) && ValidRun([first]);
    assert Run([first]).replicas[node] == Replica(first.write, {first.write});
    var r := Run(steps).replicas[node];
    assert r.held == second.write && first.write in r.history && Newer(second.write, first.write);
    assert !Newest(r);
  }

  /** Replicas with the same writes then hold the same, if their newest is unique. */
  lemma SameWritesSameValue(steps: seq<Step>, r: Name, q: Name)
    requires ValidRun(steps) && NoLateSet(steps) && r in Run(steps).replicas && q in Run(steps).replicas
    requires Run(steps).replicas[r].history == Run(steps).replicas[q].history
    requires OneNewest(Run(steps).replicas[r].history)
    ensures Run(steps).replicas[r].held == Run(steps).replicas[q].held
  {
    NewestInOrder(steps);
    assert Newest(Run(steps).replicas[r]) && Newest(Run(steps).replicas[q]);
  }

  /** After a late set they need not: whatever two replicas agree on, a set at one of them that
      is older than what it overwrites, delivered to the other, leaves them with the same
      writes and different values. */
  lemma LateSetDiverges(sys: System, a: Name, b: Name, write: Write)
    requires a != b && a in sys.replicas && b in sys.replicas && sys.replicas[a] == sys.replicas[b]
    requires Newer(write, sys.replicas[a].held)
    ensures var set' := Apply(sys, Set(a, write)); var sent := Apply(set', Send(a));
      var after := Apply(sent, Deliver(b, set'.replicas[a]));
      && after.replicas[a].history == after.replicas[b].history
      && after.replicas[a].held == write && after.replicas[b].held == sys.replicas[b].held != write
  {
    LessTotal(write.node, sys.replicas[a].held.node);
    LessTotal(write.node, write.node);
  }
}

/** The peer registry under upserts and deliveries: an older entry never replaces a newer. */
module RegistryRuns {
  import opened Lexicographic
  import opened Crdt

  /** What a replica holds, and every upsert it has made or received, as one-peer registries. */
  datatype Replica = Replica(held: Registry, updates: set<Registry>)

  datatype System = System(replicas: map<Name, Replica>, messages: set<Replica>)
  {
    function At(r: Name): Replica { if r in replicas then replicas[r] else Replica(map[], {}) }
  }

  datatype Step =
    | Upsert(at: Name, entry: PeerEntry, ts: nat)
    | Send(at: Name)
    | Deliver(at: Name, message: Replica)

  function Received(r: Replica, held: Registry, updates: set<Registry>): Replica {
    Replica(RegistryMerge(r.held, held), r.updates + updates)
  }

  /** A message that was never sent is not delivered. */
  function Apply(sys: System, step: Step): System {
    match step
    case Upsert(at, entry, ts) =>
      var update := map[entry.peerId := Stamped(entry, ts)];
      sys.(replicas := sys.replicas[at := Received(sys.At(at), update, {update})])
    case Send(at) => sys.(messages := sys.messages + {sys.At(at)})
    case Deliver(at, m) =>
      if m !in sys.messages then sys
      else sys.(replicas := sys.replicas[at := Received(sys.At(at), m.held, m.updates)])
  }

  function Run(steps: seq<Step>): System {
    if steps == [] then System(map[], {}) else Apply(Run(steps[..|steps| - 1]), steps[|steps| - 1])
  }

  ghost predicate Joined(r: Replica) { IsRegistryJoin(r.updates, r.held) }

  ghost predicate AllJoined(sys: System) {
    (forall r :: Joined(sys.At(r))) && (forall m :: m in sys.messages ==> Joined(m))
  }

  lemma UpdateJoined(entry: PeerEntry, ts: nat)
    ensures var update: Registry := map[entry.peerId := Stamped(entry, ts)]; IsRegistryJoin({update}, update)
  {
    var update: Registry := map[entry.peerId := Stamped(entry, ts)];
    assert update in {update};
  }

  lemma StepJoined(sys: System, step: Step)
    requires AllJoined(sys)
    ensures AllJoined(Apply(sys, step))
  {
    var after, r := Apply(sys, step), sys.At(step.at);
    assert Joined(r);
    match step {
      case Upsert(at, entry, ts) =>
        var update: Registry := map[entry.peerId := Stamped(entry, ts)];
        UpdateJoined(entry, ts);
        RegistryJoinMerge(r.updates, {update}, r.held, update);
      case Send(at) =>
      case Deliver(at, m) => if m in sys.messages { RegistryJoinMerge(r.updates, m.updates, r.held, m.held); }
    }
    forall q ensures Joined(after.At(q)) { assert q != step.at ==> after.At(q) == sys.At(q); }
  }

  /** In every run every replica holds, for each peer it has heard of, a latest of the entries
      it has made or received, and nothing else. */
  lemma {:induction false} HoldsLatest(steps: seq<Step>)
    ensures AllJoined(Run(steps))
  {
    if steps != [] {
      HoldsLatest(steps[..|steps| - 1]);
      StepJoined(Run(steps[..|steps| - 1]), steps[|steps| - 1]);
    }
  }

  /** So replicas with the same updates list the same peers, with the same entry wherever a
      peer's latest is unique. */
  lemma SameUpdatesSameEntries(steps: seq<Step>, r: Name, q: Name, k: Name)
    requires Run(steps).At(r).updates == Run(steps).At(q).updates
    ensures var v, w := Run(steps).At(r).held, Run(steps).At(q).held;
      && (k in v <==> k in w)
      && (k in v && OneLatest(Run(steps).At(r).updates, k) ==> v[k] == w[k])
  {
    HoldsLatest(steps);
    assert Joined(Run(steps).At(r)) && Joined(Run(steps).At(q));
    JoinIsLatest(Run(steps).At(r).updates, Run(steps).At(r).held, k);
    JoinIsLatest(Run(steps).At(q).updates, Run(steps).At(q).held, k);
  }
}
