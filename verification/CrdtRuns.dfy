/** Runs of many replicas exchanging snapshots: the observed-remove set and the
    grow-only counter of src/crdt_state.rs. */
module OrSetRuns {
  import opened Lexicographic
  import opened Crdt

  /** The value-level effect of ORSet::add and ORSet::remove. */
  function OrAdd<T(==)>(s: OrSet<T>, item: T, tag: nat): OrSet<T> {
    s.(entries := s.entries[item := s.Tags(item) + {tag}])
  }

  function OrRemove<T(==)>(s: OrSet<T>, item: T): OrSet<T> {
    if item in s.entries then OrSet(s.entries - {item}, s.removed + s.entries[item]) else s
  }

  /** What has happened, as far as a replica has heard. */
  datatype Event = Added(tag: nat, item: Name) | Removed(tags: set<nat>)

  datatype Replica = Replica(state: OrSet<Name>, history: set<Event>)

  /** `used` gives the item of every tag ever drawn; messages are snapshots, never lost. */
  datatype System = System(replicas: map<Name, Replica>, messages: set<Replica>, used: map<nat, Name>)
  {
    function At(r: Name): Replica {
      if r in replicas then replicas[r] else Replica(OrSet(map[], {}), {})
    }
  }

  datatype Step =
    | Add(at: Name, item: Name, tag: nat)
    | Remove(at: Name, item: Name)
    | Send(at: Name)
    | Deliver(at: Name, message: Replica)

  predicate Enabled(sys: System, step: Step) {
    match step
    case Add(_, _, tag) => tag !in sys.used
    case Deliver(_, message) => message in sys.messages
    case _ => true
  }

  /** The tags of the adds of `item` a replica has heard of. */
  function Observed(history: set<Event>, item: Name): set<nat> {
    set e | e in history && e.Added? && e.item == item :: e.tag
  }

  function Apply(sys: System, step: Step): System {
    match step
    case Add(at, item, tag) =>
      var r := sys.At(at);
      sys.(replicas := sys.replicas[at := Replica(OrAdd(r.state, item, tag), r.history + {Added(tag, item)})],
           used := sys.used[tag := item])
    case Remove(at, item) =>
      var r := sys.At(at);
      var gone := Removed(Observed(r.history, item));
      sys.(replicas := sys.replicas[at := Replica(OrRemove(r.state, item), r.history + {gone})])
    case Send(at) =>
      sys.(messages := sys.messages + {sys.At(at)})
    case Deliver(at, message) =>
      var r := sys.At(at);
      sys.(replicas := sys.replicas[at := Replica(OrMerge(r.state, message.state), r.history + message.history)])
  }

  function Run(steps: seq<Step>): System {
    if steps == [] then System(map[], {}, map[]) else Apply(Run(steps[..|steps| - 1]), steps[|steps| - 1])
  }

  predicate ValidRun(steps: seq<Step>) {
    steps == [] ||
    (ValidRun(steps[..|steps| - 1]) && Enabled(Run(steps[..|steps| - 1]), steps[|steps| - 1]))
  }

  /** The add with this tag was removed by something in the history. */
  ghost predicate Gone(history: set<Event>, tag: nat) {
    exists e :: e in history && e.Removed? && tag in e.tags
  }

  /** State and history agree about one tag of one item. */
  ghost predicate Agree(r: Replica, used: map<nat, Name>, item: Name, t: nat) {
    && (t in r.state.removed <==> Gone(r.history, t))
    && (t in r.state.Live(item) <==> Added(t, item) in r.history && t !in r.state.removed)
    && (t in r.state.Tags(item) ==> Added(t, item) in r.history)
    && (Added(t, item) in r.history ==> t in used && used[t] == item)
    && (t in r.state.removed ==> t in used)
  }

  ghost predicate Faithful(r: Replica, used: map<nat, Name>) {
    && (forall item, t :: Agree(r, used, item, t))
    && (forall item :: item in r.state.entries ==> r.state.Contains(item))
  }

  lemma FaithfulEmpty(used: map<nat, Name>)
    ensures Faithful(Replica(OrSet(map[], {}), {}), used)
  {
  }

  lemma FaithfulMoreUsed(r: Replica, used: map<nat, Name>, tag: nat, item: Name)
    requires Faithful(r, used) && tag !in used
    ensures Faithful(r, used[tag := item])
  {
    var used' := used[tag := item];
    forall i, t ensures Agree(r, used', i, t) { assert Agree(r, used, i, t); }
  }

  lemma FaithfulAdd(r: Replica, used: map<nat, Name>, item: Name, tag: nat)
    requires Faithful(r, used) && tag !in used
    ensures Faithful(Replica(OrAdd(r.state, item, tag), r.history + {Added(tag, item)}), used[tag := item])
  {
    var r' := Replica(OrAdd(r.state, item, tag), r.history + {Added(tag, item)});
    var used' := used[tag := item];
    assert Agree(r, used, item, tag);
    forall i, t ensures Agree(r', used', i, t) {
      assert Agree(r, used, i, t);
      assert Gone(r'.history, t) <==> Gone(r.history, t) by { GoneUnion(r.history, {Added(tag, item)}, t); }
    }
    assert tag in r'.state.Live(item);
    forall i | i in r'.state.entries ensures r'.state.Contains(i) {
      assert i != item ==> r'.state.Live(i) == r.state.Live(i);
    }
  }

  lemma FaithfulRemove(r: Replica, used: map<nat, Name>, item: Name)
    requires Faithful(r, used)
    ensures Faithful(Replica(OrRemove(r.state, item), r.history + {Removed(Observed(r.history, item))}), used)
  {
    var gone := Removed(Observed(r.history, item));
    var r' := Replica(OrRemove(r.state, item), r.history + {gone});
    forall i, t ensures Agree(r', used, i, t) {
      assert Agree(r, used, i, t) && Agree(r, used, item, t);
      ObservedIs(r.history, item, t);
      GoneUnion(r.history, {gone}, t);
      assert Gone({gone}, t) <==> t in gone.tags;
    }
    forall i | i in r'.state.entries ensures r'.state.Contains(i) {
      var t :| t in r.state.Live(i);
      assert Agree(r, used, i, t) && Agree(r, used, item, t);
      assert t in r'.state.Live(i);
    }
  }

  lemma ObservedIs(history: set<Event>, item: Name, t: nat)
    ensures t in Observed(history, item) <==> Added(t, item) in history
  {
  }

  lemma GoneUnion(h: set<Event>, g: set<Event>, t: nat)
    ensures Gone(h + g, t) <==> Gone(h, t) || Gone(g, t)
  {
  }

  lemma FaithfulMerge(r: Replica, m: Replica, used: map<nat, Name>)
    requires Faithful(r, used) && Faithful(m, used)
    ensures Faithful(Replica(OrMerge(r.state, m.state), r.history + m.history), used)
  {
    var r' := Replica(OrMerge(r.state, m.state), r.history + m.history);
    forall i, t ensures Agree(r', used, i, t) {
      assert Agree(r, used, i, t) && Agree(m, used, i, t);
      GoneUnion(r.history, m.history, t);
      OrMergeLive(r.state, m.state, i);
    }
  }

  ghost predicate SystemFaithful(sys: System) {
    && (forall r :: Faithful(sys.At(r), sys.used))
    && (forall m :: m in sys.messages ==> Faithful(m, sys.used))
  }

  lemma {:induction false} RunFaithful(steps: seq<Step>)
    requires ValidRun(steps)
    ensures SystemFaithful(Run(steps))
  {
    if steps == [] {
      FaithfulEmpty(map[]);
    } else {
      var before, step := Run(steps[..|steps| - 1]), steps[|steps| - 1];
      RunFaithful(steps[..|steps| - 1]);
      StepFaithful(before, step);
    }
  }

  lemma StepFaithful(sys: System, step: Step)
    requires SystemFaithful(sys) && Enabled(sys, step)
    ensures SystemFaithful(Apply(sys, step))
  {
    var after := Apply(sys, step);
    var was := sys.At(step.at);
    match step {
      case Add(at, item, tag) =>
        FaithfulAdd(was, sys.used, item, tag);
        forall r ensures Faithful(after.At(r), after.used) {
          if r != at { FaithfulMoreUsed(sys.At(r), sys.used, tag, item); }
        }
        forall m | m in after.messages ensures Faithful(m, after.used) {
          FaithfulMoreUsed(m, sys.used, tag, item);
        }
      case Remove(at, item) =>
        FaithfulRemove(was, sys.used, item);
        forall r ensures Faithful(after.At(r), after.used) { assert r != at ==> after.At(r) == sys.At(r); }
      case Send(at) =>
        forall r ensures Faithful(after.At(r), after.used) { assert after.At(r) == sys.At(r); }
      case Deliver(at, message) =>
        FaithfulMerge(was, message, sys.used);
        forall r ensures Faithful(after.At(r), after.used) { assert r != at ==> after.At(r) == sys.At(r); }
    }
  }

  /** In every run a replica contains an item exactly when an add of it has reached the
      replica and no removal of that add has; the listed elements are the contained ones. */
  lemma ContainsIsObservedRemove(steps: seq<Step>, r: Name, item: Name)
    requires ValidRun(steps)
    ensures var rep := Run(steps).At(r);
      && (rep.state.Contains(item) <==> exists t :: Added(t, item) in rep.history && !Gone(rep.history, t))
      && (item in rep.state.entries <==> rep.state.Contains(item))
  {
    RunFaithful(steps);
    var rep := Run(steps).At(r);
    assert Faithful(rep, Run(steps).used);
    if rep.state.Contains(item) {
      var t :| t in rep.state.Live(item);
      assert Agree(rep, Run(steps).used, item, t);
      assert Added(t, item) in rep.history && !Gone(rep.history, t);
    }
    if t :| Added(t, item) in rep.history && !Gone(rep.history, t) {
      assert Agree(rep, Run(steps).used, item, t);
      assert t in rep.state.Live(item);
    }
  }
}

module CounterRuns {
  import opened Lexicographic
  import opened Crdt

  // ---------- totals ----------

  ghost function Pick(keys: set<Name>): (k: Name)
    requires keys != {}
    ensures k in keys
  {
    var k :| k in keys; k
  }

  ghost function SumOver(m: Counts, keys: set<Name>): nat {
    if keys == {} then 0
    else
      var k := Pick(keys);
      Count(m, k) + SumOver(m, keys - {k})
  }

  ghost function Total(m: Counts): nat { SumOver(m, m.Keys) }

  /** Any key may be counted first. */
  lemma {:induction false} SumPick(m: Counts, keys: set<Name>, k: Name)
    requires k in keys
    ensures SumOver(m, keys) == Count(m, k) + SumOver(m, keys - {k})
    decreases |keys|
  {
    var j := Pick(keys);
    if j != k {
      SumPick(m, keys - {j}, k);
      SumPick(m, keys - {k}, j);
      assert keys - {j} - {k} == keys - {k} - {j};
    }
  }

  lemma {:induction false} SumMonotone(a: Counts, b: Counts, keys: set<Name>)
    requires forall k :: Count(a, k) <= Count(b, k)
    ensures SumOver(a, keys) <= SumOver(b, keys)
    decreases |keys|
  {
    if keys != {} {
      var k :| k in keys;
      SumPick(a, keys, k);
      SumPick(b, keys, k);
      SumMonotone(a, b, keys - {k});
    }
  }

  /** Keys outside the map count nothing. */
  lemma {:induction false} SumWiden(m: Counts, keys: set<Name>)
    requires m.Keys <= keys
    ensures SumOver(m, keys) == Total(m)
    decreases |keys|
  {
    if keys - m.Keys == {} {
      assert keys == m.Keys;
    } else {
      var k :| k in keys - m.Keys;
      SumPick(m, keys, k);
      SumWiden(m, keys - {k});
    }
  }

  lemma TotalMonotone(a: Counts, b: Counts)
    requires forall k :: Count(a, k) <= Count(b, k)
    ensures Total(a) <= Total(b)
  {
    var keys := a.Keys + b.Keys;
    SumWiden(a, keys);
    SumWiden(b, keys);
    SumMonotone(a, b, keys);
  }

  // ---------- runs ----------

  function Bump(m: Counts, k: Name, delta: nat): Counts { m[k := Count(m, k) + delta] }

  /** `made` is the sum of the increments each node has performed. */
  datatype System = System(replicas: map<Name, Counts>, messages: set<Counts>, made: Counts)
  {
    function At(r: Name): Counts { if r in replicas then replicas[r] else map[] }
  }

  datatype Step = Increment(at: Name, delta: nat) | Send(at: Name) | Deliver(at: Name, message: Counts)

  predicate Enabled(sys: System, step: Step) { step.Deliver? ==> step.message in sys.messages }

  function Apply(sys: System, step: Step): System {
    match step
    case Increment(at, delta) =>
      sys.(replicas := sys.replicas[at := Bump(sys.At(at), at, delta)], made := Bump(sys.made, at, delta))
    case Send(at) => sys.(messages := sys.messages + {sys.At(at)})
    case Deliver(at, message) => sys.(replicas := sys.replicas[at := MaxMerge(sys.At(at), message)])
  }

  function Run(steps: seq<Step>): System {
    if steps == [] then System(map[], {}, map[]) else Apply(Run(steps[..|steps| - 1]), steps[|steps| - 1])
  }

  predicate ValidRun(steps: seq<Step>) {
    steps == [] ||
    (ValidRun(steps[..|steps| - 1]) && Enabled(Run(steps[..|steps| - 1]), steps[|steps| - 1]))
  }

  ghost predicate Within(m: Counts, made: Counts) { forall k :: Count(m, k) <= Count(made, k) }

  ghost predicate Bounded(sys: System) {
    && (forall r :: Within(sys.At(r), sys.made) && Count(sys.At(r), r) == Count(sys.made, r))
    && (forall m :: m in sys.messages ==> Within(m, sys.made))
  }

  lemma MaxMergeCount(a: Counts, b: Counts, k: Name)
    ensures Count(MaxMerge(a, b), k) == Max(Count(a, k), Count(b, k))
  {
  }

  lemma BumpCount(m: Counts, r: Name, delta: nat, k: Name)
    ensures Count(Bump(m, r, delta), k) == Count(m, k) + if k == r then delta else 0
  {
  }

  lemma StepBoundedAt(sys: System, step: Step, r: Name)
    requires Bounded(sys) && Enabled(sys, step)
    ensures Within(Apply(sys, step).At(r), Apply(sys, step).made)
    ensures Count(Apply(sys, step).At(r), r) == Count(Apply(sys, step).made, r)
  {
    var m := sys.At(r);
    assert Within(m, sys.made) && Count(m, r) == Count(sys.made, r);
    match step {
      case Increment(at, delta) =>
        assert Apply(sys, step).At(r) == if r == at then Bump(m, r, delta) else m;
        forall k ensures Count(Apply(sys, step).At(r), k) <= Count(Bump(sys.made, at, delta), k) {
          BumpCount(m, r, delta, k);
          BumpCount(sys.made, at, delta, k);
        }
        BumpCount(m, r, delta, r);
        BumpCount(sys.made, at, delta, r);
      case Send(at) => assert Apply(sys, step).At(r) == m;
      case Deliver(at, message) =>
        if r == at {
          assert Within(message, sys.made);
          assert Apply(sys, step).At(r) == MaxMerge(m, message);
          forall k ensures Count(MaxMerge(m, message), k) <= Count(sys.made, k) { MaxMergeCount(m, message, k); }
          MaxMergeCount(m, message, r);
        } else { assert Apply(sys, step).At(r) == m; }
    }
  }

  lemma StepBounded(sys: System, step: Step)
    requires Bounded(sys) && Enabled(sys, step)
    ensures Bounded(Apply(sys, step))
  {
    var after := Apply(sys, step);
    forall r ensures Within(after.At(r), after.made) && Count(after.At(r), r) == Count(after.made, r) {
      StepBoundedAt(sys, step, r);
    }
    forall m | m in after.messages ensures Within(m, after.made) {
      assert Within(if m in sys.messages then m else sys.At(step.at), sys.made);
    }
  }

  lemma {:induction false} RunBounded(steps: seq<Step>)
    requires ValidRun(steps)
    ensures Bounded(Run(steps))
  {
    if steps != [] {
      RunBounded(steps[..|steps| - 1]);
      StepBounded(Run(steps[..|steps| - 1]), steps[|steps| - 1]);
    }
  }

  /** No replica ever counts more than was counted; in particular no slot and no total
      leaves the range of u64 while the sum of all increments is inside it. */
  lemma TotalNeverExceedsIncrements(steps: seq<Step>, r: Name)
    requires ValidRun(steps)
    ensures Total(Run(steps).At(r)) <= Total(Run(steps).made)
    ensures forall k :: Count(Run(steps).At(r), k) <= Total(Run(steps).made)
  {
    RunBounded(steps);
    var m, made := Run(steps).At(r), Run(steps).made;
    assert Within(m, made);
    TotalMonotone(m, made);
    forall k ensures Count(m, k) <= Total(made) {
      if k in made { SumPick(made, made.Keys, k); }
    }
  }

  /** Once the state of every node that counted has been merged, the total is exact. */
  lemma MergedTotalIsExact(steps: seq<Step>, S: set<Counts>, v: Counts)
    requires ValidRun(steps)
    requires forall m :: m in S ==> m in Run(steps).messages || exists r :: m == Run(steps).At(r)
    requires forall r :: r in Run(steps).made ==> Run(steps).At(r) in S
    requires IsMaxJoin(S, v)
    ensures Total(v) == Total(Run(steps).made)
  {
    var sys := Run(steps);
    RunBounded(steps);
    forall m | m in S ensures Within(m, sys.made) {
      if m !in sys.messages {
        var r :| m == sys.At(r);
        assert Within(sys.At(r), sys.made);
      }
    }
    forall k ensures Count(v, k) == Count(sys.made, k) { SlotIsExact(sys, S, v, k); }
    TotalMonotone(v, sys.made);
    TotalMonotone(sys.made, v);
  }

  lemma SlotIsExact(sys: System, S: set<Counts>, v: Counts, k: Name)
    requires Bounded(sys) && IsMaxJoin(S, v)
    requires forall m :: m in S ==> Within(m, sys.made)
    requires k in sys.made ==> sys.At(k) in S
    ensures Count(v, k) == Count(sys.made, k)
  {
  }

}
