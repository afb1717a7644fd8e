/** The worker loop of src/compute/scheduler.rs as a state machine.  Jobs run as tasks of
    their own, so their steps interleave with the loop's in any order. */
module Scheduler {
  import opened Basics
  import opened Lexicographic
  import CS = ComputeStore

  /** `running` are the keys of the table of running jobs.  `executing` and `finishing` are the
      live tasks, each holding one permit: a task leaves the table before it drops its permit.
      `waiting` is a job taken from the queue for which the loop awaits a permit; until it gets
      one the loop does nothing else. */
  datatype State = State(
    limit: nat,
    store: CS.Store,
    running: set<Name>,
    executing: map<nat, Name>,
    finishing: map<nat, Name>,
    waiting: Option<CS.Spec>,
    nextTask: nat)
  {
    function PermitsInUse(): nat { |executing| + |finishing| }
  }

  datatype Step =
    | Submit(spec: CS.Spec, valid: bool)
    | Cancel(id: Name)
    | Poll
    | Acquire
    | Finish(task: nat)
    | Release(task: nat)

  ghost predicate Enabled(s: State, step: Step) {
    match step
    case Submit(_, _) => s.waiting.None?
    case Cancel(_) => s.waiting.None?
    case Poll => s.waiting.None?
    case Acquire => s.waiting.Some? && s.PermitsInUse() < s.limit
    case Finish(task) => task in s.executing
    case Release(task) => task in s.finishing
  }

  ghost function Apply(s: State, step: Step): State
    requires Enabled(s, step)
  {
    match step
    case Submit(spec, valid) => if valid then s.(store := CS.Enqueue(s.store, spec)) else s
    case Cancel(id) => s.(running := s.running - {id})
    case Poll =>
      if |s.running| >= s.limit then s
      else
        var (store, job) := CS.DequeueNext(s.store);
        s.(store := store, waiting := job)
    case Acquire =>
      var id := s.waiting.value.id;
      s.(running := s.running + {id}, executing := s.executing[s.nextTask := id],
         waiting := None, nextTask := s.nextTask + 1)
    case Finish(task) =>
      var id := s.executing[task];
      s.(running := s.running - {id}, executing := s.executing - {task}, finishing := s.finishing[task := id])
    case Release(task) => s.(finishing := s.finishing - {task})
  }

  ghost function Start(limit: nat): State {
    State(limit, CS.Store(map[], map[], map[]), {}, map[], map[], None, 0)
  }

  /** Every interleaving: a step that is not possible at its turn is skipped. */
  ghost function Run(limit: nat, steps: seq<Step>): State {
    if steps == [] then Start(limit)
    else
      var before, step := Run(limit, steps[..|steps| - 1]), steps[|steps| - 1];
      if Enabled(before, step) then Apply(before, step) else before
  }

  /** Some executing task runs this job. */
  ghost predicate Owned(executing: map<nat, Name>, id: Name) { exists t :: t in executing && executing[t] == id }

  ghost predicate AllOwned(running: set<Name>, executing: map<nat, Name>) {
    forall id :: id in running ==> Owned(executing, id)
  }

  ghost predicate Numbered(s: State) {
    && (forall t :: t in s.executing ==> t < s.nextTask && t !in s.finishing)
    && (forall t :: t in s.finishing ==> t < s.nextTask)
  }

  ghost predicate Sound(s: State) {
    AllOwned(s.running, s.executing) && s.PermitsInUse() <= s.limit && Numbered(s)
  }

  lemma OwnedAfterStart(running: set<Name>, executing: map<nat, Name>, task: nat, id: Name)
    requires AllOwned(running, executing) && task !in executing
    ensures AllOwned(running + {id}, executing[task := id]) && |executing[task := id]| == |executing| + 1
  {
    var after := executing[task := id];
    assert after[task] == id;
    forall i | i in running ensures Owned(after, i) {
      var t :| t in executing && executing[t] == i;
      assert after[t] == i;
    }
    assert after.Keys == executing.Keys + {task};
  }

  lemma OwnedAfterFinish(running: set<Name>, executing: map<nat, Name>, task: nat)
    requires AllOwned(running, executing) && task in executing
    ensures AllOwned(running - {executing[task]}, executing - {task}) && |executing - {task}| == |executing| - 1
  {
    var after := executing - {task};
    forall i | i in running - {executing[task]} ensures Owned(after, i) {
      var t :| t in executing && executing[t] == i;
      assert after[t] == i;
    }
    assert after.Keys == executing.Keys - {task};
  }

  lemma SizeAfter(m: map<nat, Name>, task: nat, id: Name)
    ensures task !in m ==> |m[task := id]| == |m| + 1
    ensures |m - {task}| <= |m|
  {
  }

  lemma StepSound(s: State, step: Step)
    requires Sound(s) && Enabled(s, step)
    ensures Sound(Apply(s, step)) && Apply(s, step).limit == s.limit
  {
    match step {
      case Acquire => OwnedAfterStart(s.running, s.executing, s.nextTask, s.waiting.value.id);
      case Finish(task) =>
        OwnedAfterFinish(s.running, s.executing, task);
        SizeAfter(s.finishing, task, s.executing[task]);
      case Release(task) => SizeAfter(s.finishing, task, []);
      case _ =>
    }
  }

  lemma {:induction false} RunSound(limit: nat, steps: seq<Step>)
    ensures Sound(Run(limit, steps)) && Run(limit, steps).limit == limit
  {
    if steps != [] {
      var before, step := Run(limit, steps[..|steps| - 1]), steps[|steps| - 1];
      RunSound(limit, steps[..|steps| - 1]);
      if Enabled(before, step) {
        StepSound(before, step);
      }
    }
  }

  /** As many different jobs as there are tasks, at most. */
  lemma {:induction false} OwnersSuffice(running: set<Name>, executing: map<nat, Name>)
    requires AllOwned(running, executing)
    ensures |running| <= |executing|
    decreases |running|
  {
    if running != {} {
      var id :| id in running;
      var t :| t in executing && executing[t] == id;
      OwnedAfterFinish(running, executing, t);
      OwnersSuffice(running - {id}, executing - {t});
    }
  }

  /** Under every interleaving, repeated ids and cancellations included, every entry of the
      table belongs to a task that still holds a permit; so the reported count never exceeds
      the permits in use, nor those the configured limit. */
  lemma RunningWithinPermits(limit: nat, steps: seq<Step>)
    ensures forall id :: id in Run(limit, steps).running ==> Owned(Run(limit, steps).executing, id)
    ensures |Run(limit, steps).running| <= Run(limit, steps).PermitsInUse() <= limit
  {
    var s := Run(limit, steps);
    RunSound(limit, steps);
    OwnersSuffice(s.running, s.executing);
  }

  // ---------- no submission is lost ----------

  /** The queue entries of job `id`. */
  ghost function Pending(queue: map<Name, Name>, id: Name): set<Name> { set k | k in queue && queue[k] == id }

  ghost function Waiting(s: State, id: Name): nat { if s.waiting.Some? && s.waiting.value.id == id then 1 else 0 }

  /** How often `id` was put into the queue: by valid submissions whose queue key was not pending
      already; one whose key is pending only replaces the stored specification. */
  ghost function Submissions(limit: nat, steps: seq<Step>, id: Name): nat {
    if steps == [] then 0
    else
      var before, step := Run(limit, steps[..|steps| - 1]), steps[|steps| - 1];
      Submissions(limit, steps[..|steps| - 1], id)
      + match step
        case Submit(spec, valid) =>
          if valid && Enabled(before, step) && spec.id == id && CS.QueueKey(spec) !in before.store.queue then 1 else 0
        case _ => 0
  }

  /** How often a task of `id` appeared among the executing ones. */
  ghost function Executions(limit: nat, steps: seq<Step>, id: Name): nat {
    if steps == [] then 0
    else
      var before, after := Run(limit, steps[..|steps| - 1]), Run(limit, steps);
      Executions(limit, steps[..|steps| - 1], id) + NewExecution(before, after, id)
  }

  ghost function NewExecution(before: State, after: State, id: Name): nat {
    if before.nextTask < after.nextTask && before.nextTask in after.executing && after.executing[before.nextTask] == id
    then 1 else 0
  }

  lemma PendingAfter(queue: map<Name, Name>, key: Name, v: Name, id: Name)
    requires key in queue ==> queue[key] == v
    ensures |Pending(queue[key := v], id)| == |Pending(queue, id)| + if v == id && key !in queue then 1 else 0
  {
    if v == id {
      assert Pending(queue[key := v], id) == Pending(queue, id) + {key};
    } else {
      assert Pending(queue[key := v], id) == Pending(queue, id);
    }
  }

  lemma SubmitPending(s: CS.Store, spec: CS.Spec, id: Name)
    requires CS.Wellformed(s)
    ensures |Pending(CS.Enqueue(s, spec).queue, id)|
         == |Pending(s.queue, id)| + if spec.id == id && CS.QueueKey(spec) !in s.queue then 1 else 0
  {
    CS.EnqueueWellformed(s, spec);
    if CS.QueueKey(spec) in s.queue { assert CS.Backed(s, CS.QueueKey(spec)); }
    PendingAfter(s.queue, CS.QueueKey(spec), spec.id, id);
  }

  lemma PollPending(s: CS.Store, id: Name)
    requires CS.Wellformed(s) && s.queue != map[]
    ensures var (next, job) := CS.DequeueNext(s);
      job.Some? && |Pending(next.queue, id)| + (if job.value.id == id then 1 else 0) == |Pending(s.queue, id)|
  {
    var k := CS.Least(s.queue.Keys);
    CS.DequeueWellformed(s);
    var next := CS.DequeueNext(s).0;
    if s.queue[k] == id {
      assert Pending(s.queue, id) == Pending(next.queue, id) + {k};
    } else {
      assert Pending(s.queue, id) == Pending(next.queue, id);
    }
  }

  ghost function Held(s: State, id: Name): nat { |Pending(s.store.queue, id)| + Waiting(s, id) }

  lemma SubmitConserves(s: State, spec: CS.Spec, id: Name)
    requires CS.Wellformed(s.store) && Enabled(s, Submit(spec, true))
    ensures CS.Wellformed(Apply(s, Submit(spec, true)).store)
    ensures Held(Apply(s, Submit(spec, true)), id)
         == Held(s, id) + if spec.id == id && CS.QueueKey(spec) !in s.store.queue then 1 else 0
  {
    CS.EnqueueWellformed(s.store, spec);
    SubmitPending(s.store, spec, id);
  }

  lemma PollConserves(s: State, id: Name)
    requires CS.Wellformed(s.store) && Enabled(s, Poll)
    ensures CS.Wellformed(Apply(s, Poll).store) && Held(Apply(s, Poll), id) == Held(s, id)
  {
    if |s.running| < s.limit && s.store.queue != map[] {
      CS.DequeueWellformed(s.store);
      PollPending(s.store, id);
    }
  }

  lemma AcquireConserves(s: State, id: Name)
    requires Enabled(s, Acquire)
    ensures Apply(s, Acquire).store == s.store
    ensures Held(Apply(s, Acquire), id) + NewExecution(s, Apply(s, Acquire), id) == Held(s, id)
  {
  }

  /** A valid submission adds to the queue, and what leaves the wait goes to a new task. */
  lemma StepConserves(s: State, step: Step, id: Name)
    requires CS.Wellformed(s.store) && Enabled(s, step)
    ensures CS.Wellformed(Apply(s, step).store)
    ensures Held(Apply(s, step), id) + NewExecution(s, Apply(s, step), id)
         == Held(s, id)
            + match step
              case Submit(spec, valid) =>
                if valid && spec.id == id && CS.QueueKey(spec) !in s.store.queue then 1 else 0
              case _ => 0
  {
    match step
    case Submit(spec, valid) => if valid { SubmitConserves(s, spec, id); }
    case Poll => PollConserves(s, id);
    case Acquire => AcquireConserves(s, id);
    case Cancel(_) =>
    case Finish(_) =>
    case Release(_) =>
  }

  /** Under every interleaving, for every job id: the valid submissions are the queue entries,
      the job waiting for a permit, and the executions started. */
  lemma {:induction false} NothingIsLost(limit: nat, steps: seq<Step>, id: Name)
    ensures Submissions(limit, steps, id)
         == |Pending(Run(limit, steps).store.queue, id)| + Waiting(Run(limit, steps), id) + Executions(limit, steps, id)
    ensures CS.Wellformed(Run(limit, steps).store)
  {
    if steps == [] {
      assert Pending(map[], id) == {};
    } else {
      var before, step := Run(limit, steps[..|steps| - 1]), steps[|steps| - 1];
      NothingIsLost(limit, steps[..|steps| - 1], id);
      if Enabled(before, step) {
        StepConserves(before, step, id);
      }
    }
  }

  /** How many tasks have given their permit back. */
  ghost function Releases(limit: nat, steps: seq<Step>): nat {
    if steps == [] then 0
    else
      Releases(limit, steps[..|steps| - 1])
      + if steps[|steps| - 1].Release? && Enabled(Run(limit, steps[..|steps| - 1]), steps[|steps| - 1]) then 1 else 0
  }

  lemma StepPermits(s: State, step: Step)
    requires Sound(s) && Enabled(s, step)
    ensures Apply(s, step).nextTask - s.nextTask
         == Apply(s, step).PermitsInUse() - s.PermitsInUse() + if step.Release? then 1 else 0
  {
    match step
    case Acquire => OwnedAfterStart(s.running, s.executing, s.nextTask, s.waiting.value.id);
    case Finish(task) =>
      OwnedAfterFinish(s.running, s.executing, task);
      SizeAfter(s.finishing, task, s.executing[task]);
    case Release(task) => assert (s.finishing - {task}).Keys == s.finishing.Keys - {task};
    case Submit(_, _) =>
    case Cancel(_) =>
    case Poll =>
  }

  /** Under every interleaving the permits in use are those taken by tasks started and not yet
      given back. */
  lemma {:induction false} PermitsComeBack(limit: nat, steps: seq<Step>)
    ensures Run(limit, steps).nextTask == Run(limit, steps).PermitsInUse() + Releases(limit, steps)
  {
    if steps != [] {
      var before, step := Run(limit, steps[..|steps| - 1]), steps[|steps| - 1];
      PermitsComeBack(limit, steps[..|steps| - 1]);
      RunSound(limit, steps[..|steps| - 1]);
      if Enabled(before, step) { StepPermits(before, step); }
    }
  }

  /** Under every interleaving a poll below the limit takes the job of the least pending key, and
      a permit that is free starts the job that waits for it. */
  lemma PollTakesTheFirst(limit: nat, steps: seq<Step>)
    ensures var s := Run(limit, steps);
      && (s.waiting.None? && |s.running| < limit && s.store.queue != map[] ==>
            var k := CS.Least(s.store.queue.Keys); var s' := Run(limit, steps + [Poll]);
            s'.waiting.Some? && s'.waiting.value.id == s.store.queue[k] && s'.store.queue == s.store.queue - {k})
      && (s.waiting.Some? && s.PermitsInUse() < limit ==>
            var s' := Run(limit, steps + [Acquire]);
            s'.waiting.None? && s.nextTask in s'.executing && s'.executing[s.nextTask] == s.waiting.value.id)
  {
    var s := Run(limit, steps);
    RunSound(limit, steps);
    NothingIsLost(limit, steps, []);
    if s.waiting.None? && |s.running| < limit && s.store.queue != map[] {
      CS.DequeueWellformed(s.store);
      RunSnoc(limit, steps, Poll, s);
    }
    if s.waiting.Some? && s.PermitsInUse() < limit {
      RunSnoc(limit, steps, Acquire, s);
    }
  }

  // ---------- which jobs are listed ----------

  /** The step puts job `id` into the table. */
  ghost predicate Lists(s: State, step: Step, id: Name) {
    step == Acquire && Enabled(s, step) && s.waiting.value.id == id
  }

  /** The step takes job `id` out of the table: it is cancelled, or some task of that id ends. */
  ghost predicate Drops(s: State, step: Step, id: Name) {
    Enabled(s, step) && (step == Cancel(id) || (step.Finish? && s.executing[step.task] == id))
  }

  lemma StepLists(s: State, step: Step, id: Name)
    ensures id in (if Enabled(s, step) then Apply(s, step) else s).running
       <==> Lists(s, step, id) || (id in s.running && !Drops(s, step, id))
  {
  }

  ghost predicate Starts(limit: nat, steps: seq<Step>, k: nat, id: Name)
    requires k < |steps|
  {
    Lists(Run(limit, steps[..k]), steps[k], id)
  }

  ghost predicate Unlists(limit: nat, steps: seq<Step>, k: nat, id: Name)
    requires k < |steps|
  {
    Drops(Run(limit, steps[..k]), steps[k], id)
  }

  /** The start at step a is the last word about `id`. */
  ghost predicate ListedSince(limit: nat, steps: seq<Step>, a: nat, id: Name) {
    a < |steps| && Starts(limit, steps, a, id)
    && forall k :: a < k < |steps| ==> !Unlists(limit, steps, k, id)
  }

  lemma PrefixSteps(limit: nat, steps: seq<Step>, k: nat, id: Name)
    requires k < |steps| - 1
    ensures Starts(limit, steps[..|steps| - 1], k, id) <==> Starts(limit, steps, k, id)
    ensures Unlists(limit, steps[..|steps| - 1], k, id) <==> Unlists(limit, steps, k, id)
  {
    assert steps[..|steps| - 1][..k] == steps[..k];
  }

  lemma ListedInPrefix(limit: nat, steps: seq<Step>, a: nat, id: Name)
    requires a < |steps| - 1 && ListedSince(limit, steps, a, id)
    ensures ListedSince(limit, steps[..|steps| - 1], a, id) && !Unlists(limit, steps, |steps| - 1, id)
  {
    var n := |steps| - 1;
    PrefixSteps(limit, steps, a, id);
    forall k | a < k < n ensures !Unlists(limit, steps[..n], k, id) { PrefixSteps(limit, steps, k, id); }
  }

  lemma ListedAfter(limit: nat, steps: seq<Step>, a: nat, id: Name)
    requires a < |steps| - 1 && ListedSince(limit, steps[..|steps| - 1], a, id)
    requires !Unlists(limit, steps, |steps| - 1, id)
    ensures ListedSince(limit, steps, a, id)
  {
    var n := |steps| - 1;
    PrefixSteps(limit, steps, a, id);
    forall k | a < k < |steps| ensures !Unlists(limit, steps, k, id) {
      if k < n { PrefixSteps(limit, steps, k, id); }
    }
  }

  lemma ListedBefore(limit: nat, steps: seq<Step>, id: Name)
    requires steps != []
    ensures var n := |steps| - 1;
      (exists a: nat :: ListedSince(limit, steps, a, id))
      <==> Starts(limit, steps, n, id)
           || ((exists a: nat :: ListedSince(limit, steps[..n], a, id)) && !Unlists(limit, steps, n, id))
  {
    var n := |steps| - 1;
    if a: nat :| ListedSince(limit, steps, a, id) {
      if a < n { ListedInPrefix(limit, steps, a, id); }
    }
    if a: nat :| ListedSince(limit, steps[..n], a, id) {
      if !Unlists(limit, steps, n, id) { ListedAfter(limit, steps, a, id); }
    }
    if Starts(limit, steps, n, id) {
      assert ListedSince(limit, steps, n, id);
    }
  }

  /** Under every interleaving a job is in the table exactly when, since some start of it, it
      has not been cancelled and no task of that id has ended. */
  lemma {:induction false} ListedExactly(limit: nat, steps: seq<Step>, id: Name)
    ensures id in Run(limit, steps).running <==> exists a: nat :: ListedSince(limit, steps, a, id)
  {
    if steps != [] {
      var n := |steps| - 1;
      ListedExactly(limit, steps[..n], id);
      StepLists(Run(limit, steps[..n]), steps[n], id);
      ListedBefore(limit, steps, id);
    }
  }

  /** Every executing task was started by some step. */
  lemma {:induction false} StartOf(limit: nat, steps: seq<Step>, task: nat) returns (a: nat)
    requires task in Run(limit, steps).executing
    ensures a < |steps| && Starts(limit, steps, a, Run(limit, steps).executing[task])
    ensures Run(limit, steps[..a]).nextTask == task
  {
    var n := |steps| - 1;
    var front := steps[..n];
    if task in Run(limit, front).executing && Run(limit, front).executing[task] == Run(limit, steps).executing[task] {
      a := StartOf(limit, front, task);
      assert front[..a] == steps[..a];
    } else {
      a := n;
    }
  }

  /** Step k takes `id` out of the table for good. */
  ghost predicate LastlyUnlists(limit: nat, steps: seq<Step>, k: nat, id: Name) {
    k < |steps| && Unlists(limit, steps, k, id)
    && forall j :: k < j < |steps| ==> !Starts(limit, steps, j, id)
  }

  /** Not every executing job is listed.  The job of an executing task is missing from the table
      exactly when, after the step that started that task, it was cancelled or another task of
      the same id ended, and it was not started again since. */
  lemma UnlistedExactly(limit: nat, steps: seq<Step>, task: nat, a: nat)
    requires task in Run(limit, steps).executing
    requires a < |steps| && Starts(limit, steps, a, Run(limit, steps).executing[task])
    requires Run(limit, steps[..a]).nextTask == task
    ensures var id := Run(limit, steps).executing[task];
      id !in Run(limit, steps).running <==> exists k: nat :: a < k && LastlyUnlists(limit, steps, k, id)
  {
    var id := Run(limit, steps).executing[task];
    ListedExactly(limit, steps, id);
    if k: nat :| a < k && LastlyUnlists(limit, steps, k, id) {
      forall b: nat ensures !ListedSince(limit, steps, b, id) { NotBoth(limit, steps, k, b, id); }
    }
    if id !in Run(limit, steps).running {
      var k := UnlistedSince(limit, steps, a, id);
      assert a < k && LastlyUnlists(limit, steps, k, id);
    }
  }

  lemma NotBoth(limit: nat, steps: seq<Step>, k: nat, b: nat, id: Name)
    requires LastlyUnlists(limit, steps, k, id)
    ensures !ListedSince(limit, steps, b, id)
  {
  }

  lemma UnlistedSince(limit: nat, steps: seq<Step>, a: nat, id: Name) returns (k: nat)
    requires a < |steps| && Starts(limit, steps, a, id)
    requires forall b: nat :: !ListedSince(limit, steps, b, id)
    ensures a < k && LastlyUnlists(limit, steps, k, id)
  {
    assert !ListedSince(limit, steps, a, id);
    var first :| a < first < |steps| && Unlists(limit, steps, first, id);
    var unlists := (j: nat) => j < |steps| && Unlists(limit, steps, j, id);
    k := LastBefore(unlists, first, |steps|);
    forall j | k < j < |steps| ensures !Starts(limit, steps, j, id) {
      if Starts(limit, steps, j, id) {
        forall m | j < m < |steps| ensures !Unlists(limit, steps, m, id) { assert !unlists(m); }
        assert ListedSince(limit, steps, j, id);
      }
    }
  }

  /** The end of one of two tasks of the same id unlists the other, without any cancellation. */
  lemma TwinIsUnlisted(s: State, task: nat, twin: nat)
    requires task in s.executing && twin in s.executing && task != twin && s.executing[task] == s.executing[twin]
    ensures var s' := Apply(s, Finish(task)); twin in s'.executing && s'.executing[twin] !in s'.running
  {
  }

  /** A cancelled job is no longer listed, yet its task goes on executing, so the limit can be
      reached with an empty table. */
  lemma CancelledTaskKeepsItsPermit(spec: CS.Spec)
    ensures var s := Run(1, [Submit(spec, true), Poll, Acquire, Cancel(spec.id)]);
      s.running == {} && s.executing == map[0 := spec.id] && s.PermitsInUse() == 1
  {
    var a, b, c, d := Submit(spec, true), Poll, Acquire, Cancel(spec.id);
    var jobs := map[CS.JOB_PREFIX + spec.id := spec];
    var queue := map[CS.QueueKey(spec) := spec.id];
    RunSnoc(1, [], a, Start(1));
    var s1 := Start(1).(store := CS.Store(jobs, queue, map[]));
    assert Apply(Start(1), a) == s1;
    assert [] + [a] == [a] && [a] + [b] == [a, b] && [a, b] + [c] == [a, b, c] && [a, b, c] + [d] == [a, b, c, d];
    RunSnoc(1, [a], b, s1);
    DequeueOnly(jobs, queue, spec);
    var s2 := s1.(store := CS.Store(jobs, map[], map[]), waiting := Some(spec));
    RunSnoc(1, [a, b], c, s2);
    var s3 := s2.(running := {spec.id}, executing := map[0 := spec.id], waiting := None, nextTask := 1);
    assert Apply(s2, c) == s3;
    RunSnoc(1, [a, b, c], d, s3);
  }

  lemma DequeueOnly(jobs: map<Name, CS.Spec>, queue: map<Name, Name>, spec: CS.Spec)
    requires jobs == map[CS.JOB_PREFIX + spec.id := spec] && queue == map[CS.QueueKey(spec) := spec.id]
    ensures CS.DequeueNext(CS.Store(jobs, queue, map[])) == (CS.Store(jobs, map[], map[]), Some(spec))
  {
    var k := CS.QueueKey(spec);
    assert k in queue;
    assert queue.Keys == {k};
    assert CS.Least(queue.Keys) == k;
    assert queue - {k} == map[];
  }

  lemma RunSnoc(limit: nat, steps: seq<Step>, step: Step, before: State)
    requires Run(limit, steps) == before && Enabled(before, step)
    ensures Run(limit, steps + [step]) == Apply(before, step)
  {
  }
}
