/** The persistent job queue of src/compute/store.rs.  The trees are maps; iteration over a
    tree is in the byte order of its keys. */
module ComputeStore {
  import opened Basics
  import opened Lexicographic

  const MAX_STORED_RESULTS := 10000

  const JOB_PREFIX: Name := [106, 111, 98, 58]           // "job:"
  const RESULT_PREFIX: Name := [114, 101, 115, 117, 108, 116, 58]  // "result:"

  /** A job id is its bytes; `payload` stands for the rest of the specification. */
  datatype Spec = Spec(id: Name, createdAt: nat, payload: string)

  datatype JobResult = JobResult(id: Name, output: string)

  datatype Store = Store(jobs: map<Name, Spec>, queue: map<Name, Name>, results: map<Name, JobResult>)

  // ---------- queue keys ----------

  function BigEndian(t: nat, width: nat): (b: Name)
    ensures |b| == width
  {
    if width == 0 then [] else BigEndian(t / 256, width - 1) + [t % 256]
  }

  /** Eight bytes of creation time, then the id. */
  function QueueKey(spec: Spec): Name { BigEndian(spec.createdAt, 8) + spec.id }

  function Pow256(n: nat): nat { if n == 0 then 1 else 256 * Pow256(n - 1) }

  lemma {:induction false} LessConcat(a: Name, b: Name, x: Name, y: Name)
    requires |a| == |b|
    ensures Less(a + x, b + y) <==> Less(a, b) || (a == b && Less(x, y))
  {
    if a == [] {
      assert a + x == x && b + y == y;
    } else {
      LessConcat(a[1..], b[1..], x, y);
      assert (a + x)[1..] == a[1..] + x && (b + y)[1..] == b[1..] + y;
      assert a == [a[0]] + a[1..] && b == [b[0]] + b[1..];
    }
  }

  lemma {:induction false} BigEndianOrder(t: nat, u: nat, width: nat)
    requires t < Pow256(width) && u < Pow256(width)
    ensures Less(BigEndian(t, width), BigEndian(u, width)) <==> t < u
    ensures BigEndian(t, width) == BigEndian(u, width) <==> t == u
  {
    if width != 0 {
      var p, q := BigEndian(t / 256, width - 1), BigEndian(u / 256, width - 1);
      BigEndianOrder(t / 256, u / 256, width - 1);
      LessConcat(p, q, [t % 256], [u % 256]);
      assert Less([t % 256], [u % 256]) <==> t % 256 < u % 256;
      assert (p + [t % 256])[..width - 1] == p && (q + [u % 256])[..width - 1] == q;
      assert (p + [t % 256])[width - 1] == t % 256 && (q + [u % 256])[width - 1] == u % 256;
    }
  }

  lemma EightBytes()
    ensures Pow256(8) == 0x1_0000_0000_0000_0000
  {
  }

  /** Byte order on queue keys is order by creation time, then by id. */
  lemma QueueKeyOrder(a: Spec, b: Spec)
    requires a.createdAt < 0x1_0000_0000_0000_0000 && b.createdAt < 0x1_0000_0000_0000_0000
    ensures Less(QueueKey(a), QueueKey(b)) <==>
            a.createdAt < b.createdAt || (a.createdAt == b.createdAt && Less(a.id, b.id))
    ensures QueueKey(a) == QueueKey(b) <==> a.createdAt == b.createdAt && a.id == b.id
  {
    var p, q := BigEndian(a.createdAt, 8), BigEndian(b.createdAt, 8);
    EightBytes();
    BigEndianOrder(a.createdAt, b.createdAt, 8);
    LessConcat(p, q, a.id, b.id);
    assert (p + a.id)[..8] == p && (q + b.id)[..8] == q;
    assert (p + a.id)[8..] == a.id && (q + b.id)[8..] == b.id;
  }

  // ---------- least keys ----------

  ghost predicate IsLeast(keys: set<Name>, k: Name) {
    k in keys && forall j :: j in keys && j != k ==> Less(k, j)
  }

  lemma {:induction false} LeastExists(keys: set<Name>) returns (k: Name)
    requires keys != {}
    ensures IsLeast(keys, k)
  {
    var j :| j in keys;
    if keys - {j} == {} {
      assert keys == {j};
      k := j;
    } else {
      var m := LeastExists(keys - {j});
      LessTotal(j, m);
      if Less(j, m) {
        k := j;
        forall i | i in keys && i != j ensures Less(j, i) {
          if i != m { LessTransitive(j, m, i); }
        }
      } else {
        k := m;
      }
    }
  }

  ghost function Least(keys: set<Name>): (k: Name)
    requires keys != {}
    ensures IsLeast(keys, k)
  {
    assert exists k :: IsLeast(keys, k) by { var k := LeastExists(keys); }
    var k :| IsLeast(keys, k); k
  }

  lemma LeastUnique(keys: set<Name>, k: Name)
    requires IsLeast(keys, k)
    ensures k == Least(keys)
  {
    LessTotal(k, Least(keys));
  }

  // ---------- operations ----------

  function Enqueue(s: Store, spec: Spec): Store {
    s.(jobs := s.jobs[JOB_PREFIX + spec.id := spec], queue := s.queue[QueueKey(spec) := spec.id])
  }

  /** Takes the first entry of the queue; an entry without a specification is dropped. */
  ghost function DequeueNext(s: Store): (Store, Option<Spec>) {
    if s.queue == map[] then (s, None)
    else
      var k := Least(s.queue.Keys);
      var key := JOB_PREFIX + s.queue[k];
      (s.(queue := s.queue - {k}), if key in s.jobs then Some(s.jobs[key]) else None)
  }

  /** What goes wrong during a dequeue: reading a tree, decoding the specification, removing
      the queue entry. */
  datatype Fault = NoFault | ReadFails | DecodeFails | RemoveFails

  datatype Popped = Job(spec: Spec) | Nothing | PopFailed

  /** A dequeue that may fail; a failed removal of an entry without specification is ignored. */
  ghost function TryDequeue(s: Store, fault: Fault): (Store, Popped) {
    if fault == ReadFails then (s, PopFailed)
    else if s.queue == map[] then (s, Nothing)
    else
      var (next, job) := DequeueNext(s);
      if job.Some? then if fault == NoFault then (next, Job(job.value)) else (s, PopFailed)
      else (if fault == RemoveFails then s else next, Nothing)
  }

  /** The n least entries removed. */
  ghost function RemoveLeast<V>(m: map<Name, V>, n: nat): map<Name, V> {
    if n == 0 || m == map[] then m else RemoveLeast(m - {Least(m.Keys)}, n - 1)
  }

  ghost function SaveResult(s: Store, r: JobResult): Store {
    var results := s.results[RESULT_PREFIX + r.id := r];
    s.(results := if |results| <= MAX_STORED_RESULTS then results else RemoveLeast(results, |results| / 10))
  }

  // ---------- the store object ----------

  class JobStore {
    var jobs: map<Name, Spec>
    var queue: map<Name, Name>
    var results: map<Name, JobResult>

    ghost function State(): Store
      reads this
    {
      Store(jobs, queue, results)
    }

    constructor ()
      ensures State() == Store(map[], map[], map[])
    {
      jobs, queue, results := map[], map[], map[];
    }

    /** Serialization or the transaction over both trees may fail; then nothing is changed. */
    method Push(spec: Spec, fails: bool) returns (ok: bool)
      modifies this
      ensures ok == !fails && State() == if fails then old(State()) else Enqueue(old(State()), spec)
    {
      if fails {
        return false;
      }
      jobs := jobs[JOB_PREFIX + spec.id := spec];
      queue := queue[QueueKey(spec) := spec.id];
      ok := true;
    }

    method Pop(fault: Fault) returns (r: Popped)
      modifies this`queue
      ensures (State(), r) == TryDequeue(old(State()), fault)
    {
      if fault == ReadFails {
        return PopFailed;
      }
      if queue == map[] {
        return Nothing;
      }
      var k := FirstKey(queue.Keys);
      var key := JOB_PREFIX + queue[k];
      if key in jobs {
        if fault != NoFault {
          return PopFailed;
        }
        queue := queue - {k};
        r := Job(jobs[key]);
      } else {
        if fault != RemoveFails {
          queue := queue - {k};
        }
        r := Nothing;
      }
    }

    method Save(result: JobResult, fails: bool) returns (ok: bool)
      modifies this`results
      ensures ok == !fails && State() == if fails then old(State()) else SaveResult(old(State()), result)
    {
      if fails {
        return false;
      }
      results := results[RESULT_PREFIX + result.id := result];
      CollectGarbage();
      ok := true;
    }

    method CollectGarbage()
      modifies this`results
      ensures results == if |old(results)| <= MAX_STORED_RESULTS then old(results)
                         else RemoveLeast(old(results), |old(results)| / 10)
    {
      var count := |results|;
      if count <= MAX_STORED_RESULTS {
        return;
      }
      var toDelete := count / 10;
      var deleted := 0;
      while deleted < toDelete && results != map[]
        invariant deleted <= toDelete
        invariant RemoveLeast(results, toDelete - deleted) == RemoveLeast(old(results), toDelete)
        decreases toDelete - deleted
      {
        var k := FirstKey(results.Keys);
        results := results - {k};
        deleted := deleted + 1;
      }
    }
  }

  /** The first key in iteration order. */
  method FirstKey(keys: set<Name>) returns (k: Name)
    requires keys != {}
    ensures k == Least(keys)
  {
    k :| k in keys;
    var rest := keys - {k};
    while rest != {}
      invariant rest <= keys && k in keys && k !in rest
      invariant forall j :: j in keys && j !in rest && j != k ==> Less(k, j)
      decreases |rest|
    {
      var j :| j in rest;
      LessTotal(j, k);
      if Less(j, k) {
        ghost var was := k;
        k := j;
        forall i | i in keys && i !in rest && i != was ensures Less(k, i) { LessTransitive(k, was, i); }
      }
      rest := rest - {j};
    }
    LeastUnique(keys, k);
  }

  // ---------- runs ----------

  datatype Step = DoEnqueue(spec: Spec, fails: bool) | DoDequeue(fault: Fault) | DoSave(result: JobResult, fails: bool)

  /** `enqueued` and `dequeued` record the queue keys put in and taken out; a key still pending
      when it is put in again replaces itself. */
  datatype Log = Log(store: Store, enqueued: multiset<Name>, dequeued: multiset<Name>)

  ghost function Apply(l: Log, step: Step): Log {
    match step
    case DoEnqueue(spec, fails) =>
      if fails then l
      else if QueueKey(spec) in l.store.queue then l.(store := Enqueue(l.store, spec))
      else l.(store := Enqueue(l.store, spec), enqueued := l.enqueued + multiset{QueueKey(spec)})
    case DoDequeue(fault) =>
      var s := TryDequeue(l.store, fault).0;
      if s == l.store || l.store.queue == map[] then l
      else l.(store := s, dequeued := l.dequeued + multiset{Least(l.store.queue.Keys)})
    case DoSave(r, fails) => if fails then l else l.(store := SaveResult(l.store, r))
  }

  ghost function Run(steps: seq<Step>): Log {
    if steps == [] then Log(Store(map[], map[], map[]), multiset{}, multiset{})
    else Apply(Run(steps[..|steps| - 1]), steps[|steps| - 1])
  }

  ghost predicate Intact(l: Log) {
    && l.enqueued == l.dequeued + multiset(l.store.queue.Keys)
    && Wellformed(l.store)
  }

  /** Every queue entry is backed, and every specification is stored under its own id. */
  ghost predicate Wellformed(s: Store) {
    && (forall k :: k in s.queue ==> Backed(s, k))
    && (forall key :: key in s.jobs ==> key == JOB_PREFIX + s.jobs[key].id)
  }

  /** A queue entry ends in the id it names, and that job's specification is stored. */
  ghost predicate Backed(s: Store, k: Name)
    requires k in s.queue
  {
    |k| >= 8 && k[8..] == s.queue[k] && JOB_PREFIX + s.queue[k] in s.jobs
  }

  lemma EnqueueIntact(l: Log, spec: Spec)
    requires Intact(l)
    ensures Intact(Apply(l, DoEnqueue(spec, false)))
  {
    EnqueueWellformed(l.store, spec);
    assert Enqueue(l.store, spec).queue.Keys == l.store.queue.Keys + {QueueKey(spec)};
  }

  lemma EnqueueWellformed(s: Store, spec: Spec)
    requires Wellformed(s)
    ensures Wellformed(Enqueue(s, spec)) && QueueKey(spec)[8..] == spec.id
  {
    var key := QueueKey(spec);
    assert key[8..] == spec.id;
    forall k | k in Enqueue(s, spec).queue ensures Backed(Enqueue(s, spec), k) { assert k != key ==> Backed(s, k); }
  }

  /** A non-empty queue yields the job its least key names. */
  lemma DequeueWellformed(s: Store)
    requires Wellformed(s) && s.queue != map[]
    ensures var k := Least(s.queue.Keys); var (next, job) := DequeueNext(s);
      Wellformed(next) && next.queue == s.queue - {k} && job.Some? && job.value.id == s.queue[k]
  {
    var k := Least(s.queue.Keys);
    assert Backed(s, k);
    PrefixInjective(JOB_PREFIX, s.jobs[JOB_PREFIX + s.queue[k]].id, s.queue[k]);
    var next := DequeueNext(s).0;
    forall j | j in next.queue ensures Backed(next, j) { assert Backed(s, j); }
  }

  lemma {:induction false} RunIntact(steps: seq<Step>)
    ensures Intact(Run(steps))
  {
    if steps != [] {
      var l, step := Run(steps[..|steps| - 1]), steps[|steps| - 1];
      RunIntact(steps[..|steps| - 1]);
      match step {
        case DoEnqueue(spec, fails) => EnqueueIntact(l, spec);
        case DoDequeue(fault) => if l.store.queue != map[] { DequeueIntact(l, fault); }
        case DoSave(r, fails) =>
          forall k | k in l.store.queue ensures Backed(SaveResult(l.store, r), k) { assert Backed(l.store, k); }
      }
    }
  }

  lemma DequeueIntact(l: Log, fault: Fault)
    requires Intact(l) && l.store.queue != map[]
    ensures Intact(Apply(l, DoDequeue(fault)))
  {
    var s, least := DequeueNext(l.store).0, Least(l.store.queue.Keys);
    assert s.queue.Keys == l.store.queue.Keys - {least};
    assert multiset(l.store.queue.Keys) == multiset(s.queue.Keys) + multiset{least};
    forall k | k in s.queue ensures Backed(s, k) { assert Backed(l.store, k); }
  }

  /** In every run, failing operations included: keys put in are exactly those taken out plus
      those pending; taking from a non-empty queue always yields a job (the anomaly branch is
      dead), the one named by the least pending key, and removes that key only; a take that
      fails changes nothing, so the same job stays first. */
  lemma QueueIsFifo(steps: seq<Step>)
    ensures var l := Run(steps);
      && l.enqueued == l.dequeued + multiset(l.store.queue.Keys)
      && (l.store.queue != map[] ==>
            var k := Least(l.store.queue.Keys);
            var (s, r) := DequeueNext(l.store);
            && r.Some? && |k| >= 8 && r.value.id == k[8..]
            && s == l.store.(queue := l.store.queue - {k})
            && (forall j :: j in s.queue ==> Less(k, j)))
      && (forall fault :: fault != NoFault ==> TryDequeue(l.store, fault).0 == l.store)
  {
    RunIntact(steps);
    var l := Run(steps);
    if l.store.queue != map[] {
      var k := Least(l.store.queue.Keys);
      assert Backed(l.store, k);
      var key := JOB_PREFIX + l.store.queue[k];
      assert key[4..] == l.store.queue[k] && (JOB_PREFIX + l.store.jobs[key].id)[4..] == l.store.jobs[key].id;
    }
  }

  /** The specification last enqueued under this id, as the steps tell it. */
  function LastSpec(steps: seq<Step>, id: Name): Option<Spec> {
    if steps == [] then None
    else
      match steps[|steps| - 1]
      case DoEnqueue(spec, fails) =>
        if !fails && spec.id == id then Some(spec) else LastSpec(steps[..|steps| - 1], id)
      case _ => LastSpec(steps[..|steps| - 1], id)
  }

  function SpecOf(s: Store, id: Name): Option<Spec> {
    if JOB_PREFIX + id in s.jobs then Some(s.jobs[JOB_PREFIX + id]) else None
  }

  lemma PrefixInjective(prefix: Name, a: Name, b: Name)
    ensures prefix + a == prefix + b <==> a == b
  {
    assert (prefix + a)[|prefix|..] == a && (prefix + b)[|prefix|..] == b;
  }

  lemma {:induction false} SpecIsLast(steps: seq<Step>, id: Name)
    ensures SpecOf(Run(steps).store, id) == LastSpec(steps, id)
  {
    if steps != [] {
      var front, step := steps[..|steps| - 1], steps[|steps| - 1];
      SpecIsLast(front, id);
      if step.DoEnqueue? { PrefixInjective(JOB_PREFIX, step.spec.id, id); }
    }
  }

  /** What a dequeue answers, in every run and with every fault: without one, the specification
      last enqueued under the id of the least pending key, and exactly that key is removed; or
      nothing if the queue is empty.  With one, a failure, and the store stays as it is; only
      the first read can fail on an empty queue. */
  lemma DequeueAnswers(steps: seq<Step>, fault: Fault)
    ensures var s := Run(steps).store; var (next, popped) := TryDequeue(s, fault);
      if s.queue == map[] then next == s && popped == if fault == ReadFails then PopFailed else Nothing
      else if fault != NoFault then next == s && popped == PopFailed
      else
        var k := Least(s.queue.Keys);
        && |k| >= 8 && LastSpec(steps, k[8..]).Some?
        && popped == Job(LastSpec(steps, k[8..]).value)
        && next == s.(queue := s.queue - {k})
  {
    RunIntact(steps);
    var s := Run(steps).store;
    if s.queue != map[] {
      var k := Least(s.queue.Keys);
      assert Backed(s, k);
      SpecIsLast(steps, k[8..]);
    }
  }

  // ---------- what garbage collection keeps ----------

  ghost function Smaller(keys: set<Name>, k: Name): set<Name> { set j | j in keys && Less(j, k) }

  /** An entry survives exactly when at least n others come before it. */
  lemma {:induction false} SurvivesRemoval<V>(m: map<Name, V>, n: nat, k: Name)
    requires k in m
    ensures k in RemoveLeast(m, n) <==> |Smaller(m.Keys, k)| >= n
    ensures k in RemoveLeast(m, n) ==> RemoveLeast(m, n)[k] == m[k]
    decreases n
  {
    if n != 0 {
      var least := Least(m.Keys);
      var rest := m - {least};
      LessTotal(k, least);
      if k == least {
        forall j | j in m.Keys ensures !Less(j, k) { LessTotal(j, k); }
        assert Smaller(m.Keys, k) == {};
        RemovedStaysRemoved(rest, n - 1, k);
      } else {
        SurvivesRemoval(rest, n - 1, k);
        assert Smaller(m.Keys, k) == Smaller(rest.Keys, k) + {least};
        assert least !in Smaller(rest.Keys, k);
      }
    }
  }

  lemma {:induction false} RemovedStaysRemoved<V>(m: map<Name, V>, n: nat, k: Name)
    requires k !in m
    ensures k !in RemoveLeast(m, n)
    decreases n
  {
    if n != 0 && m != map[] {
      RemovedStaysRemoved(m - {Least(m.Keys)}, n - 1, k);
    }
  }

  /** A result just saved can be read back unless the store is over its limit and the result's
      key is among the first tenth: collection goes by key, not by age. */
  lemma SavedResultIsThere(s: Store, r: JobResult)
    ensures var key := RESULT_PREFIX + r.id; var results := s.results[key := r];
      && (key in SaveResult(s, r).results <==>
            |results| <= MAX_STORED_RESULTS || |Smaller(results.Keys, key)| >= |results| / 10)
      && (key in SaveResult(s, r).results ==> SaveResult(s, r).results[key] == r)
  {
    var key := RESULT_PREFIX + r.id;
    var results := s.results[key := r];
    SurvivesRemoval(results, |results| / 10, key);
  }

  /** The id "aa...a". */
  function Unary(n: nat): (id: Name)
    ensures |id| == n
  {
    seq(n, _ => 97)
  }

  /** Results with n different ids. */
  ghost function Filled(n: nat): map<Name, JobResult> {
    if n == 0 then map[] else Filled(n - 1)[RESULT_PREFIX + Unary(n) := JobResult(Unary(n), "")]
  }

  lemma {:induction false} FilledKey(n: nat, k: Name)
    requires k in Filled(n)
    ensures 8 <= |k| <= 7 + n && k[..7] == RESULT_PREFIX && k[7] == 97
  {
    var key := RESULT_PREFIX + Unary(n);
    if k == key {
      assert key[7] == Unary(n)[0] && key[..7] == RESULT_PREFIX;
    } else {
      FilledKey(n - 1, k);
    }
  }

  lemma {:induction false} FilledSize(n: nat)
    ensures |Filled(n)| == n
  {
    if n != 0 {
      var key := RESULT_PREFIX + Unary(n);
      FilledSize(n - 1);
      if key in Filled(n - 1) { FilledKey(n - 1, key); }
      assert Filled(n).Keys == Filled(n - 1).Keys + {key};
    }
  }

  /** A full store whose ids all come later: the result just saved, of id "A", is the first
      to go. */
  lemma SavedResultIsCollected()
    ensures var s := Store(map[], map[], Filled(MAX_STORED_RESULTS)); var r := JobResult([65], "");
      RESULT_PREFIX + r.id !in SaveResult(s, r).results
  {
    var s, r := Store(map[], map[], Filled(MAX_STORED_RESULTS)), JobResult([65], "");
    var key := RESULT_PREFIX + r.id;
    var results := s.results[key := r];
    FilledSize(MAX_STORED_RESULTS);
    assert key !in s.results by {
      if key in s.results { FilledKey(MAX_STORED_RESULTS, key); }
    }
    assert results.Keys == s.results.Keys + {key};
    forall j | j in results ensures !Less(j, key) {
      LessTotal(j, key);
      if j != key {
        FilledKey(MAX_STORED_RESULTS, j);
        ComesLater(j);
      }
    }
    assert Smaller(results.Keys, key) == {};
    SavedResultIsThere(s, r);
  }

  lemma ComesLater(k: Name)
    requires |k| >= 8 && k[..7] == RESULT_PREFIX && k[7] == 97
    ensures Less(RESULT_PREFIX + [65], k)
  {
    assert k == RESULT_PREFIX + k[7..];
    LessConcat(RESULT_PREFIX, RESULT_PREFIX, [65], k[7..]);
  }
}
