/** The mutable objects of src/crdt_state.rs.  Every method is proved to have the
    effect of the value-level function it is named after.  Clock readings and fresh
    tags are arguments. */
module CrdtObjects {
  import opened Lexicographic
  import opened Crdt
  import OrSetRuns
  import CounterRuns

  class LwwRegister<T> {
    var value: T
    var ts: nat
    var node: Name

    ghost function State(): Lww<T>
      reads this
    {
      Lww(value, ts, node)
    }

    constructor (value: T, node: Name, now: nat)
      ensures State() == Lww(value, now, node)
    {
      this.value, this.ts, this.node := value, now, node;
    }

    method Set(value: T, node: Name, now: nat)
      modifies this
      ensures State() == Lww(value, now, node)
    {
      this.value, this.ts, this.node := value, now, node;
    }

    method Merge(other: LwwRegister<T>)
      modifies this
      ensures State() == LwwMerge(old(State()), old(other.State()))
    {
      if other.ts > ts || (other.ts == ts && Less(node, other.node)) {
        value, ts, node := other.value, other.ts, other.node;
      }
    }
  }

  class GSet {
    var items: Counts

    constructor ()
      ensures items == map[]
    {
      items := map[];
    }

    method Insert(item: Name, now: nat)
      modifies this
      ensures items == GSetMerge(old(items), map[item := now])
    {
      if item !in items {
        items := items[item := now];
      }
    }

    method Merge(other: GSet)
      modifies this
      ensures items == GSetMerge(old(items), old(other.items))
    {
      items := AddMissing(items, other.items);
    }
  }

  method AddMissing(mine: Counts, theirs: Counts) returns (r: Counts)
    ensures r == GSetMerge(mine, theirs)
  {
    r := mine;
    var todo := theirs.Keys;
    ghost var done: Counts := map[];
    while todo != {}
      invariant PartOf(done, theirs, todo) && r == GSetMerge(mine, done)
      decreases |todo|
    {
      var k :| k in todo;
      GSetMergeNext(mine, done, k, theirs[k]);
      if k !in r {
        r := r[k := theirs[k]];
      }
      done, todo := done[k := theirs[k]], todo - {k};
    }
    PartIsWhole(done, theirs);
  }

  lemma GSetMergeNext(mine: Counts, done: Counts, k: Name, v: nat)
    requires k !in done
    ensures var r := GSetMerge(mine, done); GSetMerge(mine, done[k := v]) == if k in r then r else r[k := v]
  {
  }

  /** Pointwise maximum over the entries of `theirs`, the loop shared by the counter and
      the vector clock. */
  method RaiseAll(mine: Counts, theirs: Counts) returns (r: Counts)
    ensures r == MaxMerge(mine, theirs)
  {
    r := mine;
    var todo := theirs.Keys;
    ghost var done: Counts := map[];
    MaxMergeNothing(mine);
    while todo != {}
      invariant PartOf(done, theirs, todo) && r == MaxMerge(mine, done)
      decreases |todo|
    {
      var k :| k in todo;
      MaxMergeNext(mine, done, k, theirs[k]);
      r := r[k := Max(Count(r, k), theirs[k])];
      done, todo := done[k := theirs[k]], todo - {k};
    }
    PartIsWhole(done, theirs);
  }

  /** `done` is the part of `m` outside `todo`. */
  ghost predicate PartOf<K, V>(done: map<K, V>, m: map<K, V>, todo: set<K>) {
    todo <= m.Keys && done.Keys == m.Keys - todo && forall k :: k in done ==> done[k] == m[k]
  }

  lemma PartIsWhole<K, V>(done: map<K, V>, m: map<K, V>)
    requires PartOf(done, m, {})
    ensures done == m
  {
  }

  lemma MaxMergeNothing(mine: Counts)
    ensures MaxMerge(mine, map[]) == mine
  {
  }

  lemma MaxMergeNext(mine: Counts, done: Counts, k: Name, v: nat)
    requires k !in done
    ensures var r := MaxMerge(mine, done); MaxMerge(mine, done[k := v]) == r[k := Max(Count(r, k), v)]
  {
    var r, r' := MaxMerge(mine, done), MaxMerge(mine, done[k := v]);
    assert r'.Keys == r.Keys + {k};
    forall j | j in r' && j != k ensures r'[j] == r[j] { }
  }

  class GCounter {
    var counters: Counts

    constructor ()
      ensures counters == map[]
    {
      counters := map[];
    }

    method Increment(replica: Name, delta: nat)
      modifies this
      ensures counters == CounterRuns.Bump(old(counters), replica, delta)
    {
      counters := counters[replica := Count(counters, replica) + delta];
    }

    method Total() returns (sum: nat)
      ensures sum == CounterRuns.Total(counters)
    {
      sum := 0;
      var todo := counters.Keys;
      while todo != {}
        invariant todo <= counters.Keys
        invariant sum + CounterRuns.SumOver(counters, todo) == CounterRuns.Total(counters)
        decreases |todo|
      {
        var k :| k in todo;
        CounterRuns.SumPick(counters, todo, k);
        sum := sum + counters[k];
        todo := todo - {k};
      }
    }

    method Merge(other: GCounter)
      modifies this
      ensures counters == MaxMerge(old(counters), old(other.counters))
    {
      counters := RaiseAll(counters, other.counters);
    }
  }

  class ObservedRemoveSet<T(==)> {
    var entries: map<T, set<nat>>
    var removed: set<nat>

    ghost function State(): OrSet<T>
      reads this
    {
      OrSet(entries, removed)
    }

    constructor ()
      ensures State() == OrSet(map[], {})
    {
      entries, removed := map[], {};
    }

    method Add(item: T, tag: nat)
      modifies this
      ensures State() == OrSetRuns.OrAdd(old(State()), item, tag)
    {
      if item !in entries {
        entries := entries[item := {}];
      }
      entries := entries[item := entries[item] + {tag}];
    }

    method Remove(item: T)
      modifies this
      ensures State() == OrSetRuns.OrRemove(old(State()), item)
    {
      if item in entries {
        removed := removed + entries[item];
        entries := entries - {item};
      }
    }

    method Contains(item: T) returns (found: bool)
      ensures found <==> State().Contains(item)
    {
      found := item in entries && exists t :: t in entries[item] && t !in removed;
      if item in entries && found {
        var t :| t in entries[item] && t !in removed;
        assert t in State().Live(item);
      }
    }

    method Merge(other: ObservedRemoveSet<T>)
      requires other != this
      modifies this
      ensures State() == OrMerge(old(State()), other.State())
    {
      var joined := JoinTags(entries, other.entries);
      removed := removed + other.removed;
      entries := Retain(joined, removed);
    }
  }

  method JoinTags<T(==)>(mine: map<T, set<nat>>, theirs: map<T, set<nat>>) returns (r: map<T, set<nat>>)
    ensures r == AllTags(mine, theirs)
  {
    r := mine;
    var todo := theirs.Keys;
    ghost var done: map<T, set<nat>> := map[];
    AllTagsNothing(mine);
    while todo != {}
      invariant PartOf(done, theirs, todo) && r == AllTags(mine, done)
      decreases |todo|
    {
      var k :| k in todo;
      AllTagsNext(mine, done, k, theirs[k]);
      r := r[k := TagsOf(r, k) + theirs[k]];
      done, todo := done[k := theirs[k]], todo - {k};
    }
    PartIsWhole(done, theirs);
  }

  lemma AllTagsNothing<T>(mine: map<T, set<nat>>)
    ensures AllTags(mine, map[]) == mine
  {
    var r := AllTags(mine, map[]);
    assert r.Keys == mine.Keys;
    forall k | k in mine ensures r[k] == mine[k] { }
  }

  lemma AllTagsNext<T>(mine: map<T, set<nat>>, done: map<T, set<nat>>, k: T, v: set<nat>)
    requires k !in done
    ensures var r := AllTags(mine, done); AllTags(mine, done[k := v]) == r[k := TagsOf(r, k) + v]
  {
    var r, r' := AllTags(mine, done), AllTags(mine, done[k := v]);
    assert r'.Keys == r.Keys + {k};
    forall j | j in r' && j != k ensures r'[j] == r[j] { }
    assert r'[k] == TagsOf(r, k) + v;
  }

  class PeerRegistry {
    var entries: Registry

    constructor ()
      ensures entries == map[]
    {
      entries := map[];
    }

    method Upsert(entry: PeerEntry, ts: nat)
      modifies this
      ensures entries == RegistryMerge(old(entries), map[entry.peerId := Stamped(entry, ts)])
    {
      if !(entry.peerId in entries && entries[entry.peerId].ts >= ts) {
        entries := entries[entry.peerId := Stamped(entry, ts)];
      }
    }

    method Merge(other: PeerRegistry)
      modifies this
      ensures entries == RegistryMerge(old(entries), old(other.entries))
    {
      entries := TakeLater(entries, other.entries);
    }
  }

  method TakeLater(mine: Registry, theirs: Registry) returns (r: Registry)
    ensures r == RegistryMerge(mine, theirs)
  {
    r := mine;
    var todo := theirs.Keys;
    ghost var done: Registry := map[];
    RegistryMergeNothing(mine);
    while todo != {}
      invariant PartOf(done, theirs, todo) && r == RegistryMerge(mine, done)
      decreases |todo|
    {
      var k :| k in todo;
      RegistryMergeNext(mine, done, k, theirs[k]);
      if !(k in r && r[k].ts >= theirs[k].ts) {
        r := r[k := theirs[k]];
      }
      done, todo := done[k := theirs[k]], todo - {k};
    }
    PartIsWhole(done, theirs);
  }

  lemma RegistryMergeNothing(mine: Registry)
    ensures RegistryMerge(mine, map[]) == mine
  {
  }

  lemma RegistryMergeNext(mine: Registry, done: Registry, k: Name, v: Stamped)
    requires k !in done
    ensures var r := RegistryMerge(mine, done);
      RegistryMerge(mine, done[k := v]) == if k in r && r[k].ts >= v.ts then r else r[k := v]
  {
    var r, r' := RegistryMerge(mine, done), RegistryMerge(mine, done[k := v]);
    assert r'.Keys == r.Keys + {k};
    forall j | j in r' && j != k ensures r'[j] == r[j] { }
  }

  class CrdtWorldState {
    const nodeId: Name
    var clock: Counts
    const peers: PeerRegistry
    const known: GSet
    const status: LwwRegister<string>
    const ghostState: LwwRegister<string>
    const finance: GCounter
    const assets: ObservedRemoveSet<Name>

    ghost predicate Valid() { status != ghostState }

    /** In Rust no two states share a part. */
    ghost predicate Apart(other: CrdtWorldState) {
      && other != this && other.peers != peers && other.known != known
      && other.status != status && other.status != ghostState
      && other.ghostState != status && other.ghostState != ghostState
      && other.finance != finance && other.assets != assets
    }

    ghost function State(): World
      reads this, peers, known, status, ghostState, finance, assets
    {
      World(clock, peers.entries, known.items, status.State(), ghostState.State(), finance.counters, assets.State())
    }

    constructor (nodeId: Name, now: nat, now': nat)
      ensures Valid() && this.nodeId == nodeId
      ensures State() == World(map[nodeId := 0], map[], map[], Lww("initializing", now, nodeId),
                               Lww("init", now', nodeId), map[], OrSet(map[], {}))
    {
      this.nodeId := nodeId;
      this.clock := map[nodeId := 0];
      this.peers := new PeerRegistry();
      this.known := new GSet();
      this.status := new LwwRegister<string>("initializing", nodeId, now);
      this.ghostState := new LwwRegister<string>("init", nodeId, now');
      this.finance := new GCounter();
      this.assets := new ObservedRemoveSet<Name>();
    }

    method Tick()
      modifies this
      ensures clock == CounterRuns.Bump(old(clock), nodeId, 1)
    {
      clock := clock[nodeId := Count(clock, nodeId) + 1];
    }

    method Merge(other: CrdtWorldState)
      requires Valid() && other.Valid() && Apart(other)
      modifies this, peers, known, status, ghostState, finance, assets
      ensures State() == WorldMerge(old(State()), old(other.State()))
      ensures other.State() == old(other.State())
    {
      clock := RaiseAll(clock, other.clock);
      peers.Merge(other.peers);
      known.Merge(other.known);
      status.Merge(other.status);
      ghostState.Merge(other.ghostState);
      finance.Merge(other.finance);
      assets.Merge(other.assets);
    }

    /** The local update is a merge with a one-peer state, so the agreement of merge
        trees covers it as well. */
    method UpdatePeer(peerId: Name, role: string, connected: bool, trusted: bool, now: nat, now': nat)
      requires Valid()
      modifies this, peers, known
      ensures State() == old(State()).(
                clock := CounterRuns.Bump(old(clock), nodeId, 1),
                known := GSetMerge(old(known.items), map[peerId := now']),
                peers := RegistryMerge(old(peers.entries),
                           map[peerId := Stamped(PeerEntry(peerId, role, connected, trusted, 1.0, now), now)]))
    {
      Tick();
      known.Insert(peerId, now');
      peers.Upsert(PeerEntry(peerId, role, connected, trusted, 1.0, now), now);
    }
  }
}
