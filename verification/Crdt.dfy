/** The replicated data types of src/crdt_state.rs as values: what each `merge`
    computes, and why replicas that have merged the same states agree. */
module Crdt {
  import opened Lexicographic

  // ---------- values ----------

  datatype Lww<T> = Lww(value: T, ts: nat, node: Name)

  /** `b` was written later than `a`; equal times are decided by the node id. */
  predicate Newer<T>(a: Lww<T>, b: Lww<T>) { b.ts > a.ts || (b.ts == a.ts && Less(a.node, b.node)) }

  function LwwMerge<T>(a: Lww<T>, b: Lww<T>): Lww<T> { if Newer(a, b) then b else a }

  type Counts = map<Name, nat>

  function Count(m: Counts, k: Name): nat { if k in m then m[k] else 0 }

  function Max(a: nat, b: nat): nat { if a < b then b else a }

  function MaxMerge(a: Counts, b: Counts): Counts {
    map k | k in a.Keys + b.Keys :: Max(Count(a, k), Count(b, k))
  }

  /** Grow-only set with first-seen times; the receiver's time wins. */
  function GSetMerge(a: Counts, b: Counts): Counts { b + a }

  datatype PeerEntry = PeerEntry(peerId: Name, role: string, connected: bool, trusted: bool,
                                 reputation: real, lastSeen: nat)

  datatype Stamped = Stamped(entry: PeerEntry, ts: nat)

  type Registry = map<Name, Stamped>

  function RegistryMerge(a: Registry, b: Registry): Registry {
    map k | k in a.Keys + b.Keys :: if k in a && (k !in b || a[k].ts >= b[k].ts) then a[k] else b[k]
  }

  function TagsOf<T(==)>(m: map<T, set<nat>>, k: T): set<nat> { if k in m then m[k] else {} }

  datatype OrSet<T> = OrSet(entries: map<T, set<nat>>, removed: set<nat>)
  {
    function Tags(item: T): set<nat> { if item in entries then entries[item] else {} }

    /** The observable part: the tags of an item that have not been removed. */
    function Live(item: T): set<nat> { Tags(item) - removed }

    predicate Contains(item: T) { Live(item) != {} }
  }

  /** All the tags of both sides. */
  function AllTags<T(==)>(a: map<T, set<nat>>, b: map<T, set<nat>>): map<T, set<nat>> {
    map k | k in a.Keys + b.Keys :: TagsOf(a, k) + TagsOf(b, k)
  }

  /** Entries with a tag that is still live. */
  function Retain<T(==)>(m: map<T, set<nat>>, removed: set<nat>): map<T, set<nat>> {
    map k | k in m && m[k] - removed != {} :: m[k]
  }

  function OrMerge<T(==)>(a: OrSet<T>, b: OrSet<T>): OrSet<T> {
    var removed := a.removed + b.removed;
    OrSet(Retain(AllTags(a.entries, b.entries), removed), removed)
  }

  datatype World = World(clock: Counts, peers: Registry, known: Counts, status: Lww<string>,
                         ghostState: Lww<string>, finance: Counts, assets: OrSet<Name>)

  function WorldMerge(a: World, b: World): World {
    World(MaxMerge(a.clock, b.clock), RegistryMerge(a.peers, b.peers), GSetMerge(a.known, b.known),
          LwwMerge(a.status, b.status), LwwMerge(a.ghostState, b.ghostState),
          MaxMerge(a.finance, b.finance), OrMerge(a.assets, b.assets))
  }

  /** Of two registers the later written survives; of two written at one time, the one whose node
      id comes later in byte order; of two with the same stamp, the receiver's. */
  lemma MergeKeepsTheLater<T>(a: Lww<T>, b: Lww<T>)
    ensures a.ts < b.ts ==> LwwMerge(a, b) == b
    ensures a.ts > b.ts ==> LwwMerge(a, b) == a
    ensures a.ts == b.ts && ComesBefore(a.node, b.node) ==> LwwMerge(a, b) == b
    ensures a.ts == b.ts && !ComesBefore(a.node, b.node) ==> LwwMerge(a, b) == a
  {
    LessIsByteOrder(a.node, b.node);
  }

  // ---------- joins: what merging a set of states has to give ----------

  ghost predicate Below(m: Counts, v: Counts) { forall k :: k in m ==> k in v && m[k] <= v[k] }

  ghost predicate Attains(m: Counts, v: Counts, k: Name) { k in m && k in v && m[k] == v[k] }

  ghost predicate IsMaxJoin(S: set<Counts>, v: Counts) {
    && (forall m :: m in S ==> Below(m, v))
    && (forall k :: k in v ==> exists m :: m in S && Attains(m, v, k))
  }

  ghost predicate IsKeyUnion(S: set<Counts>, v: Counts) {
    forall k :: k in v <==> exists m :: m in S && k in m
  }

  ghost predicate IsRegistryJoin(S: set<Registry>, v: Registry) {
    && (forall m: Registry, k :: m in S && k in m ==> k in v && m[k].ts <= v[k].ts)
    && (forall k :: k in v ==> exists m :: m in S && k in m && m[k] == v[k])
  }

  ghost predicate IsLwwJoin<T(!new)>(S: set<Lww<T>>, v: Lww<T>) {
    v in S && forall m :: m in S ==> !Newer(v, m)
  }

  ghost predicate IsOrJoin<T(!new)>(S: set<OrSet<T>>, v: OrSet<T>) {
    && (forall t :: t in v.removed <==> exists s :: s in S && t in s.removed)
    && (forall item, t :: t in v.Live(item) <==> t !in v.removed && exists s :: s in S && t in s.Live(item))
  }

  lemma MaxMergeBounds(a: Counts, b: Counts)
    ensures Below(a, MaxMerge(a, b)) && Below(b, MaxMerge(a, b))
    ensures forall k :: k in MaxMerge(a, b) ==> Attains(a, MaxMerge(a, b), k) || Attains(b, MaxMerge(a, b), k)
  {
  }

  lemma MaxJoinMerge(A: set<Counts>, B: set<Counts>, v: Counts, w: Counts)
    requires IsMaxJoin(A, v) && IsMaxJoin(B, w)
    ensures IsMaxJoin(A + B, MaxMerge(v, w))
  {
    var r := MaxMerge(v, w);
    MaxMergeBounds(v, w);
    forall m | m in A + B ensures Below(m, r) {
      assert m in A ==> Below(m, v);
      assert m in B ==> Below(m, w);
    }
    forall k | k in r ensures exists m :: m in A + B && Attains(m, r, k) {
      if Attains(v, r, k) {
        var m :| m in A && Attains(m, v, k);
        assert m in A + B && Attains(m, r, k);
      } else {
        var m :| m in B && Attains(m, w, k);
        assert m in A + B && Attains(m, r, k);
      }
    }
  }

  lemma KeyUnionMerge(A: set<Counts>, B: set<Counts>, v: Counts, w: Counts)
    requires IsKeyUnion(A, v) && IsKeyUnion(B, w)
    ensures IsKeyUnion(A + B, GSetMerge(v, w))
  {
  }

  lemma RegistryJoinMerge(A: set<Registry>, B: set<Registry>, v: Registry, w: Registry)
    requires IsRegistryJoin(A, v) && IsRegistryJoin(B, w)
    ensures IsRegistryJoin(A + B, RegistryMerge(v, w))
  {
    var r := RegistryMerge(v, w);
    forall k | k in r ensures exists m :: m in A + B && k in m && m[k] == r[k] {
      if k in v && r[k] == v[k] {
        var m :| m in A && k in m && m[k] == v[k];
        assert m in A + B;
      } else {
        var m :| m in B && k in m && m[k] == w[k];
        assert m in A + B;
      }
    }
  }

  lemma NewerTransitive<T>(a: Lww<T>, b: Lww<T>, c: Lww<T>)
    requires !Newer(b, a) && Newer(b, c)
    ensures Newer(a, c)
  {
    LessTotal(a.node, b.node);
    if a.ts == b.ts == c.ts && Less(a.node, b.node) {
      LessTransitive(a.node, b.node, c.node);
    }
  }

  lemma LwwJoinMerge<T(!new)>(A: set<Lww<T>>, B: set<Lww<T>>, v: Lww<T>, w: Lww<T>)
    requires IsLwwJoin(A, v) && IsLwwJoin(B, w)
    ensures IsLwwJoin(A + B, LwwMerge(v, w))
  {
    LessTotal(v.node, w.node);
    forall m | m in A + B ensures !Newer(LwwMerge(v, w), m) {
      if Newer(v, w) && m in A && Newer(w, m) {
        NewerTransitive(v, w, m);
      }
      if !Newer(v, w) && m in B && Newer(v, m) {
        NewerTransitive(w, v, m);
      }
    }
  }

  lemma OrJoinMerge<T(!new)>(A: set<OrSet<T>>, B: set<OrSet<T>>, v: OrSet<T>, w: OrSet<T>)
    requires IsOrJoin(A, v) && IsOrJoin(B, w)
    ensures IsOrJoin(A + B, OrMerge(v, w))
  {
    var r := OrMerge(v, w);
    forall item ensures r.Live(item) == (v.Live(item) + w.Live(item)) - r.removed { OrMergeLive(v, w, item); }
    forall t ensures t in r.removed <==> exists s :: s in A + B && t in s.removed {
      if t in v.removed {
        var s :| s in A && t in s.removed;
        assert s in A + B;
      } else if t in w.removed {
        var s :| s in B && t in s.removed;
        assert s in A + B;
      }
    }
    forall item, t
      ensures t in r.Live(item) <==> t !in r.removed && exists s :: s in A + B && t in s.Live(item)
    {
      if t in v.Live(item) {
        var s :| s in A && t in s.Live(item);
        assert s in A + B;
      } else if t in w.Live(item) {
        var s :| s in B && t in s.Live(item);
        assert s in A + B;
      }
    }
  }

  /** Merging keeps the live tags of both sides, minus what either side removed. */
  lemma OrMergeLive<T>(a: OrSet<T>, b: OrSet<T>, item: T)
    ensures OrMerge(a, b).Live(item) == (a.Live(item) + b.Live(item)) - (a.removed + b.removed)
  {
  }

  // ---------- joins are unique ----------

  lemma MaxJoinBelow(S: set<Counts>, v: Counts, w: Counts, k: Name)
    requires IsMaxJoin(S, v) && IsMaxJoin(S, w) && k in v
    ensures k in w && v[k] <= w[k]
  {
    var m :| m in S && Attains(m, v, k);
    assert Below(m, w);
  }

  lemma MaxJoinUnique(S: set<Counts>, v: Counts, w: Counts)
    requires IsMaxJoin(S, v) && IsMaxJoin(S, w)
    ensures v == w
  {
    assert Below(v, w) by {
      forall k | k in v ensures k in w && v[k] <= w[k] { MaxJoinBelow(S, v, w, k); }
    }
    assert Below(w, v) by {
      forall k | k in w ensures k in v && w[k] <= v[k] { MaxJoinBelow(S, w, v, k); }
    }
    BelowBoth(v, w);
  }

  lemma BelowBoth(v: Counts, w: Counts)
    requires Below(v, w) && Below(w, v)
    ensures v == w
  {
  }

  lemma KeyUnionUnique(S: set<Counts>, v: Counts, w: Counts)
    requires IsKeyUnion(S, v) && IsKeyUnion(S, w)
    ensures v.Keys == w.Keys
  {
  }

  /** Two replicas that stamped a peer at the same time wrote the same entry. */
  ghost predicate RegistryCoherent(S: set<Registry>) {
    forall m: Registry, n: Registry, k :: m in S && n in S && k in m && k in n && m[k].ts == n[k].ts ==> m[k] == n[k]
  }

  /** `e` is a latest entry of peer k among these registries. */
  ghost predicate IsLatest(S: set<Registry>, k: Name, e: Stamped) {
    && (exists m: Registry :: m in S && k in m && m[k] == e)
    && (forall m: Registry :: m in S && k in m ==> m[k].ts <= e.ts)
  }

  ghost predicate OneLatest(S: set<Registry>, k: Name) {
    forall e, f :: IsLatest(S, k, e) && IsLatest(S, k, f) ==> e == f
  }

  lemma JoinIsLatest(S: set<Registry>, v: Registry, k: Name)
    requires IsRegistryJoin(S, v)
    ensures k in v <==> exists m: Registry :: m in S && k in m
    ensures k in v ==> IsLatest(S, k, v[k])
  {
  }

  /** One node does not write two values at one time. */
  ghost predicate LwwCoherent<T(!new)>(S: set<Lww<T>>) {
    forall m, n :: m in S && n in S && m.ts == n.ts && m.node == n.node ==> m == n
  }

  ghost predicate OneNewest<T(!new)>(S: set<Lww<T>>) {
    forall v, w :: IsLwwJoin(S, v) && IsLwwJoin(S, w) ==> v == w
  }

  lemma OrJoinUnique<T(!new)>(S: set<OrSet<T>>, v: OrSet<T>, w: OrSet<T>)
    requires IsOrJoin(S, v) && IsOrJoin(S, w)
    ensures v.removed == w.removed && forall item :: v.Live(item) == w.Live(item)
  {
    forall item ensures v.Live(item) == w.Live(item) {
      forall t ensures t in v.Live(item) <==> t in w.Live(item) {
        OrJoinLive(S, v, w, item, t);
        OrJoinLive(S, w, v, item, t);
      }
    }
  }

  lemma OrJoinLive<T(!new)>(S: set<OrSet<T>>, v: OrSet<T>, w: OrSet<T>, item: T, t: nat)
    requires IsOrJoin(S, v) && IsOrJoin(S, w)
    ensures t in v.removed <==> t in w.removed
    ensures t in v.Live(item) ==> t in w.Live(item)
  {
    if t in v.Live(item) {
      var s :| s in S && t in s.Live(item);
    }
  }

  // ---------- strong eventual consistency ----------

  /** Any way of merging: order, grouping and repetition are free. */
  datatype Tree = Leaf(state: World) | Node(left: Tree, right: Tree)
  {
    ghost function Leaves(): set<World> {
      match this
      case Leaf(s) => {s}
      case Node(l, r) => l.Leaves() + r.Leaves()
    }

    function Value(): World {
      match this
      case Leaf(s) => s
      case Node(l, r) => WorldMerge(l.Value(), r.Value())
    }
  }

  ghost function Clocks(S: set<World>): set<Counts> { set s | s in S :: s.clock }
  ghost function Finances(S: set<World>): set<Counts> { set s | s in S :: s.finance }
  ghost function Knowns(S: set<World>): set<Counts> { set s | s in S :: s.known }
  ghost function Registries(S: set<World>): set<Registry> { set s | s in S :: s.peers }
  ghost function Statuses(S: set<World>): set<Lww<string>> { set s | s in S :: s.status }
  ghost function GhostStates(S: set<World>): set<Lww<string>> { set s | s in S :: s.ghostState }
  ghost function Assets(S: set<World>): set<OrSet<Name>> { set s | s in S :: s.assets }

  ghost predicate IsWorldJoin(S: set<World>, v: World) {
    && IsMaxJoin(Clocks(S), v.clock)
    && IsMaxJoin(Finances(S), v.finance)
    && IsKeyUnion(Knowns(S), v.known)
    && IsRegistryJoin(Registries(S), v.peers)
    && IsLwwJoin(Statuses(S), v.status)
    && IsLwwJoin(GhostStates(S), v.ghostState)
    && IsOrJoin(Assets(S), v.assets)
  }

  lemma WorldJoinMerge(A: set<World>, B: set<World>, v: World, w: World)
    requires IsWorldJoin(A, v) && IsWorldJoin(B, w)
    ensures IsWorldJoin(A + B, WorldMerge(v, w))
  {
    assert Clocks(A + B) == Clocks(A) + Clocks(B);
    MaxJoinMerge(Clocks(A), Clocks(B), v.clock, w.clock);
    assert Finances(A + B) == Finances(A) + Finances(B);
    MaxJoinMerge(Finances(A), Finances(B), v.finance, w.finance);
    assert Knowns(A + B) == Knowns(A) + Knowns(B);
    KeyUnionMerge(Knowns(A), Knowns(B), v.known, w.known);
    assert Registries(A + B) == Registries(A) + Registries(B);
    RegistryJoinMerge(Registries(A), Registries(B), v.peers, w.peers);
    assert Statuses(A + B) == Statuses(A) + Statuses(B);
    LwwJoinMerge(Statuses(A), Statuses(B), v.status, w.status);
    assert GhostStates(A + B) == GhostStates(A) + GhostStates(B);
    LwwJoinMerge(GhostStates(A), GhostStates(B), v.ghostState, w.ghostState);
    assert Assets(A + B) == Assets(A) + Assets(B);
    OrJoinMerge(Assets(A), Assets(B), v.assets, w.assets);
  }

  lemma WorldJoinLeaf(s: World)
    ensures IsWorldJoin({s}, s)
  {
    assert Clocks({s}) == {s.clock} && Finances({s}) == {s.finance} && Knowns({s}) == {s.known};
    assert Registries({s}) == {s.peers} && Assets({s}) == {s.assets};
    assert Statuses({s}) == {s.status} && GhostStates({s}) == {s.ghostState};
    assert forall k :: k in s.clock ==> Attains(s.clock, s.clock, k);
    assert forall k :: k in s.finance ==> Attains(s.finance, s.finance, k);
    assert s.peers in Registries({s});
    LessTotal(s.status.node, s.status.node);
    LessTotal(s.ghostState.node, s.ghostState.node);
    assert s.assets in Assets({s});
  }

  lemma {:induction false} TreeIsJoin(t: Tree)
    ensures IsWorldJoin(t.Leaves(), t.Value())
  {
    match t
    case Leaf(s) => WorldJoinLeaf(s);
    case Node(l, r) =>
      TreeIsJoin(l);
      TreeIsJoin(r);
      WorldJoinMerge(l.Leaves(), r.Leaves(), l.Value(), r.Value());
  }

  /** Replicas that have merged the same set of states agree, whatever the order,
      grouping and repetition: on clock, counter, known and registered peers and asset set
      always, on a register when its newest value is unique among the states, on a peer's
      entry when its latest is. */
  lemma MergeTreesAgree(t: Tree, u: Tree)
    requires t.Leaves() == u.Leaves()
    ensures var S, v, w := t.Leaves(), t.Value(), u.Value();
      && v.clock == w.clock && v.finance == w.finance && v.known.Keys == w.known.Keys
      && v.assets.removed == w.assets.removed
      && (forall item :: v.assets.Live(item) == w.assets.Live(item))
      && (forall k :: k in v.peers <==> k in w.peers)
      && (forall k :: k in v.peers && OneLatest(Registries(S), k) ==> v.peers[k] == w.peers[k])
      && (OneNewest(Statuses(S)) ==> v.status == w.status)
      && (OneNewest(GhostStates(S)) ==> v.ghostState == w.ghostState)
  {
    var S, v, w := t.Leaves(), t.Value(), u.Value();
    TreeIsJoin(t);
    TreeIsJoin(u);
    MaxJoinUnique(Clocks(S), v.clock, w.clock);
    MaxJoinUnique(Finances(S), v.finance, w.finance);
    KeyUnionUnique(Knowns(S), v.known, w.known);
    OrJoinUnique(Assets(S), v.assets, w.assets);
    forall k ensures k in v.peers <==> k in w.peers {
      JoinIsLatest(Registries(S), v.peers, k);
      JoinIsLatest(Registries(S), w.peers, k);
    }
    forall k | k in v.peers && OneLatest(Registries(S), k) ensures v.peers[k] == w.peers[k] {
      JoinIsLatest(Registries(S), v.peers, k);
      JoinIsLatest(Registries(S), w.peers, k);
    }
  }

  /** Two replicas: without equal values at equal stamps the order shows. */
  lemma RegisterOrder<T(!new)>(a: Lww<T>, b: Lww<T>)
    ensures LwwMerge(a, b) == LwwMerge(b, a) <==> LwwCoherent({a, b})
  {
    LessTotal(a.node, b.node);
  }

  lemma RegistryOrder(a: Registry, b: Registry)
    ensures RegistryMerge(a, b) == RegistryMerge(b, a) <==> RegistryCoherent({a, b})
  {
    var v, w := RegistryMerge(a, b), RegistryMerge(b, a);
    if v == w {
      forall k | k in a && k in b && a[k].ts == b[k].ts ensures a[k] == b[k] {
        assert v[k] == a[k] && w[k] == b[k];
      }
    }
    if RegistryCoherent({a, b}) {
      assert v == w;
    }
  }

  lemma KnownPeersOrder(a: Counts, b: Counts)
    ensures GSetMerge(a, b) == GSetMerge(b, a) <==> forall k :: k in a && k in b ==> a[k] == b[k]
  {
  }
}
