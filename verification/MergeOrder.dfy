/** When the result of merging depends on the order: the exact conditions for the registers
    and the peer registry of src/crdt_state.rs. */
module MergeOrder {
  import opened Lexicographic
  import opened Crdt

  /** No state has a newer status, ghost state, or entry for peer k than `w`. */
  ghost predicate StatusHolds(S: set<World>, w: World) { forall s :: s in S ==> !Newer(w.status, s.status) }

  ghost predicate GhostStateHolds(S: set<World>, w: World) { forall s :: s in S ==> !Newer(w.ghostState, s.ghostState) }

  ghost predicate EntryHolds(S: set<World>, w: World, k: Name) {
    k in w.peers && forall s :: s in S && k in s.peers ==> s.peers[k].ts <= w.peers[k].ts
  }

  /** Merging into `w` keeps what no other state surpasses. */
  ghost predicate Keeps(S: set<World>, w: World, v: World) {
    && (StatusHolds(S, w) ==> v.status == w.status)
    && (GhostStateHolds(S, w) ==> v.ghostState == w.ghostState)
    && (forall k :: EntryHolds(S, w, k) ==> k in v.peers && v.peers[k] == w.peers[k])
    && (forall k :: k in w.known ==> k in v.known && v.known[k] == w.known[k])
  }

  lemma KeepsMore(S: set<World>, w: World, v: World, s: World)
    requires Keeps(S - {s}, w, v) && s in S
    ensures Keeps(S, w, WorldMerge(v, s))
  {
    assert StatusHolds(S, w) ==> StatusHolds(S - {s}, w);
    assert GhostStateHolds(S, w) ==> GhostStateHolds(S - {s}, w);
    forall k | EntryHolds(S, w, k)
      ensures k in WorldMerge(v, s).peers && WorldMerge(v, s).peers[k] == w.peers[k]
    {
      assert EntryHolds(S - {s}, w, k);
    }
  }

  /** The other states merged into `w` one by one. */
  lemma {:induction false} StartWith(S: set<World>, w: World) returns (t: Tree)
    requires w in S
    ensures t.Leaves() == S && Keeps(S, w, t.Value())
    decreases |S|
  {
    if S == {w} {
      t := Leaf(w);
    } else {
      var s :| s in S && s != w by { assert S - {w} != {}; }
      var rest := StartWith(S - {s}, w);
      t := Node(rest, Leaf(s));
      KeepsMore(S, w, rest.Value(), s);
    }
  }

  /** Over more than two states too: all ways of merging agree on the status exactly when
      its newest value among the states is unique. */
  lemma StatusAgreesExactly(S: set<World>)
    ensures (forall t: Tree, u: Tree :: t.Leaves() == S && u.Leaves() == S ==> t.Value().status == u.Value().status)
       <==> OneNewest(Statuses(S))
  {
    if OneNewest(Statuses(S)) {
      forall t: Tree, u: Tree | t.Leaves() == S && u.Leaves() == S ensures t.Value().status == u.Value().status {
        MergeTreesAgree(t, u);
      }
    } else {
      var v, w :| IsLwwJoin(Statuses(S), v) && IsLwwJoin(Statuses(S), w) && v != w;
      var t := StatusReached(S, v);
      var u := StatusReached(S, w);
      assert t.Value().status != u.Value().status;
    }
  }

  lemma StatusReached(S: set<World>, v: Lww<string>) returns (t: Tree)
    requires IsLwwJoin(Statuses(S), v)
    ensures t.Leaves() == S && t.Value().status == v
  {
    var s :| s in S && s.status == v;
    assert StatusHolds(S, s);
    t := StartWith(S, s);
  }

  lemma GhostStateAgreesExactly(S: set<World>)
    ensures (forall t: Tree, u: Tree :: t.Leaves() == S && u.Leaves() == S ==>
               t.Value().ghostState == u.Value().ghostState)
       <==> OneNewest(GhostStates(S))
  {
    if OneNewest(GhostStates(S)) {
      forall t: Tree, u: Tree | t.Leaves() == S && u.Leaves() == S
        ensures t.Value().ghostState == u.Value().ghostState
      {
        MergeTreesAgree(t, u);
      }
    } else {
      var v, w :| IsLwwJoin(GhostStates(S), v) && IsLwwJoin(GhostStates(S), w) && v != w;
      var t := GhostStateReached(S, v);
      var u := GhostStateReached(S, w);
      assert t.Value().ghostState != u.Value().ghostState;
    }
  }

  lemma GhostStateReached(S: set<World>, v: Lww<string>) returns (t: Tree)
    requires IsLwwJoin(GhostStates(S), v)
    ensures t.Leaves() == S && t.Value().ghostState == v
  {
    var s :| s in S && s.ghostState == v;
    assert GhostStateHolds(S, s);
    t := StartWith(S, s);
  }

  ghost predicate AgreeOn(v: World, w: World, k: Name) {
    (k in v.peers <==> k in w.peers) && (k in v.peers ==> v.peers[k] == w.peers[k])
  }

  /** Peer by peer the same for the registry: exactly when the peer's latest entry is unique. */
  lemma EntryAgreesExactly(S: set<World>, k: Name)
    ensures (forall t: Tree, u: Tree :: t.Leaves() == S && u.Leaves() == S ==> AgreeOn(t.Value(), u.Value(), k))
       <==> OneLatest(Registries(S), k)
  {
    if OneLatest(Registries(S), k) {
      forall t: Tree, u: Tree | t.Leaves() == S && u.Leaves() == S ensures AgreeOn(t.Value(), u.Value(), k) {
        MergeTreesAgree(t, u);
      }
    } else {
      var e, f :| IsLatest(Registries(S), k, e) && IsLatest(Registries(S), k, f) && e != f;
      var t := EntryReached(S, k, e);
      var u := EntryReached(S, k, f);
      assert !AgreeOn(t.Value(), u.Value(), k);
    }
  }

  lemma EntryReached(S: set<World>, k: Name, e: Stamped) returns (t: Tree)
    requires IsLatest(Registries(S), k, e)
    ensures t.Leaves() == S && k in t.Value().peers && t.Value().peers[k] == e
  {
    var m: Registry :| m in Registries(S) && k in m && m[k] == e;
    var s :| s in S && s.peers == m;
    forall r | r in S && k in r.peers ensures r.peers[k].ts <= s.peers[k].ts {
      assert r.peers in Registries(S);
    }
    assert EntryHolds(S, s, k);
    t := StartWith(S, s);
  }

  /** A known peer's first-seen time is one that some state has. */
  lemma {:induction false} KnownFromLeaf(t: Tree, k: Name)
    ensures k in t.Value().known <==> exists s :: s in t.Leaves() && k in s.known
    ensures k in t.Value().known ==> exists s :: s in t.Leaves() && k in s.known && s.known[k] == t.Value().known[k]
  {
    match t
    case Leaf(s) => assert s in t.Leaves();
    case Node(l, r) =>
      KnownFromLeaf(l, k);
      KnownFromLeaf(r, k);
      assert forall s :: s in t.Leaves() <==> s in l.Leaves() || s in r.Leaves();
  }

  ghost predicate OneTime(S: set<World>, k: Name) {
    forall r, s :: r in S && s in S && k in r.known && k in s.known ==> r.known[k] == s.known[k]
  }

  ghost predicate AgreeOnTime(v: World, w: World, k: Name) {
    (k in v.known <==> k in w.known) && (k in v.known ==> v.known[k] == w.known[k])
  }

  /** All ways of merging agree on when a peer was first seen exactly when all states that know
      the peer do. */
  lemma TimeAgreesExactly(S: set<World>, k: Name)
    ensures (forall t: Tree, u: Tree :: t.Leaves() == S && u.Leaves() == S ==> AgreeOnTime(t.Value(), u.Value(), k))
       <==> OneTime(S, k)
  {
    if OneTime(S, k) {
      forall t: Tree, u: Tree | t.Leaves() == S && u.Leaves() == S ensures AgreeOnTime(t.Value(), u.Value(), k) {
        KnownFromLeaf(t, k);
        KnownFromLeaf(u, k);
      }
    } else {
      var r, s :| r in S && s in S && k in r.known && k in s.known && r.known[k] != s.known[k];
      var t := StartWith(S, r);
      var u := StartWith(S, s);
      assert !AgreeOnTime(t.Value(), u.Value(), k);
    }
  }
}
