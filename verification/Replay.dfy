/** The replay guard of src/security_runtime.rs, `PolicyInner::check_common`.
    The clock is read twice in the source, so every call carries two readings. */
module Replay {
  import opened Basics

  const MAX_NONCES_PER_PEER := 1000
  const MAX_TRACKED_PEERS := 10000

  type Peer = string
  type Bucket = map<string, nat>
  type Seen = map<Peer, Bucket>

  datatype Verdict = Accepted | OutOfWindow | ReplayDetected

  datatype Call = Call(now: nat, later: nat, peer: Peer, ts: nat, nonce: string)

  function AbsDiff(a: nat, b: nat): nat { if a < b then b - a else a - b }

  function Prune(bucket: Bucket, now: nat, window: nat): Bucket {
    map n | n in bucket && AbsDiff(now, bucket[n]) <= window :: bucket[n]
  }

  /** The cleanup of all peers, done when too many are tracked. */
  function PruneAll(seen: Seen, now: nat, window: nat): Seen {
    map p | p in seen && Prune(seen[p], now, window) != map[] :: Prune(seen[p], now, window)
  }

  function BucketOf(seen: Seen, peer: Peer): Bucket { if peer in seen then seen[peer] else map[] }

  function Check(window: nat, seen: Seen, c: Call): (Seen, Verdict) {
    if AbsDiff(c.now, c.ts) > window then (seen, OutOfWindow)
    else
      var tidy := if |seen| > MAX_TRACKED_PEERS then PruneAll(seen, c.later, window) else seen;
      var bucket := Prune(BucketOf(tidy, c.peer), c.later, window);
      if c.nonce in bucket || |bucket| >= MAX_NONCES_PER_PEER then (tidy[c.peer := bucket], ReplayDetected)
      else (tidy[c.peer := bucket[c.nonce := c.later]], Accepted)
  }

  class ReplayGuard {
    const window: nat
    var seen: Seen

    constructor (window: nat)
      ensures this.window == window && seen == map[]
    {
      this.window, seen := window, map[];
    }

    method CheckCommon(c: Call) returns (v: Verdict)
      modifies this
      ensures (seen, v) == Check(window, old(seen), c)
    {
      if AbsDiff(c.now, c.ts) > window {
        return OutOfWindow;
      }
      if |seen| > MAX_TRACKED_PEERS {
        seen := PruneAll(seen, c.later, window);
      }
      var bucket := if c.peer in seen then seen[c.peer] else map[];
      bucket := Prune(bucket, c.later, window);
      ghost var tidy := seen;
      seen := seen[c.peer := bucket];
      if c.nonce in bucket {
        return ReplayDetected;
      }
      if |bucket| >= MAX_NONCES_PER_PEER {
        return ReplayDetected;
      }
      seen := seen[c.peer := bucket[c.nonce := c.later]];
      assert seen == tidy[c.peer := bucket[c.nonce := c.later]];
      v := Accepted;
    }
  }

  // ---------- the reference: the full history of acceptances ----------

  datatype Event = Event(peer: Peer, nonce: string, time: nat)

  ghost predicate Recent(e: Event, peer: Peer, now: nat, window: nat) {
    e.peer == peer && e.time <= now && now - e.time <= window
  }

  ghost predicate AcceptedRecently(history: seq<Event>, peer: Peer, nonce: string, now: nat, window: nat) {
    exists i :: 0 <= i < |history| && Recent(history[i], peer, now, window) && history[i].nonce == nonce
  }

  ghost function RecentCount(history: seq<Event>, peer: Peer, now: nat, window: nat): nat {
    if history == [] then 0
    else
      RecentCount(history[..|history| - 1], peer, now, window)
      + if Recent(history[|history| - 1], peer, now, window) then 1 else 0
  }

  ghost function Reference(window: nat, history: seq<Event>, c: Call): Verdict {
    if AbsDiff(c.now, c.ts) > window then OutOfWindow
    else if AcceptedRecently(history, c.peer, c.nonce, c.later, window)
         || RecentCount(history, c.peer, c.later, window) >= MAX_NONCES_PER_PEER then ReplayDetected
    else Accepted
  }

  // ---------- runs ----------

  function Run(window: nat, calls: seq<Call>): Seen {
    if calls == [] then map[] else Check(window, Run(window, calls[..|calls| - 1]), calls[|calls| - 1]).0
  }

  function VerdictAt(window: nat, calls: seq<Call>, i: nat): Verdict
    requires i < |calls|
  {
    Check(window, Run(window, calls[..i]), calls[i]).1
  }

  ghost function History(window: nat, calls: seq<Call>): seq<Event> {
    if calls == [] then []
    else
      var h := History(window, calls[..|calls| - 1]);
      var c := calls[|calls| - 1];
      if VerdictAt(window, calls, |calls| - 1) == Accepted then h + [Event(c.peer, c.nonce, c.later)] else h
  }

  /** The clock never runs backwards, within a call and from one to the next. */
  ghost predicate Timely(calls: seq<Call>) {
    && (forall i :: 0 <= i < |calls| ==> calls[i].now <= calls[i].later)
    && (forall i, j :: 0 <= i < j < |calls| ==> calls[i].later <= calls[j].now)
  }

  // ---------- the pruned map represents the history ----------

  ghost predicate Knows(bucket: Bucket, nonce: string, now: nat, window: nat) {
    nonce in bucket && AbsDiff(now, bucket[nonce]) <= window
  }

  /** At every time from `clock` on, bucket and history agree about a peer. */
  ghost predicate RepresentsAt(bucket: Bucket, history: seq<Event>, peer: Peer, now: nat, window: nat) {
    && (forall n :: Knows(bucket, n, now, window) <==> AcceptedRecently(history, peer, n, now, window))
    && |Prune(bucket, now, window)| == RecentCount(history, peer, now, window)
  }

  ghost predicate Dated(bucket: Bucket, clock: nat) { forall n :: n in bucket ==> bucket[n] <= clock }

  ghost predicate Represents(seen: Seen, history: seq<Event>, clock: nat, window: nat) {
    && (forall p :: Dated(BucketOf(seen, p), clock))
    && (forall p, now: nat :: now >= clock ==> RepresentsAt(BucketOf(seen, p), history, p, now, window))
  }

  lemma PruneLater(bucket: Bucket, clock: nat, now: nat, window: nat)
    requires Dated(bucket, clock) && clock <= now
    ensures Prune(Prune(bucket, clock, window), now, window) == Prune(bucket, now, window)
    ensures Dated(Prune(bucket, clock, window), clock)
    ensures forall n :: Knows(Prune(bucket, clock, window), n, now, window) <==> Knows(bucket, n, now, window)
  {
  }

  /** Pruning at `clock` is invisible from `clock` on. */
  lemma PruneRepresents(bucket: Bucket, history: seq<Event>, peer: Peer, clock: nat, now: nat, window: nat)
    requires Dated(bucket, clock) && clock <= now
    requires RepresentsAt(bucket, history, peer, now, window)
    ensures RepresentsAt(Prune(bucket, clock, window), history, peer, now, window)
  {
    PruneLater(bucket, clock, now, window);
  }

  lemma RecentSnoc(history: seq<Event>, e: Event, peer: Peer, nonce: string, now: nat, window: nat)
    ensures RecentCount(history + [e], peer, now, window)
         == RecentCount(history, peer, now, window) + if Recent(e, peer, now, window) then 1 else 0
    ensures AcceptedRecently(history + [e], peer, nonce, now, window)
        <==> AcceptedRecently(history, peer, nonce, now, window) || (Recent(e, peer, now, window) && e.nonce == nonce)
  {
  }

  lemma PruneInsert(bucket: Bucket, nonce: string, clock: nat, now: nat, window: nat)
    requires !Knows(bucket, nonce, clock, window) && Dated(bucket, clock) && clock <= now
    ensures |Prune(Prune(bucket, clock, window)[nonce := clock], now, window)|
         == |Prune(bucket, now, window)| + if now - clock <= window then 1 else 0
  {
    var small := Prune(bucket, clock, window);
    PruneLater(bucket, clock, now, window);
    var after := Prune(small[nonce := clock], now, window);
    assert nonce !in small;
    if now - clock <= window {
      assert after == Prune(small, now, window)[nonce := clock];
    } else {
      assert after == Prune(small, now, window);
    }
  }

  lemma AcceptRepresents(bucket: Bucket, history: seq<Event>, peer: Peer, nonce: string,
                         clock: nat, now: nat, window: nat)
    requires !Knows(bucket, nonce, clock, window) && Dated(bucket, clock) && clock <= now
    requires RepresentsAt(bucket, history, peer, now, window)
    ensures RepresentsAt(Prune(bucket, clock, window)[nonce := clock], history + [Event(peer, nonce, clock)],
                         peer, now, window)
  {
    var e := Event(peer, nonce, clock);
    var bucket' := Prune(bucket, clock, window)[nonce := clock];
    PruneLater(bucket, clock, now, window);
    PruneInsert(bucket, nonce, clock, now, window);
    RecentSnoc(history, e, peer, nonce, now, window);
    forall n ensures Knows(bucket', n, now, window) <==> AcceptedRecently(history + [e], peer, n, now, window) {
      RecentSnoc(history, e, peer, n, now, window);
      assert n != nonce ==> (Knows(bucket', n, now, window) <==> Knows(Prune(bucket, clock, window), n, now, window));
    }
  }

  lemma OtherPeerRepresents(bucket: Bucket, history: seq<Event>, peer: Peer, e: Event, now: nat, window: nat)
    requires e.peer != peer && RepresentsAt(bucket, history, peer, now, window)
    ensures RepresentsAt(bucket, history + [e], peer, now, window)
  {
    RecentSnoc(history, e, peer, "", now, window);
    forall n ensures Knows(bucket, n, now, window) <==> AcceptedRecently(history + [e], peer, n, now, window) {
      RecentSnoc(history, e, peer, n, now, window);
    }
  }

  lemma TidyRepresents(seen: Seen, history: seq<Event>, clock: nat, window: nat)
    requires Represents(seen, history, clock, window)
    ensures Represents(PruneAll(seen, clock, window), history, clock, window)
  {
    var tidy := PruneAll(seen, clock, window);
    forall p ensures BucketOf(tidy, p) == Prune(BucketOf(seen, p), clock, window) { }
    forall p, now: nat | now >= clock ensures RepresentsAt(BucketOf(tidy, p), history, p, now, window) {
      PruneRepresents(BucketOf(seen, p), history, p, clock, now, window);
    }
  }

  lemma LaterRepresents(seen: Seen, history: seq<Event>, clock: nat, later: nat, window: nat)
    requires Represents(seen, history, clock, window) && clock <= later
    ensures Represents(seen, history, later, window)
  {
  }

  /** One call: the answer is the reference's, and the map goes on representing the history. */
  lemma StepAgrees(window: nat, seen: Seen, history: seq<Event>, clock: nat, c: Call)
    requires Represents(seen, history, clock, window) && clock <= c.later
    ensures Check(window, seen, c).1 == Reference(window, history, c)
    ensures Represents(Check(window, seen, c).0,
              if Check(window, seen, c).1 == Accepted then history + [Event(c.peer, c.nonce, c.later)] else history,
              c.later, window)
  {
    LaterRepresents(seen, history, clock, c.later, window);
    if AbsDiff(c.now, c.ts) <= window {
      if |seen| > MAX_TRACKED_PEERS {
        TidyRepresents(seen, history, c.later, window);
        StepTidy(window, PruneAll(seen, c.later, window), history, c);
      } else {
        StepTidy(window, seen, history, c);
      }
    }
  }

  lemma StepTidy(window: nat, tidy: Seen, history: seq<Event>, c: Call)
    requires Represents(tidy, history, c.later, window)
    ensures var bucket := Prune(BucketOf(tidy, c.peer), c.later, window);
      var refused := c.nonce in bucket || |bucket| >= MAX_NONCES_PER_PEER;
      && (refused <==> AcceptedRecently(history, c.peer, c.nonce, c.later, window)
                       || RecentCount(history, c.peer, c.later, window) >= MAX_NONCES_PER_PEER)
      && (refused ==> Represents(tidy[c.peer := bucket], history, c.later, window))
      && (!refused ==> Represents(tidy[c.peer := bucket[c.nonce := c.later]],
                                  history + [Event(c.peer, c.nonce, c.later)], c.later, window))
  {
    var old', clock, e := BucketOf(tidy, c.peer), c.later, Event(c.peer, c.nonce, c.later);
    var bucket := Prune(old', clock, window);
    assert Dated(old', clock) && RepresentsAt(old', history, c.peer, clock, window);
    assert c.nonce in bucket <==> Knows(old', c.nonce, clock, window);
    if c.nonce in bucket || |bucket| >= MAX_NONCES_PER_PEER {
      var after := tidy[c.peer := bucket];
      forall p, now: nat | now >= clock ensures RepresentsAt(BucketOf(after, p), history, p, now, window) {
        if p == c.peer { PruneRepresents(old', history, p, clock, now, window); }
        else { assert BucketOf(after, p) == BucketOf(tidy, p); }
      }
      forall p ensures Dated(BucketOf(after, p), clock) { assert Dated(BucketOf(tidy, p), clock); }
    } else {
      var after := tidy[c.peer := bucket[c.nonce := clock]];
      forall p, now: nat | now >= clock ensures RepresentsAt(BucketOf(after, p), history + [e], p, now, window) {
        if p == c.peer { AcceptRepresents(old', history, p, c.nonce, clock, now, window); }
        else {
          assert BucketOf(after, p) == BucketOf(tidy, p);
          OtherPeerRepresents(BucketOf(tidy, p), history, p, e, now, window);
        }
      }
      forall p ensures Dated(BucketOf(after, p), clock) { assert Dated(BucketOf(tidy, p), clock); }
    }
  }

  lemma {:induction false} RunRepresents(window: nat, calls: seq<Call>)
    requires Timely(calls)
    ensures Represents(Run(window, calls), History(window, calls),
                       if calls == [] then 0 else calls[|calls| - 1].later, window)
  {
    if calls == [] {
      forall p, now: nat ensures RepresentsAt(BucketOf(map[], p), [], p, now, window) {
        assert Prune(map[], now, window) == map[];
      }
    } else {
      var n := |calls| - 1;
      RunRepresents(window, calls[..n]);
      StepAgrees(window, Run(window, calls[..n]), History(window, calls[..n]),
                 if n == 0 then 0 else calls[n - 1].later, calls[n]);
    }
  }

  /** Every answer is the one the complete history of acceptances would give. */
  lemma SameAnswerAsHistory(window: nat, calls: seq<Call>, i: nat)
    requires Timely(calls) && i < |calls|
    ensures VerdictAt(window, calls, i) == Reference(window, History(window, calls[..i]), calls[i])
  {
    RunRepresents(window, calls[..i]);
    StepAgrees(window, Run(window, calls[..i]), History(window, calls[..i]),
               if i == 0 then 0 else calls[i - 1].later, calls[i]);
  }

  lemma {:induction false} AcceptanceIsRecorded(window: nat, calls: seq<Call>, i: nat)
    requires i < |calls| && VerdictAt(window, calls, i) == Accepted
    ensures Event(calls[i].peer, calls[i].nonce, calls[i].later) in History(window, calls)
  {
    var n := |calls| - 1;
    if i < n {
      assert calls[..n][..i] == calls[..i];
      AcceptanceIsRecorded(window, calls[..n], i);
    } else {
      assert calls[..n] == calls[..i];
    }
  }

  lemma {:induction false} EventIsAcceptance(window: nat, calls: seq<Call>, e: Event) returns (k: nat)
    requires e in History(window, calls)
    ensures k < |calls| && VerdictAt(window, calls, k) == Accepted
    ensures e == Event(calls[k].peer, calls[k].nonce, calls[k].later)
  {
    var n := |calls| - 1;
    if e in History(window, calls[..n]) {
      k := EventIsAcceptance(window, calls[..n], e);
      assert calls[..n][..k] == calls[..k];
    } else {
      k := n;
    }
  }

  ghost predicate SameMessage(calls: seq<Call>, i: nat, j: nat)
    requires i < |calls| && j < |calls|
  {
    calls[i].peer == calls[j].peer && calls[i].nonce == calls[j].nonce
  }

  /** Call i is the last acceptance of call j's peer and nonce before call j. */
  ghost predicate LastAccepted(window: nat, calls: seq<Call>, i: nat, j: nat)
    requires i < j < |calls|
  {
    SameMessage(calls, i, j) && VerdictAt(window, calls, i) == Accepted
    && forall k :: i < k < j && SameMessage(calls, k, j) ==> VerdictAt(window, calls, k) != Accepted
  }

  /** Every event of that peer and nonce is at least as old as the last acceptance. */
  lemma NoLaterEvent(window: nat, calls: seq<Call>, i: nat, j: nat, e: Event)
    requires Timely(calls) && i < j < |calls| && LastAccepted(window, calls, i, j)
    requires e in History(window, calls[..j]) && e.peer == calls[j].peer && e.nonce == calls[j].nonce
    ensures e.time <= calls[i].later
  {
    var k := EventIsAcceptance(window, calls[..j], e);
    assert calls[..j][..k] == calls[..k] && calls[..j][k] == calls[k];
    assert SameMessage(calls, k, j);
  }

  /** When a message is accepted again, whatever date it carries: exactly when that date is in
      its window at the first clock reading, the last acceptance has left its window at the
      second, and the peer is below its capacity. */
  lemma AcceptedAgainExactly(window: nat, calls: seq<Call>, i: nat, j: nat)
    requires Timely(calls) && i < j < |calls| && LastAccepted(window, calls, i, j)
    ensures VerdictAt(window, calls, j) == Accepted <==>
      && AbsDiff(calls[j].now, calls[j].ts) <= window
      && calls[i].later + window < calls[j].later
      && RecentCount(History(window, calls[..j]), calls[j].peer, calls[j].later, window) < MAX_NONCES_PER_PEER
  {
    SameAnswerAsHistory(window, calls, j);
    var h, c := History(window, calls[..j]), calls[j];
    assert calls[..j][..i] == calls[..i];
    AcceptanceIsRecorded(window, calls[..j], i);
    var k :| 0 <= k < |h| && h[k] == Event(c.peer, c.nonce, calls[i].later);
    if calls[i].later + window < c.later {
      forall m | 0 <= m < |h| && h[m].nonce == c.nonce ensures !Recent(h[m], c.peer, c.later, window) {
        if h[m].peer == c.peer { NoLaterEvent(window, calls, i, j, h[m]); }
      }
    } else {
      assert Recent(h[k], c.peer, c.later, window);
    }
  }

  lemma FindLastAccepted(window: nat, calls: seq<Call>, i: nat, j: nat) returns (m: nat)
    requires i < j < |calls| && SameMessage(calls, i, j) && VerdictAt(window, calls, i) == Accepted
    ensures i <= m < j && LastAccepted(window, calls, m, j)
  {
    var accepted := (k: nat) => k < j && SameMessage(calls, k, j) && VerdictAt(window, calls, k) == Accepted;
    m := LastBefore(accepted, i, j);
    forall k | m < k < j && SameMessage(calls, k, j) ensures VerdictAt(window, calls, k) != Accepted {
      assert !accepted(k);
    }
  }

  /** A message dated no later than an earlier acceptance is accepted again only if the two
      clock readings of that call fall on different sides of the end of its window. */
  lemma AcceptedTwiceOnlyAcrossTheEdge(window: nat, calls: seq<Call>, i: nat, j: nat)
    requires Timely(calls) && i < j < |calls| && SameMessage(calls, i, j) && calls[j].ts <= calls[i].later
    requires VerdictAt(window, calls, i) == Accepted && VerdictAt(window, calls, j) == Accepted
    ensures calls[j].now <= calls[j].ts + window && calls[i].later + window < calls[j].later
  {
    var m := FindLastAccepted(window, calls, i, j);
    AcceptedAgainExactly(window, calls, m, j);
  }

  /** With one reading per call no such message is accepted twice. */
  lemma NeverAcceptedTwice(window: nat, calls: seq<Call>, i: nat, j: nat)
    requires Timely(calls) && i < j < |calls| && calls[j].now == calls[j].later
    requires SameMessage(calls, i, j) && calls[j].ts <= calls[i].later
    ensures !(VerdictAt(window, calls, i) == Accepted && VerdictAt(window, calls, j) == Accepted)
  {
    if VerdictAt(window, calls, i) == Accepted && VerdictAt(window, calls, j) == Accepted {
      AcceptedTwiceOnlyAcrossTheEdge(window, calls, i, j);
    }
  }

  /** The edge is real: here the second call's readings differ by one second. */
  lemma ReadingsCanStraddle(peer: Peer, nonce: string)
    ensures var calls := [Call(1000, 1000, peer, 1000, nonce), Call(1300, 1301, peer, 1000, nonce)];
      Timely(calls) && VerdictAt(300, calls, 0) == Accepted && VerdictAt(300, calls, 1) == Accepted
  {
    var a, b := Call(1000, 1000, peer, 1000, nonce), Call(1300, 1301, peer, 1000, nonce);
    var calls := [a, b];
    assert calls[..0] == [] && calls[..1] == [a] && [a][..0] == [];
    assert Run(300, calls[..0]) == map[];
    assert Prune(map[], 1000, 300) == map[];
    assert Run(300, [a]) == map[peer := map[nonce := 1000]];
    assert Prune(map[nonce := 1000], 1301, 300) == map[];
  }
}
