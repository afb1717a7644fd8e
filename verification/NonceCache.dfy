/** The bounded nonce cache of src/security_runtime.rs, `NonceCache::record`.  The clock is an
    input, read in nanoseconds.  Among equally old entries the one to evict depends on the iteration order of the
    hash map, so the evicted nonce is an input as well. */
module NonceCaching {
  import opened Basics

  const NONCE_TTL_NANOS := 900_000_000_000
  const MAX_CACHE_SIZE := 10_000

  type Nonce = seq<nat>

  type Cache = map<Nonce, nat>

  function Fresh(seen: Cache, now: nat): Cache {
    map n | n in seen && now - seen[n] < NONCE_TTL_NANOS :: seen[n]
  }

  ghost predicate Oldest(seen: Cache, victim: Nonce) {
    victim in seen && forall n :: n in seen ==> seen[victim] <= seen[n]
  }

  /** What is left after making room. */
  function Room(kept: Cache, victim: Nonce): Cache {
    if |kept| >= MAX_CACHE_SIZE then kept - {victim} else kept
  }

  function Recorded(seen: Cache, nonce: Nonce, now: nat, victim: Nonce): (Cache, bool) {
    var kept := Fresh(seen, now);
    if nonce in kept then (kept, false) else (Room(kept, victim)[nonce := now], true)
  }

  ghost predicate FairVictim(seen: Cache, nonce: Nonce, now: nat, victim: Nonce) {
    nonce !in Fresh(seen, now) && |Fresh(seen, now)| >= MAX_CACHE_SIZE ==> Oldest(Fresh(seen, now), victim)
  }

  class NonceCache {
    var seen: Cache

    constructor ()
      ensures seen == map[]
    {
      seen := map[];
    }

    method Record(nonce: Nonce, now: nat) returns (ok: bool, ghost victim: Nonce)
      modifies this
      ensures FairVictim(old(seen), nonce, now, victim)
      ensures (seen, ok) == Recorded(old(seen), nonce, now, victim)
    {
      seen := Fresh(seen, now);
      victim := nonce;
      if nonce in seen {
        return false, victim;
      }
      if |seen| >= MAX_CACHE_SIZE {
        var oldest := FindOldest(seen);
        victim := oldest;
        seen := seen - {oldest};
      }
      seen := seen[nonce := now];
      ok := true;
    }
  }

  method FindOldest(seen: Cache) returns (oldest: Nonce)
    requires seen != map[]
    ensures Oldest(seen, oldest)
  {
    oldest :| oldest in seen;
    var todo := seen.Keys;
    while todo != {}
      invariant todo <= seen.Keys && oldest in seen
      invariant forall n :: n in seen.Keys - todo ==> seen[oldest] <= seen[n]
      decreases |todo|
    {
      var n :| n in todo;
      if seen[n] < seen[oldest] {
        oldest := n;
      }
      todo := todo - {n};
    }
  }

  // ---------- runs ----------

  datatype Call = Call(nonce: Nonce, now: nat, victim: Nonce)

  datatype Acceptance = Acceptance(nonce: Nonce, at: nat)

  function Run(calls: seq<Call>): Cache {
    if calls == [] then map[]
    else
      var c := calls[|calls| - 1];
      Recorded(Run(calls[..|calls| - 1]), c.nonce, c.now, c.victim).0
  }

  function Answer(calls: seq<Call>, nonce: Nonce, now: nat, victim: Nonce): bool {
    Recorded(Run(calls), nonce, now, victim).1
  }

  /** Every acceptance, nothing forgotten. */
  function Accepted(calls: seq<Call>): seq<Acceptance> {
    if calls == [] then []
    else
      var front, c := calls[..|calls| - 1], calls[|calls| - 1];
      Accepted(front) + if Answer(front, c.nonce, c.now, c.victim) then [Acceptance(c.nonce, c.now)] else []
  }

  function Clock(calls: seq<Call>): nat { if calls == [] then 0 else calls[|calls| - 1].now }

  /** The clock never goes back and only an oldest entry is evicted. */
  ghost predicate Lawful(calls: seq<Call>) {
    calls == [] ||
    var front, c := calls[..|calls| - 1], calls[|calls| - 1];
    Lawful(front) && Clock(front) <= c.now && FairVictim(Run(front), c.nonce, c.now, c.victim)
  }

  /** The number of acceptances at time t or later. */
  function Since(history: seq<Acceptance>, t: nat): nat {
    if history == [] then 0
    else Since(history[..|history| - 1], t) + if history[|history| - 1].at >= t then 1 else 0
  }

  lemma SinceSnoc(history: seq<Acceptance>, a: Acceptance, t: nat)
    ensures Since(history + [a], t) == Since(history, t) + if a.at >= t then 1 else 0
  {
  }

  ghost predicate Backed(seen: Cache, history: seq<Acceptance>) {
    forall n :: n in seen ==> Acceptance(n, seen[n]) in history
  }

  /** Distinct cached nonces are distinct acceptances. */
  lemma {:induction false} CacheIsCounted(seen: Cache, history: seq<Acceptance>, t: nat)
    requires Backed(seen, history) && forall n :: n in seen ==> seen[n] >= t
    ensures |seen| <= Since(history, t)
    decreases |history|
  {
    if history == [] {
      assert seen.Keys == {};
    } else {
      var front, last := history[..|history| - 1], history[|history| - 1];
      assert history == front + [last];
      if last.nonce in seen && seen[last.nonce] == last.at {
        var rest := seen - {last.nonce};
        assert |rest| == |seen| - 1 by { assert rest.Keys == seen.Keys - {last.nonce}; }
        CacheIsCounted(rest, front, t);
      } else {
        CacheIsCounted(seen, front, t);
      }
    }
  }

  /** An acceptance that is still fresh is cached, with this or a later time, or more than
      MAX_CACHE_SIZE acceptances are as recent. */
  ghost predicate Remembered(seen: Cache, history: seq<Acceptance>, clock: nat, a: Acceptance) {
    clock - a.at < NONCE_TTL_NANOS ==>
      (a.nonce in seen && seen[a.nonce] >= a.at) || Since(history, a.at) > MAX_CACHE_SIZE
  }

  ghost predicate Sound(seen: Cache, history: seq<Acceptance>, clock: nat) {
    && |seen| <= MAX_CACHE_SIZE
    && Backed(seen, history)
    && (forall a :: a in history ==> a.at <= clock && Remembered(seen, history, clock, a))
  }

  lemma FreshSound(seen: Cache, history: seq<Acceptance>, clock: nat, now: nat)
    requires Sound(seen, history, clock) && clock <= now
    ensures Sound(Fresh(seen, now), history, now)
  {
    var kept := Fresh(seen, now);
    SubsetSize(kept.Keys, seen.Keys);
    forall a | a in history ensures a.at <= now && Remembered(kept, history, now, a) {
      assert Remembered(seen, history, clock, a);
    }
  }

  lemma RoomSize(kept: Cache, victim: Nonce)
    requires |kept| <= MAX_CACHE_SIZE && (|kept| >= MAX_CACHE_SIZE ==> victim in kept)
    ensures |Room(kept, victim)| < MAX_CACHE_SIZE
  {
  }

  /** An entry is evicted only when, with the new one, too many are as recent. */
  lemma EvictedIsOld(kept: Cache, history: seq<Acceptance>, now: nat, victim: Nonce, a: Acceptance)
    requires Sound(kept, history, now) && a in history
    requires |kept| >= MAX_CACHE_SIZE ==> Oldest(kept, victim)
    ensures now - a.at < NONCE_TTL_NANOS ==>
      (a.nonce in Room(kept, victim) && Room(kept, victim)[a.nonce] >= a.at) || Since(history, a.at) >= MAX_CACHE_SIZE
  {
    assert Remembered(kept, history, now, a);
    if |kept| >= MAX_CACHE_SIZE {
      CacheIsCounted(kept, history, kept[victim]);
      if a.at <= kept[victim] { SinceEarlier(history, a.at, kept[victim]); }
    }
  }

  lemma InsertBacked(kept: Cache, history: seq<Acceptance>, nonce: Nonce, now: nat, victim: Nonce)
    requires Backed(kept, history)
    ensures Backed(Room(kept, victim)[nonce := now], history + [Acceptance(nonce, now)])
  {
  }

  lemma InsertRemembers(kept: Cache, history: seq<Acceptance>, nonce: Nonce, now: nat, victim: Nonce, a: Acceptance)
    requires Sound(kept, history, now) && a in history
    requires |kept| >= MAX_CACHE_SIZE ==> Oldest(kept, victim)
    ensures a.at <= now
    ensures Remembered(Room(kept, victim)[nonce := now], history + [Acceptance(nonce, now)], now, a)
  {
    EvictedIsOld(kept, history, now, victim, a);
    SinceSnoc(history, Acceptance(nonce, now), a.at);
  }

  lemma InsertSound(kept: Cache, history: seq<Acceptance>, nonce: Nonce, now: nat, victim: Nonce)
    requires Sound(kept, history, now) && nonce !in kept
    requires |kept| >= MAX_CACHE_SIZE ==> Oldest(kept, victim)
    ensures Sound(Room(kept, victim)[nonce := now], history + [Acceptance(nonce, now)], now)
  {
    var room, latest := Room(kept, victim), Acceptance(nonce, now);
    var seen, history' := room[nonce := now], history + [latest];
    RoomSize(kept, victim);
    InsertBacked(kept, history, nonce, now, victim);
    assert |seen| <= MAX_CACHE_SIZE by { assert seen.Keys == room.Keys + {nonce}; }
    forall a | a in history' ensures a.at <= now && Remembered(seen, history', now, a) {
      if a != latest {
        InsertRemembers(kept, history, nonce, now, victim, a);
      }
    }
  }

  lemma {:induction false} SinceEarlier(history: seq<Acceptance>, s: nat, t: nat)
    requires s <= t
    ensures Since(history, t) <= Since(history, s)
  {
    if history != [] { SinceEarlier(history[..|history| - 1], s, t); }
  }

  lemma {:induction false} RunSound(calls: seq<Call>)
    requires Lawful(calls)
    ensures Sound(Run(calls), Accepted(calls), Clock(calls))
  {
    if calls != [] {
      var front, c := calls[..|calls| - 1], calls[|calls| - 1];
      RunSound(front);
      FreshSound(Run(front), Accepted(front), Clock(front), c.now);
      var kept := Fresh(Run(front), c.now);
      if c.nonce in kept {
        assert Accepted(calls) == Accepted(front);
      } else {
        InsertSound(kept, Accepted(front), c.nonce, c.now, c.victim);
      }
    }
  }

  // ---------- nothing later is evicted before ----------

  /** Every acceptance later than t is cached, under its own time, and no nonce is among them
      twice. */
  ghost predicate AllLater(seen: Cache, history: seq<Acceptance>, t: nat) {
    && (forall a :: a in history && a.at > t ==> a.nonce in seen && seen[a.nonce] == a.at)
    && (forall i, j :: 0 <= i < j < |history| && history[i].at > t && history[j].at > t ==>
          history[i].nonce != history[j].nonce)
  }

  ghost predicate Closed(seen: Cache, history: seq<Acceptance>) {
    forall n :: n in seen ==> AllLater(seen, history, seen[n])
  }

  lemma FreshClosed(seen: Cache, history: seq<Acceptance>, clock: nat, now: nat)
    requires Sound(seen, history, clock) && Closed(seen, history) && clock <= now
    ensures Closed(Fresh(seen, now), history)
  {
    var kept := Fresh(seen, now);
    forall n | n in kept ensures AllLater(kept, history, kept[n]) { assert AllLater(seen, history, seen[n]); }
  }

  lemma RoomClosed(kept: Cache, history: seq<Acceptance>, victim: Nonce)
    requires Closed(kept, history) && (|kept| >= MAX_CACHE_SIZE ==> Oldest(kept, victim))
    ensures Closed(Room(kept, victim), history)
  {
    var room := Room(kept, victim);
    forall n | n in room ensures AllLater(room, history, room[n]) { assert AllLater(kept, history, kept[n]); }
  }

  lemma InsertLater(room: Cache, history: seq<Acceptance>, nonce: Nonce, now: nat, t: nat)
    requires AllLater(room, history, t) && nonce !in room && t <= now
    requires forall a :: a in history ==> a.at <= now
    ensures AllLater(room[nonce := now], history + [Acceptance(nonce, now)], t)
  {
    var history' := history + [Acceptance(nonce, now)];
    forall i, j | 0 <= i < j < |history'| && history'[i].at > t && history'[j].at > t
      ensures history'[i].nonce != history'[j].nonce
    {
      assert history'[i] == history[i] && history[i] in history;
    }
  }

  lemma InsertClosed(room: Cache, history: seq<Acceptance>, nonce: Nonce, now: nat)
    requires Closed(room, history) && Backed(room, history) && nonce !in room
    requires forall a :: a in history ==> a.at <= now
    ensures Closed(room[nonce := now], history + [Acceptance(nonce, now)])
  {
    var seen := room[nonce := now];
    forall n | n in seen ensures AllLater(seen, history + [Acceptance(nonce, now)], seen[n]) {
      if n != nonce {
        assert Acceptance(n, room[n]) in history;
        InsertLater(room, history, nonce, now, room[n]);
      }
    }
  }

  lemma StepClosed(seen: Cache, history: seq<Acceptance>, clock: nat, c: Call)
    requires Sound(seen, history, clock) && Closed(seen, history) && clock <= c.now
    requires FairVictim(seen, c.nonce, c.now, c.victim) && c.nonce !in Fresh(seen, c.now)
    ensures Closed(Recorded(seen, c.nonce, c.now, c.victim).0, history + [Acceptance(c.nonce, c.now)])
  {
    var kept := Fresh(seen, c.now);
    FreshClosed(seen, history, clock, c.now);
    FreshSound(seen, history, clock, c.now);
    RoomClosed(kept, history, c.victim);
    InsertClosed(Room(kept, c.victim), history, c.nonce, c.now);
  }

  lemma {:induction false} RunClosed(calls: seq<Call>)
    requires Lawful(calls)
    ensures Closed(Run(calls), Accepted(calls))
  {
    if calls != [] {
      var front, c := calls[..|calls| - 1], calls[|calls| - 1];
      RunClosed(front);
      RunSound(front);
      if c.nonce in Fresh(Run(front), c.now) {
        FreshClosed(Run(front), Accepted(front), Clock(front), c.now);
        assert Accepted(calls) == Accepted(front);
      } else {
        StepClosed(Run(front), Accepted(front), Clock(front), c);
      }
    }
  }

  /** Distinct later acceptances are distinct entries, besides one that is not later. */
  lemma {:induction false} LaterAreCached(seen: Cache, history: seq<Acceptance>, t: nat)
    requires AllLater(seen, history, t)
    ensures Since(history, t + 1) <= |seen|
    decreases |history|
  {
    if history != [] {
      var front, last := history[..|history| - 1], history[|history| - 1];
      assert history == front + [last];
      if last.at > t {
        var rest := seen - {last.nonce};
        assert |rest| == |seen| - 1 by { assert rest.Keys == seen.Keys - {last.nonce}; }
        assert AllLater(rest, front, t) by {
          forall a | a in front && a.at > t ensures a.nonce in rest && rest[a.nonce] == a.at {
            var i :| 0 <= i < |front| && front[i] == a;
            assert history[i] == a && history[|front|] == last;
          }
        }
        LaterAreCached(rest, front, t);
      } else {
        LaterAreCached(seen, front, t);
      }
    }
  }

  lemma CachedMeansFewLater(seen: Cache, history: seq<Acceptance>, n: Nonce)
    requires Closed(seen, history) && n in seen
    ensures Since(history, seen[n] + 1) < |seen|
  {
    var rest := seen - {n};
    assert |rest| == |seen| - 1 by { assert rest.Keys == seen.Keys - {n}; }
    assert AllLater(seen, history, seen[n]);
    assert AllLater(rest, history, seen[n]);
    LaterAreCached(rest, history, seen[n]);
  }

  // ---------- the answers ----------

  /** In every run the cache stays within its size and refuses only what the full history shows
      as accepted within the last 900 seconds; it refuses all of that unless more than
      MAX_CACHE_SIZE acceptances are as recent as the earlier one. */
  lemma AnswersLikeHistory(calls: seq<Call>, nonce: Nonce, now: nat, victim: Nonce)
    requires Lawful(calls) && Clock(calls) <= now
    ensures |Run(calls)| <= MAX_CACHE_SIZE
    ensures !Answer(calls, nonce, now, victim) ==>
      exists a :: a in Accepted(calls) && a.nonce == nonce && now - a.at < NONCE_TTL_NANOS
    ensures Answer(calls, nonce, now, victim) ==>
      forall a :: a in Accepted(calls) && a.nonce == nonce && now - a.at < NONCE_TTL_NANOS ==>
        Since(Accepted(calls), a.at) > MAX_CACHE_SIZE
  {
    RunSound(calls);
    FreshSound(Run(calls), Accepted(calls), Clock(calls), now);
    var kept := Fresh(Run(calls), now);
    if nonce in kept {
      assert Acceptance(nonce, kept[nonce]) in Accepted(calls);
    } else {
      forall a | a in Accepted(calls) && a.nonce == nonce && now - a.at < NONCE_TTL_NANOS
        ensures Since(Accepted(calls), a.at) > MAX_CACHE_SIZE
      {
        assert Remembered(kept, Accepted(calls), now, a);
      }
    }
  }

  /** The last acceptance of its nonce so far. */
  ghost predicate Latest(history: seq<Acceptance>, a: Acceptance) {
    a in history && forall b :: b in history && b.nonce == a.nonce ==> b.at <= a.at
  }

  /** When a nonce is refused again within 900 seconds of its last acceptance: surely while no
      more than MAX_CACHE_SIZE acceptances are at its time or later, and no longer once
      MAX_CACHE_SIZE of them are strictly later. */
  lemma RefusedBetween(calls: seq<Call>, a: Acceptance, now: nat, victim: Nonce)
    requires Lawful(calls) && Clock(calls) <= now
    requires Latest(Accepted(calls), a) && now - a.at < NONCE_TTL_NANOS
    ensures Since(Accepted(calls), a.at) <= MAX_CACHE_SIZE ==> !Answer(calls, a.nonce, now, victim)
    ensures !Answer(calls, a.nonce, now, victim) ==> Since(Accepted(calls), a.at + 1) < MAX_CACHE_SIZE
  {
    AnswersLikeHistory(calls, a.nonce, now, victim);
    if a.nonce in Fresh(Run(calls), now) { FewLater(calls, a, now); }
  }

  lemma CachedAtLatest(kept: Cache, history: seq<Acceptance>, a: Acceptance)
    requires Backed(kept, history) && Closed(kept, history) && Latest(history, a) && a.nonce in kept
    ensures kept[a.nonce] == a.at
  {
    assert Acceptance(a.nonce, kept[a.nonce]) in history;
    assert AllLater(kept, history, kept[a.nonce]);
  }

  lemma FewLaterOf(kept: Cache, history: seq<Acceptance>, a: Acceptance)
    requires Backed(kept, history) && Closed(kept, history) && Latest(history, a) && a.nonce in kept
    ensures Since(history, a.at + 1) < |kept|
  {
    CachedAtLatest(kept, history, a);
    CachedMeansFewLater(kept, history, a.nonce);
  }

  lemma FewLater(calls: seq<Call>, a: Acceptance, now: nat)
    requires Lawful(calls) && Clock(calls) <= now && Latest(Accepted(calls), a) && a.nonce in Fresh(Run(calls), now)
    ensures Since(Accepted(calls), a.at + 1) < MAX_CACHE_SIZE
  {
    FreshInvariants(calls, now);
    FewLaterOf(Fresh(Run(calls), now), Accepted(calls), a);
  }

  lemma FreshInvariants(calls: seq<Call>, now: nat)
    requires Lawful(calls) && Clock(calls) <= now
    ensures Sound(Fresh(Run(calls), now), Accepted(calls), now) && Closed(Fresh(Run(calls), now), Accepted(calls))
  {
    RunSound(calls);
    RunClosed(calls);
    FreshSound(Run(calls), Accepted(calls), Clock(calls), now);
    FreshClosed(Run(calls), Accepted(calls), Clock(calls), now);
  }

  /** So with no other acceptance at the same instant the answer is exact: refused if and only
      if at most MAX_CACHE_SIZE acceptances, itself included, are as recent. */
  lemma RefusedExactly(calls: seq<Call>, a: Acceptance, now: nat, victim: Nonce)
    requires Lawful(calls) && Clock(calls) <= now
    requires Latest(Accepted(calls), a) && now - a.at < NONCE_TTL_NANOS
    requires Since(Accepted(calls), a.at) == Since(Accepted(calls), a.at + 1) + 1
    ensures !Answer(calls, a.nonce, now, victim) <==> Since(Accepted(calls), a.at) <= MAX_CACHE_SIZE
  {
    RefusedBetween(calls, a, now, victim);
  }

  /** The clock moves between any two calls. */
  ghost predicate Ticking(calls: seq<Call>) {
    |calls| <= 1 || (Ticking(calls[..|calls| - 1]) && Clock(calls[..|calls| - 1]) < calls[|calls| - 1].now)
  }

  lemma {:induction false} AcceptedByNow(calls: seq<Call>)
    requires Ticking(calls)
    ensures forall a :: a in Accepted(calls) ==> a.at <= Clock(calls)
  {
    if |calls| > 1 {
      AcceptedByNow(calls[..|calls| - 1]);
    } else if |calls| == 1 {
      assert Accepted(calls[..0]) == [];
    }
  }

  lemma {:induction false} NoneSince(history: seq<Acceptance>, t: nat)
    requires forall a :: a in history ==> a.at < t
    ensures Since(history, t) == 0
  {
    if history != [] {
      assert history[|history| - 1] in history;
      NoneSince(history[..|history| - 1], t);
    }
  }

  lemma SeparateSnoc(history: seq<Acceptance>, latest: Acceptance, a: Acceptance)
    requires forall b :: b in history ==> b.at < latest.at
    requires a in history ==> Since(history, a.at) == Since(history, a.at + 1) + 1
    requires a in history || a == latest
    ensures Since(history + [latest], a.at) == Since(history + [latest], a.at + 1) + 1
  {
    SinceSnoc(history, latest, a.at);
    SinceSnoc(history, latest, a.at + 1);
    if a !in history {
      NoneSince(history, a.at);
      NoneSince(history, a.at + 1);
    }
  }

  /** Such a clock separates all acceptances. */
  lemma {:induction false} TickingSeparates(calls: seq<Call>, a: Acceptance)
    requires Ticking(calls) && a in Accepted(calls)
    ensures Since(Accepted(calls), a.at) == Since(Accepted(calls), a.at + 1) + 1
  {
    var front, c := calls[..|calls| - 1], calls[|calls| - 1];
    AcceptedByNow(front);
    if a in Accepted(front) { TickingSeparates(front, a); }
    if Answer(front, c.nonce, c.now, c.victim) {
      assert |calls| == 1 ==> Accepted(front) == [];
      SeparateSnoc(Accepted(front), Acceptance(c.nonce, c.now), a);
    } else {
      assert Accepted(calls) == Accepted(front);
    }
  }

  /** Under such a clock every answer is exact. */
  lemma TickingAnswers(calls: seq<Call>, a: Acceptance, now: nat, victim: Nonce)
    requires Lawful(calls) && Ticking(calls) && Clock(calls) <= now
    requires Latest(Accepted(calls), a) && now - a.at < NONCE_TTL_NANOS
    ensures !Answer(calls, a.nonce, now, victim) <==> Since(Accepted(calls), a.at) <= MAX_CACHE_SIZE
  {
    TickingSeparates(calls, a);
    RefusedExactly(calls, a, now, victim);
  }

  // ---------- a flood ----------

  /** Different nonces, one a nanosecond. */
  ghost predicate IsFlood(calls: seq<Call>) {
    forall i :: 0 <= i < |calls| ==> calls[i].nonce == [i] && calls[i].now == i
  }

  lemma {:induction false} SomeOldest(seen: Cache) returns (victim: Nonce)
    requires seen != map[]
    ensures Oldest(seen, victim)
    decreases |seen|
  {
    victim :| victim in seen;
    var rest := seen - {victim};
    if rest != map[] {
      assert rest.Keys == seen.Keys - {victim};
      var other := SomeOldest(rest);
      if seen[other] < seen[victim] { victim := other; }
      forall n | n in seen ensures seen[victim] <= seen[n] { assert n in rest ==> rest[other] <= rest[n]; }
    } else {
      forall n | n in seen ensures n == victim { assert n !in rest; }
    }
  }

  lemma {:induction false} FloodExists(n: nat) returns (calls: seq<Call>)
    ensures |calls| == n && IsFlood(calls) && Lawful(calls)
  {
    calls := [];
    if n != 0 {
      var front := FloodExists(n - 1);
      var kept := Fresh(Run(front), n - 1);
      var victim: Nonce := [];
      if kept != map[] { victim := SomeOldest(kept); }
      calls := front + [Call([n - 1], n - 1, victim)];
      assert calls[..n - 1] == front;
    }
  }

  ghost predicate AllIn(history: seq<Acceptance>, n: nat) {
    && (forall a :: a in history ==> a.at < n && a.nonce == [a.at])
    && (n > 0 ==> Acceptance([0], 0) in history && Since(history, 1) == n - 1)
    && (n == 0 ==> history == [])
  }

  lemma AllInSnoc(history: seq<Acceptance>, n: nat)
    requires AllIn(history, n)
    ensures AllIn(history + [Acceptance([n], n)], n + 1)
  {
    SinceSnoc(history, Acceptance([n], n), 1);
  }

  lemma {:induction false} FloodIsAccepted(calls: seq<Call>)
    requires Lawful(calls) && IsFlood(calls)
    ensures AllIn(Accepted(calls), |calls|)
  {
    if calls != [] {
      var n := |calls| - 1;
      var front, c := calls[..n], calls[n];
      FloodIsAccepted(front);
      AnswersLikeHistory(front, c.nonce, c.now, c.victim);
      AllInSnoc(Accepted(front), n);
    }
  }

  /** One acceptance more than the cache holds, and the first nonce is accepted again long before
      its 900 seconds are over, whichever oldest entries were evicted. */
  lemma FloodedOut(calls: seq<Call>, now: nat, victim: Nonce)
    requires Lawful(calls) && IsFlood(calls) && |calls| == MAX_CACHE_SIZE + 1
    requires Clock(calls) <= now < NONCE_TTL_NANOS
    ensures Acceptance([0], 0) in Accepted(calls) && Answer(calls, [0], now, victim)
  {
    FloodIsAccepted(calls);
    var a := Acceptance([0], 0);
    assert Latest(Accepted(calls), a);
    RefusedBetween(calls, a, now, victim);
  }
}
