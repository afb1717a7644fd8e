/** The sliding-window limiter of src/security_runtime.rs, `RateLimiter::check`. */
module SlidingWindow {

  function Within(times: seq<nat>, now: nat, window: nat): seq<nat> {
    if times == [] then []
    else
      var rest := Within(times[..|times| - 1], now, window);
      var t := times[|times| - 1];
      if now - t < window then rest + [t] else rest
  }

  function Times(attempts: map<string, seq<nat>>, key: string): seq<nat> {
    if key in attempts then attempts[key] else []
  }

  function Check(maxAttempts: nat, window: nat, attempts: map<string, seq<nat>>, key: string, now: nat)
    : (map<string, seq<nat>>, bool)
  {
    var entry := Within(Times(attempts, key), now, window);
    if |entry| >= maxAttempts then (attempts[key := entry], false) else (attempts[key := entry + [now]], true)
  }

  class RateLimiter {
    const maxAttempts: nat
    const window: nat
    var attempts: map<string, seq<nat>>

    constructor (maxAttempts: nat, window: nat)
      ensures this.maxAttempts == maxAttempts && this.window == window && attempts == map[]
    {
      this.maxAttempts, this.window, attempts := maxAttempts, window, map[];
    }

    method Attempt(key: string, now: nat) returns (ok: bool)
      modifies this
      ensures (attempts, ok) == Check(maxAttempts, window, old(attempts), key, now)
    {
      var entry := Times(attempts, key);
      var kept: seq<nat> := [];
      for i := 0 to |entry|
        invariant kept == Within(entry[..i], now, window)
      {
        assert entry[..i + 1][..i] == entry[..i];
        if now - entry[i] < window {
          kept := kept + [entry[i]];
        }
      }
      assert entry[..|entry|] == entry;
      if |kept| >= maxAttempts {
        attempts := attempts[key := kept];
        ok := false;
      } else {
        attempts := attempts[key := kept + [now]];
        ok := true;
      }
    }
  }

  // ---------- runs ----------

  datatype Call = Call(key: string, now: nat)

  function Run(maxAttempts: nat, window: nat, calls: seq<Call>): map<string, seq<nat>> {
    if calls == [] then map[]
    else
      var c := calls[|calls| - 1];
      Check(maxAttempts, window, Run(maxAttempts, window, calls[..|calls| - 1]), c.key, c.now).0
  }

  function Admitted(maxAttempts: nat, window: nat, calls: seq<Call>, i: nat): bool
    requires i < |calls|
  {
    Check(maxAttempts, window, Run(maxAttempts, window, calls[..i]), calls[i].key, calls[i].now).1
  }

  /** All acceptances of a key, nothing forgotten. */
  function Accepted(maxAttempts: nat, window: nat, calls: seq<Call>, key: string): seq<nat> {
    if calls == [] then []
    else
      var n := |calls| - 1;
      var before := Accepted(maxAttempts, window, calls[..n], key);
      if calls[n].key == key && Admitted(maxAttempts, window, calls, n) then before + [calls[n].now] else before
  }

  ghost predicate Timely(calls: seq<Call>) {
    forall i, j :: 0 <= i < j < |calls| ==> calls[i].now <= calls[j].now
  }

  ghost predicate Sorted(times: seq<nat>, clock: nat) {
    && (forall i, j :: 0 <= i < j < |times| ==> times[i] <= times[j])
    && (forall i :: 0 <= i < |times| ==> times[i] <= clock)
  }

  lemma {:induction false} WithinSnoc(times: seq<nat>, t: nat, now: nat, window: nat)
    ensures Within(times + [t], now, window)
         == Within(times, now, window) + if now - t < window then [t] else []
  {
  }

  /** What was dropped once stays dropped. */
  lemma {:induction false} WithinLater(times: seq<nat>, now: nat, later: nat, window: nat)
    requires now <= later
    ensures Within(Within(times, now, window), later, window) == Within(times, later, window)
  {
    if times != [] {
      var n := |times| - 1;
      WithinLater(times[..n], now, later, window);
      WithinSnoc(Within(times[..n], now, window), times[n], later, window);
    }
  }

  /** The kept times and the full record agree from `clock` on. */
  ghost predicate Mirrors(kept: seq<nat>, full: seq<nat>, clock: nat, window: nat) {
    forall now: nat :: now >= clock ==> Within(kept, now, window) == Within(full, now, window)
  }

  lemma MirrorsPruned(kept: seq<nat>, full: seq<nat>, clock: nat, now: nat, window: nat)
    requires Mirrors(kept, full, clock, window) && clock <= now
    ensures Mirrors(Within(kept, now, window), full, now, window)
    ensures Mirrors(Within(kept, now, window) + [now], full + [now], now, window)
  {
    forall later: nat | later >= now
      ensures Within(Within(kept, now, window), later, window) == Within(full, later, window)
      ensures Within(Within(kept, now, window) + [now], later, window) == Within(full + [now], later, window)
    {
      WithinLater(kept, now, later, window);
      WithinSnoc(Within(kept, now, window), now, later, window);
      WithinSnoc(full, now, later, window);
    }
  }

  ghost function Clock(calls: seq<Call>): nat { if calls == [] then 0 else calls[|calls| - 1].now }

  lemma TimelyPrefix(calls: seq<Call>, i: nat)
    requires Timely(calls) && i < |calls|
    ensures Timely(calls[..i]) && Clock(calls[..i]) <= calls[i].now
  {
  }

  lemma SortedSnoc(times: seq<nat>, clock: nat, now: nat)
    requires Sorted(times, clock) && clock <= now
    ensures Sorted(times, now) && Sorted(times + [now], now)
  {
  }

  lemma {:induction false} RunMirrors(maxAttempts: nat, window: nat, calls: seq<Call>, key: string)
    requires Timely(calls)
    ensures Mirrors(Times(Run(maxAttempts, window, calls), key), Accepted(maxAttempts, window, calls, key),
                    Clock(calls), window)
    ensures Sorted(Accepted(maxAttempts, window, calls, key), Clock(calls))
  {
    if calls != [] {
      var n := |calls| - 1;
      TimelyPrefix(calls, n);
      RunMirrors(maxAttempts, window, calls[..n], key);
      var kept := Times(Run(maxAttempts, window, calls[..n]), key);
      var full := Accepted(maxAttempts, window, calls[..n], key);
      MirrorsPruned(kept, full, Clock(calls[..n]), calls[n].now, window);
      SortedSnoc(full, Clock(calls[..n]), calls[n].now);
      if calls[n].key != key {
        assert Times(Run(maxAttempts, window, calls), key) == kept;
      }
    }
  }

  /** The limiter admits exactly when the full record shows fewer than the maximum in the window. */
  lemma AgreesWithFullRecord(maxAttempts: nat, window: nat, calls: seq<Call>, i: nat)
    requires Timely(calls) && i < |calls|
    ensures Admitted(maxAttempts, window, calls, i)
        <==> |Within(Accepted(maxAttempts, window, calls[..i], calls[i].key), calls[i].now, window)| < maxAttempts
  {
    TimelyPrefix(calls, i);
    RunMirrors(maxAttempts, window, calls[..i], calls[i].key);
  }

  lemma {:induction false} WithinKeepsTail(times: seq<nat>, clock: nat, i: nat, now: nat, window: nat)
    requires Sorted(times, clock) && i < |times| && now - times[i] < window
    ensures |Within(times, now, window)| >= |times| - i
  {
    var n := |times| - 1;
    if i < n {
      WithinKeepsTail(times[..n], clock, i, now, window);
    }
  }

  /** Any maxAttempts + 1 consecutive acceptances of a key span at least the window. */
  lemma {:induction false} AcceptancesSpanWindow(maxAttempts: nat, window: nat, calls: seq<Call>, key: string, i: nat)
    requires Timely(calls)
    requires i + maxAttempts < |Accepted(maxAttempts, window, calls, key)|
    ensures var a := Accepted(maxAttempts, window, calls, key); a[i + maxAttempts] - a[i] >= window
  {
    var n := |calls| - 1;
    TimelyPrefix(calls, n);
    var before := Accepted(maxAttempts, window, calls[..n], key);
    if i + maxAttempts < |before| {
      AcceptancesSpanWindow(maxAttempts, window, calls[..n], key, i);
    } else {
      AgreesWithFullRecord(maxAttempts, window, calls, n);
      RunMirrors(maxAttempts, window, calls[..n], key);
      FullWindow(before, Clock(calls[..n]), i, calls[n].now, window, maxAttempts);
    }
  }

  lemma FullWindow(times: seq<nat>, clock: nat, i: nat, now: nat, window: nat, limit: nat)
    requires Sorted(times, clock) && i + limit == |times| && |Within(times, now, window)| < limit
    ensures now - times[i] >= window
  {
    if now - times[i] < window {
      WithinKeepsTail(times, clock, i, now, window);
    }
  }
}

/** The token bucket of src/gateway.rs, `GatewayRateLimiter::allow`, over the reals. */
module TokenBucket {

  const U64_MAX: nat := 0xFFFF_FFFF_FFFF_FFFF

  datatype Bucket = Bucket(tokens: real, last: nat)

  datatype Decision = Decision(allowed: bool, remaining: int, retryAfter: nat)

  datatype Config = Config(requestsPerMinute: nat, burst: nat)
  {
    function Rate(): real { requestsPerMinute as real / 60.0 }
  }

  type Buckets = map<string, Bucket>

  function Minimum(a: real, b: real): real { if b < a then b else a }

  /** The tokens that arrive in n seconds. */
  function Refill(c: Config, n: nat): real { if n == 0 then 0.0 else Refill(c, n - 1) + c.Rate() }

  lemma {:induction false} RefillIsProduct(c: Config, n: nat)
    ensures Refill(c, n) == n as real * c.Rate()
  {
    if n != 0 {
      RefillIsProduct(c, n - 1);
      assert n as real == (n - 1) as real + 1.0;
    }
  }

  lemma {:induction false} RefillAdd(c: Config, m: nat, n: nat)
    ensures Refill(c, m + n) == Refill(c, m) + Refill(c, n) && Refill(c, n) >= 0.0
  {
    if n != 0 {
      RefillAdd(c, m, n - 1);
    }
  }

  /** What a peer could spend at `now`. */
  function Available(c: Config, bs: Buckets, peer: string, now: nat): real {
    if peer !in bs then c.burst as real
    else
      var elapsed := if now < bs[peer].last then 0 else now - bs[peer].last;
      Minimum(bs[peer].tokens + Refill(c, elapsed), c.burst as real)
  }

  /** `f64::ceil() as u64`, which saturates at the infinity of a zero rate. */
  function Retry(c: Config, missing: real): int {
    if c.requestsPerMinute == 0 then U64_MAX else Ceil(missing / c.Rate())
  }

  function Ceil(x: real): int { -((-x).Floor) }

  predicate Admits(c: Config, bs: Buckets, peer: string, weight: nat, now: nat) {
    Available(c, bs, peer, now) >= weight as real
  }

  /** The buckets after a call: refilled, and debited if it is admitted. */
  function Spend(c: Config, bs: Buckets, peer: string, weight: nat, now: nat): Buckets {
    var tokens := Available(c, bs, peer, now);
    bs[peer := Bucket(if tokens >= weight as real then tokens - weight as real else tokens, now)]
  }

  function Decide(c: Config, bs: Buckets, peer: string, weight: nat, now: nat): Decision {
    var tokens := Available(c, bs, peer, now);
    if tokens >= weight as real then Decision(true, (tokens - weight as real).Floor, 0)
    else
      var retry := Retry(c, weight as real - tokens);
      Decision(false, 0, if retry < 0 then 0 else retry)
  }

  method Arrived(c: Config, elapsed: nat) returns (tokens: real)
    ensures tokens == Refill(c, elapsed)
  {
    var refillRate := c.requestsPerMinute as real / 60.0;
    RefillIsProduct(c, elapsed);
    tokens := elapsed as real * refillRate;
  }

  class GatewayRateLimiter {
    const config: Config
    var buckets: Buckets

    constructor (config: Config)
      ensures this.config == config && buckets == map[]
    {
      this.config, buckets := config, map[];
    }

    method Request(peer: string, weight: nat, now: nat) returns (d: Decision)
      modifies this
      ensures buckets == Spend(config, old(buckets), peer, weight, now)
      ensures d == Decide(config, old(buckets), peer, weight, now)
    {
      var burst := config.burst as real;
      var bucket := if peer in buckets then buckets[peer] else Bucket(burst, now);
      var elapsed := if now < bucket.last then 0 else now - bucket.last;
      var arrived := Arrived(config, elapsed);
      var tokens := Minimum(bucket.tokens + arrived, burst);
      if tokens >= weight as real {
        tokens := tokens - weight as real;
        d := Decision(true, tokens.Floor, 0);
      } else {
        var retry := Retry(config, weight as real - tokens);
        d := Decision(false, 0, if retry < 0 then 0 else retry);
      }
      buckets := buckets[peer := Bucket(tokens, now)];
    }
  }

  // ---------- runs ----------

  datatype Call = Call(peer: string, weight: nat, now: nat)

  function Run(c: Config, bs: Buckets, calls: seq<Call>): Buckets {
    if calls == [] then bs
    else
      var n := |calls| - 1;
      Spend(c, Run(c, bs, calls[..n]), calls[n].peer, calls[n].weight, calls[n].now)
  }

  /** What call i is answered. */
  function AnswerAt(c: Config, bs: Buckets, calls: seq<Call>, i: nat): Decision
    requires i < |calls|
  {
    Decide(c, Run(c, bs, calls[..i]), calls[i].peer, calls[i].weight, calls[i].now)
  }

  lemma AnswerIsAdmits(c: Config, bs: Buckets, call: Call)
    ensures Decide(c, bs, call.peer, call.weight, call.now).allowed
       <==> Admits(c, bs, call.peer, call.weight, call.now)
  {
  }

  /** The weight a peer was allowed from call j on, by the answers given. */
  function AllowedSince(c: Config, bs: Buckets, calls: seq<Call>, peer: string, j: nat): real {
    if |calls| <= j then 0.0
    else
      var n := |calls| - 1;
      AllowedSince(c, bs, calls[..n], peer, j)
      + if calls[n].peer == peer && AnswerAt(c, bs, calls, n).allowed then calls[n].weight as real else 0.0
  }

  ghost predicate Timely(calls: seq<Call>, start: nat) {
    && (forall i :: 0 <= i < |calls| ==> start <= calls[i].now)
    && (forall i, j :: 0 <= i < j < |calls| ==> calls[i].now <= calls[j].now)
  }

  /** Buckets as calls up to `clock` leave them. */
  ghost predicate Sound(c: Config, bs: Buckets, clock: nat) {
    forall p :: p in bs ==> 0.0 <= bs[p].tokens <= c.burst as real && bs[p].last <= clock
  }

  lemma AvailableBounds(c: Config, bs: Buckets, peer: string, clock: nat, now: nat)
    requires Sound(c, bs, clock) && clock <= now
    ensures 0.0 <= Available(c, bs, peer, now) <= c.burst as real
  {
    if peer in bs { RefillAdd(c, 0, now - bs[peer].last); }
  }

  lemma AllowSound(c: Config, bs: Buckets, call: Call, clock: nat)
    requires Sound(c, bs, clock) && clock <= call.now
    ensures Sound(c, Spend(c, bs, call.peer, call.weight, call.now), call.now)
  {
    AvailableBounds(c, bs, call.peer, clock, call.now);
  }

  lemma {:induction false} RunSound(c: Config, bs: Buckets, calls: seq<Call>, start: nat)
    requires Sound(c, bs, start) && Timely(calls, start)
    ensures Sound(c, Run(c, bs, calls), Clock(calls, start))
  {
    if calls != [] {
      var n := |calls| - 1;
      TimelyPrefix(calls, start);
      RunSound(c, bs, calls[..n], start);
      AllowSound(c, Run(c, bs, calls[..n]), calls[n], Clock(calls[..n], start));
    }
  }

  /** Another peer's call changes nothing. */
  lemma OtherPeerKeeps(c: Config, bs: Buckets, call: Call, peer: string, now: nat)
    requires call.peer != peer
    ensures Available(c, Spend(c, bs, call.peer, call.weight, call.now), peer, now) == Available(c, bs, peer, now)
  {
  }

  /** Spending lowers what is available afterwards by at least as much. */
  lemma SpendingCounts(c: Config, bs: Buckets, call: Call, clock: nat, now: nat)
    requires Sound(c, bs, clock) && clock <= call.now <= now
    ensures Available(c, Spend(c, bs, call.peer, call.weight, call.now), call.peer, now)
            + (if Admits(c, bs, call.peer, call.weight, call.now) then call.weight as real else 0.0)
         <= Available(c, bs, call.peer, call.now) + Refill(c, now - call.now)
  {
  }

  /** A refused call changes nothing that shows later. */
  lemma RefusalKeeps(c: Config, bs: Buckets, call: Call, clock: nat, now: nat)
    requires Sound(c, bs, clock) && clock <= call.now <= now
    requires !Admits(c, bs, call.peer, call.weight, call.now)
    ensures Available(c, Spend(c, bs, call.peer, call.weight, call.now), call.peer, now)
         == Available(c, bs, call.peer, now)
  {
    RefillAdd(c, 0, now - call.now);
    if call.peer in bs {
      var last := bs[call.peer].last;
      assert now - last == (call.now - last) + (now - call.now);
      RefillAdd(c, call.now - last, now - call.now);
    }
  }

  ghost function Clock(calls: seq<Call>, start: nat): nat { if calls == [] then start else calls[|calls| - 1].now }

  lemma TimelyPrefix(calls: seq<Call>, start: nat)
    requires Timely(calls, start) && calls != []
    ensures var n := |calls| - 1;
      Timely(calls[..n], start) && start <= Clock(calls[..n], start) <= calls[n].now
  {
  }

  /** One call keeps the balance of weight admitted, tokens left and tokens granted. */
  lemma BalanceStep(c: Config, bs: Buckets, call: Call, peer: string, clock: nat, start: nat, now: nat, admitted: real)
    requires Sound(c, bs, clock) && start <= clock <= call.now <= now
    requires var then' := if call.peer == peer then call.now else now;
      admitted + Available(c, bs, peer, then') <= c.burst as real + Refill(c, then' - start)
    ensures admitted
            + (if call.peer == peer && Admits(c, bs, call.peer, call.weight, call.now)
               then call.weight as real else 0.0)
            + Available(c, Spend(c, bs, call.peer, call.weight, call.now), peer, now)
         <= c.burst as real + Refill(c, now - start)
  {
    if call.peer == peer {
      SpendingCounts(c, bs, call, clock, now);
      assert now - start == (call.now - start) + (now - call.now);
      RefillAdd(c, call.now - start, now - call.now);
    } else {
      OtherPeerKeeps(c, bs, call, peer, now);
    }
  }

  lemma {:induction false} AdmittedAndAvailable(c: Config, bs: Buckets, calls: seq<Call>, peer: string,
                                                start: nat, now: nat)
    requires Sound(c, bs, start) && Timely(calls, start) && start <= now && Clock(calls, start) <= now
    ensures AllowedSince(c, bs, calls, peer, 0) + Available(c, Run(c, bs, calls), peer, now)
         <= c.burst as real + Refill(c, now - start)
  {
    if calls == [] {
      AvailableBounds(c, bs, peer, start, now);
      RefillAdd(c, 0, now - start);
    } else {
      var n := |calls| - 1;
      TimelyPrefix(calls, start);
      RunSound(c, bs, calls[..n], start);
      AdmittedAndAvailable(c, bs, calls[..n], peer, start, if calls[n].peer == peer then calls[n].now else now);
      BalanceStep(c, Run(c, bs, calls[..n]), calls[n], peer, Clock(calls[..n], start), start, now,
                  AllowedSince(c, bs, calls[..n], peer, 0));
      AnswerIsAdmits(c, Run(c, bs, calls[..n]), calls[n]);
    }
  }

  /** Over any stretch of calls a peer is admitted with at most burst + rate * elapsed,
      whatever the other peers do. */
  lemma AdmittedWeightBounded(c: Config, bs: Buckets, calls: seq<Call>, peer: string, start: nat)
    requires Sound(c, bs, start) && Timely(calls, start) && calls != []
    ensures AllowedSince(c, bs, calls, peer, 0)
         <= c.burst as real + Refill(c, calls[|calls| - 1].now - start)
  {
    var now := calls[|calls| - 1].now;
    AdmittedAndAvailable(c, bs, calls, peer, start, now);
    RunSound(c, bs, calls, start);
    AvailableBounds(c, Run(c, bs, calls), peer, now, now);
  }

  // ---------- the answers from the start ----------

  /** What is left of the burst and the refill since call j once call i is paid for. */
  ghost function Slack(c: Config, calls: seq<Call>, i: nat, j: nat): real
    requires j <= i < |calls| && calls[j].now <= calls[i].now
  {
    c.burst as real + Refill(c, calls[i].now - calls[j].now)
    - AllowedSince(c, map[], calls[..i], calls[i].peer, j) - calls[i].weight as real
  }

  /** What the peer may still spend of the burst and the refill since call j. */
  ghost function Level(c: Config, calls: seq<Call>, peer: string, j: nat, now: nat): real
    requires j < |calls| && calls[j].now <= now
  {
    c.burst as real + Refill(c, now - calls[j].now) - AllowedSince(c, map[], calls, peer, j)
  }

  ghost predicate Caps(c: Config, calls: seq<Call>, peer: string, j: nat, now: nat, x: real) {
    j < |calls| && calls[j].peer == peer && calls[j].now <= now && x == Level(c, calls, peer, j, now)
  }

  /** `x` is the least of the burst and the levels since the peer's calls. */
  ghost predicate IsLeast(c: Config, calls: seq<Call>, peer: string, now: nat, x: real) {
    && x <= c.burst as real
    && (forall j: nat :: j < |calls| && calls[j].peer == peer && calls[j].now <= now ==>
          x <= Level(c, calls, peer, j, now))
    && (x == c.burst as real || exists j: nat :: Caps(c, calls, peer, j, now, x))
  }

  /** The weight the last call was allowed. */
  ghost function Paid(c: Config, calls: seq<Call>): real
    requires calls != []
  {
    if AnswerAt(c, map[], calls, |calls| - 1).allowed then calls[|calls| - 1].weight as real else 0.0
  }

  lemma LevelStep(c: Config, calls: seq<Call>, j: nat, now: nat)
    requires calls != [] && j < |calls| && calls[j].now <= calls[|calls| - 1].now <= now
    ensures var n := |calls| - 1; var call := calls[n];
      Level(c, calls, call.peer, j, now) + Paid(c, calls) - Refill(c, now - call.now)
      == if j < n then Level(c, calls[..n], call.peer, j, call.now) else c.burst as real
  {
    var n := |calls| - 1;
    var call := calls[n];
    assert now - calls[j].now == (call.now - calls[j].now) + (now - call.now);
    RefillAdd(c, call.now - calls[j].now, now - call.now);
    if j == n { assert AllowedSince(c, map[], calls[..n], call.peer, n) == 0.0; }
  }

  lemma LevelOther(c: Config, calls: seq<Call>, peer: string, j: nat, now: nat)
    requires calls != [] && j < |calls| - 1 && calls[j].now <= now && calls[|calls| - 1].peer != peer
    ensures Level(c, calls, peer, j, now) == Level(c, calls[..|calls| - 1], peer, j, now)
  {
  }

  /** The last call of the peer shifts every level alike and adds the burst as a new one. */
  lemma LeastShifts(c: Config, calls: seq<Call>, now: nat, x: real)
    requires Timely(calls, 0) && calls != [] && calls[|calls| - 1].now <= now
    requires var n := |calls| - 1; IsLeast(c, calls[..n], calls[n].peer, calls[n].now, x)
    ensures var call := calls[|calls| - 1];
      IsLeast(c, calls, call.peer, now, Minimum(x - Paid(c, calls) + Refill(c, now - call.now), c.burst as real))
  {
    var n := |calls| - 1;
    var call := calls[n];
    var shifted := x - Paid(c, calls) + Refill(c, now - call.now);
    var y := Minimum(shifted, c.burst as real);
    forall j: nat | j < |calls| && calls[j].peer == call.peer && calls[j].now <= now
      ensures y <= Level(c, calls, call.peer, j, now)
    {
      LevelStep(c, calls, j, now);
      assert j < n ==> calls[..n][j] == calls[j];
    }
    if y != c.burst as real {
      if x == c.burst as real {
        LevelStep(c, calls, n, now);
        assert Caps(c, calls, call.peer, n, now, y);
      } else {
        var j: nat :| Caps(c, calls[..n], call.peer, j, call.now, x);
        LevelStep(c, calls, j, now);
        assert Caps(c, calls, call.peer, j, now, y);
      }
    }
  }

  lemma LeastOther(c: Config, calls: seq<Call>, peer: string, now: nat, x: real)
    requires calls != [] && calls[|calls| - 1].peer != peer && IsLeast(c, calls[..|calls| - 1], peer, now, x)
    ensures IsLeast(c, calls, peer, now, x)
  {
    var n := |calls| - 1;
    forall j: nat | j < |calls| && calls[j].peer == peer && calls[j].now <= now
      ensures x <= Level(c, calls, peer, j, now)
    {
      LevelOther(c, calls, peer, j, now);
      assert calls[..n][j] == calls[j];
    }
    if x != c.burst as real {
      var j: nat :| Caps(c, calls[..n], peer, j, now, x);
      LevelOther(c, calls, peer, j, now);
      assert Caps(c, calls, peer, j, now, x);
    }
  }

  lemma AvailableAfter(c: Config, bs: Buckets, call: Call, now: nat)
    requires call.now <= now
    ensures Available(c, Spend(c, bs, call.peer, call.weight, call.now), call.peer, now)
         == Minimum(Available(c, bs, call.peer, call.now)
                    - (if Decide(c, bs, call.peer, call.weight, call.now).allowed then call.weight as real else 0.0)
                    + Refill(c, now - call.now), c.burst as real)
  {
    AnswerIsAdmits(c, bs, call);
  }

  lemma {:induction false} AvailableIsLeast(c: Config, calls: seq<Call>, peer: string, now: nat)
    requires Timely(calls, 0) && Clock(calls, 0) <= now
    ensures IsLeast(c, calls, peer, now, Available(c, Run(c, map[], calls), peer, now))
  {
    if calls != [] {
      var n := |calls| - 1;
      var front, call := calls[..n], calls[n];
      TimelyPrefix(calls, 0);
      if call.peer == peer {
        AvailableIsLeast(c, front, peer, call.now);
        LeastShifts(c, calls, now, Available(c, Run(c, map[], front), peer, call.now));
        AvailableAfter(c, Run(c, map[], front), call, now);
      } else {
        AvailableIsLeast(c, front, peer, now);
        LeastOther(c, calls, peer, now, Available(c, Run(c, map[], front), peer, now));
        OtherPeerKeeps(c, Run(c, map[], front), call, peer, now);
      }
    }
  }

  /** For every run from the start: call i is allowed exactly when, counted from itself and from
      every earlier call of its peer, its weight and the weight allowed since fit into the burst
      and the refill; and then `remaining` is the whole part of the least slack left. */
  lemma AllowedExactly(c: Config, calls: seq<Call>, i: nat)
    requires Timely(calls, 0) && i < |calls|
    ensures var answer := AnswerAt(c, map[], calls, i);
      && (answer.allowed <==>
            forall j: nat :: j <= i && calls[j].peer == calls[i].peer ==> Slack(c, calls, i, j) >= 0.0)
      && (answer.allowed ==>
            && (forall j: nat :: j <= i && calls[j].peer == calls[i].peer ==>
                  answer.remaining as real <= Slack(c, calls, i, j))
            && (exists j: nat :: j <= i && calls[j].peer == calls[i].peer
                                 && Slack(c, calls, i, j) < answer.remaining as real + 1.0)
            && answer.retryAfter == 0)
      && (!answer.allowed ==>
            answer.remaining == 0 && (c.requestsPerMinute == 0 ==> answer.retryAfter == U64_MAX))
  {
    var front, call := calls[..i], calls[i];
    var x := Available(c, Run(c, map[], front), call.peer, call.now);
    AvailableIsLeast(c, front, call.peer, call.now);
    SlackAtCall(c, calls, i, x);
  }

  /** The tokens left after call i are the least slack. */
  lemma SlackAtCall(c: Config, calls: seq<Call>, i: nat, x: real)
    requires Timely(calls, 0) && i < |calls| && IsLeast(c, calls[..i], calls[i].peer, calls[i].now, x)
    ensures forall j: nat :: j <= i && calls[j].peer == calls[i].peer ==>
      x - calls[i].weight as real <= Slack(c, calls, i, j)
    ensures exists j: nat ::
      j <= i && calls[j].peer == calls[i].peer && Slack(c, calls, i, j) == x - calls[i].weight as real
  {
    var front, call := calls[..i], calls[i];
    assert Slack(c, calls, i, i) == c.burst as real - call.weight as real;
    forall j: nat | j <= i && calls[j].peer == call.peer ensures x - call.weight as real <= Slack(c, calls, i, j) {
      if j < i {
        assert front[j] == calls[j];
        assert x <= Level(c, front, call.peer, j, call.now);
      }
    }
    if x != c.burst as real {
      var j: nat :| Caps(c, front, call.peer, j, call.now, x);
      assert Slack(c, calls, i, j) == x - call.weight as real;
    }
  }

  // ---------- the advised wait ----------

  /** No call of `peer` among these was allowed. */
  ghost predicate NoneAllowed(c: Config, bs: Buckets, calls: seq<Call>, peer: string) {
    calls == [] ||
    (NoneAllowed(c, bs, calls[..|calls| - 1], peer)
     && !(calls[|calls| - 1].peer == peer && AnswerAt(c, bs, calls, |calls| - 1).allowed))
  }

  lemma {:induction false} RefusalsKeepAvailable(c: Config, bs: Buckets, calls: seq<Call>, peer: string,
                                                 start: nat, now: nat)
    requires Sound(c, bs, start) && Timely(calls, start) && Clock(calls, start) <= now
    requires NoneAllowed(c, bs, calls, peer)
    ensures Available(c, Run(c, bs, calls), peer, now) == Available(c, bs, peer, now)
  {
    if calls != [] {
      var n := |calls| - 1;
      TimelyPrefix(calls, start);
      RunSound(c, bs, calls[..n], start);
      RefusalsKeepAvailable(c, bs, calls[..n], peer, start, now);
      if calls[n].peer == peer {
        AnswerIsAdmits(c, Run(c, bs, calls[..n]), calls[n]);
        RefusalKeeps(c, Run(c, bs, calls[..n]), calls[n], Clock(calls[..n], start), now);
      } else {
        OtherPeerKeeps(c, Run(c, bs, calls[..n]), calls[n], peer, now);
      }
    }
  }

  lemma CeilIsLeast(x: real, d: int)
    ensures d >= Ceil(x) <==> d as real >= x
  {
  }

  lemma WaitEnough(tokens: real, weight: real, rate: real, d: nat)
    requires rate > 0.0
    ensures tokens + d as real * rate >= weight <==> d >= Ceil((weight - tokens) / rate)
  {
    var x := (weight - tokens) / rate;
    assert x * rate == weight - tokens;
    CeilIsLeast(x, d);
    if d as real >= x { assert d as real * rate >= x * rate; }
    if d as real < x { assert d as real * rate < x * rate; }
  }

  lemma CeilPositive(x: real)
    requires x > 0.0
    ensures Ceil(x) >= 0
  {
  }

  lemma WaitIsExact(c: Config, tokens: real, weight: nat, wait: nat)
    requires c.requestsPerMinute > 0 && tokens < weight as real
    ensures tokens + Refill(c, wait) >= weight as real <==> wait >= Retry(c, weight as real - tokens)
    ensures Retry(c, weight as real - tokens) >= 0
  {
    RefillIsProduct(c, wait);
    WaitEnough(tokens, weight as real, c.Rate(), wait);
    CeilPositive((weight as real - tokens) / c.Rate());
  }

  /** From a bucket filled up to `tokens` at `now`, through refused calls only. */
  lemma AdmitsAfterWait(c: Config, bs: Buckets, peer: string, tokens: real, now: nat, between: seq<Call>,
                        weight: nat, wait: nat)
    requires Sound(c, bs, now) && peer in bs && bs[peer] == Bucket(tokens, now)
    requires Timely(between, now) && NoneAllowed(c, bs, between, peer) && Clock(between, now) <= now + wait
    ensures Admits(c, Run(c, bs, between), peer, weight, now + wait)
       <==> weight <= c.burst && tokens + Refill(c, wait) >= weight as real
  {
    RefusalsKeepAvailable(c, bs, between, peer, now, now + wait);
    AvailableFrom(c, bs, peer, tokens, now, weight, wait);
  }

  lemma AvailableFrom(c: Config, bs: Buckets, peer: string, tokens: real, now: nat, weight: nat, wait: nat)
    requires peer in bs && bs[peer] == Bucket(tokens, now)
    ensures Available(c, bs, peer, now + wait) >= weight as real
       <==> weight <= c.burst && tokens + Refill(c, wait) >= weight as real
  {
  }

  lemma NothingArrives(c: Config, wait: nat)
    requires c.requestsPerMinute == 0
    ensures Refill(c, wait) == 0.0
  {
    RefillIsProduct(c, wait);
  }

  /** After any refusal the same request is admitted after a wait exactly when tokens arrive at
      all, the burst covers its weight, and the wait is at least the advised one, refused calls
      in between included.  A weight above the burst is advised a wait that never suffices. */
  lemma RetryAfterIsExact(c: Config, bs: Buckets, refused: Call, between: seq<Call>, wait: nat, start: nat)
    requires Sound(c, bs, start) && start <= refused.now
    requires !Decide(c, bs, refused.peer, refused.weight, refused.now).allowed
    requires var after := Spend(c, bs, refused.peer, refused.weight, refused.now);
      && Timely(between, refused.now) && NoneAllowed(c, after, between, refused.peer)
      && Clock(between, refused.now) <= refused.now + wait
    ensures var after := Spend(c, bs, refused.peer, refused.weight, refused.now);
      Decide(c, Run(c, after, between), refused.peer, refused.weight, refused.now + wait).allowed
      <==> && c.requestsPerMinute > 0 && refused.weight <= c.burst
           && wait >= Decide(c, bs, refused.peer, refused.weight, refused.now).retryAfter
  {
    var after := Spend(c, bs, refused.peer, refused.weight, refused.now);
    var tokens := Available(c, bs, refused.peer, refused.now);
    AnswerIsAdmits(c, bs, refused);
    AnswerIsAdmits(c, Run(c, after, between), refused.(now := refused.now + wait));
    AllowSound(c, bs, refused, start);
    AdmitsAfterWait(c, after, refused.peer, tokens, refused.now, between, refused.weight, wait);
    if c.requestsPerMinute > 0 {
      WaitIsExact(c, tokens, refused.weight, wait);
    } else {
      NothingArrives(c, wait);
    }
  }
}
