/** Putting and getting objects: src/storage_layer/object.rs, dht_store.rs and store.rs. */
module ObjectStore {
  import opened Basics
  import opened Storage

  // ---------- values ----------

  datatype Meta = Meta(objectId: string, totalChunks: nat, totalShards: nat, chunkHashes: seq<string>,
                       hash: string, originalSize: nat, erasure: bool)

  datatype Stats = Stats(objectsStored: nat, chunksStored: nat, bytesStored: nat, chunksServed: nat, bytesServed: nat)

  datatype Error =
    | TooLarge | EncodeFailed | MetadataFailed | StoreFailed(index: nat)
    | MetadataMissing | LoadFailed | DecryptFailed(index: nat) | ChunkMissing(index: nat) | DhtFailed(index: nat)
    | IntegrityFailed | NoDecoder | DecodeFailed

  datatype Response = Success | Object(data: Bytes) | Error(error: Error) | Panic

  datatype Setup = Setup(crypto: Crypto, masterKey: Bytes, chunkSize: nat, maxObjectSize: nat,
                         useErasure: bool, encoder: Option<Code>)
  {
    /** A chunk size of zero makes `slice::chunks` panic. */
    ghost predicate Valid() {
      IsAead(crypto) && chunkSize > 0 && (encoder.Some? ==> IsCode(encoder.value))
    }

    function KeyFor(id: string): Key { crypto.objectKey(masterKey, id) }
  }

  /** `metadata` is on disk; `cache` is the in-memory copy of every chunk put here. */
  datatype Store = Store(metadata: map<string, Meta>, cache: map<string, Chunk>, stats: Stats)

  /** How the metadata write ended: a failed flush comes after the insertion. */
  datatype Saved = Flushed | InsertFailed | FlushFailed

  /** One call of put_object with everything the outside world decides about it. */
  datatype PutCall = PutCall(id: string, data: Bytes, nonce: nat -> Nonce, saved: Saved, accepted: nat -> bool)

  datatype Fetched = Found(chunk: Chunk) | Missing | FetchFailed

  // ---------- put ----------

  datatype Plan = Plan(pieces: seq<Bytes>, erasure: bool) | PlanFailed | PlanPanics

  function PlanFor(setup: Setup, data: Bytes): Plan
    requires setup.chunkSize > 0 && (setup.encoder.Some? ==> setup.encoder.value.k > 0)
  {
    if setup.useErasure && setup.encoder.Some? then
      match ErasureEncode(setup.encoder.value, data)
      case Shards(shards) => Plan(shards, true)
      case Failed => PlanFailed
      case Panicked => PlanPanics
    else Plan(Pieces(data, setup.chunkSize), false)
  }

  function EncryptAll(c: Crypto, id: string, key: Key, pieces: seq<Bytes>, nonce: nat -> Nonce): (chunks: seq<Chunk>)
    ensures |chunks| == |pieces|
    ensures forall i :: 0 <= i < |pieces| ==> chunks[i] == Encrypt(c, id, i, pieces[i], key, nonce(i))
  {
    seq(|pieces|, i requires 0 <= i < |pieces| => Encrypt(c, id, i, pieces[i], key, nonce(i)))
  }

  function MetaFor(setup: Setup, call: PutCall, plan: Plan, chunks: seq<Chunk>): Meta
    requires plan.Plan?
  {
    Meta(call.id, |chunks|, if plan.erasure then |plan.pieces| else 0,
         seq(|chunks|, i requires 0 <= i < |chunks| => chunks[i].hash),
         setup.crypto.sha(call.data), |call.data|, plan.erasure)
  }

  /** Caches and publishes the chunks from the i-th on, up to the first refusal. */
  function Publish(cache: map<string, Chunk>, chunks: seq<Chunk>, accepted: nat -> bool, i: nat)
    : (map<string, Chunk>, Option<nat>)
    requires i <= |chunks|
    decreases |chunks| - i
  {
    if i == |chunks| then (cache, None)
    else
      var cache' := cache[ChunkKey(chunks[i].objectId, chunks[i].index) := chunks[i]];
      if accepted(i) then Publish(cache', chunks, accepted, i + 1) else (cache', Some(i))
  }

  function TotalBytes(chunks: seq<Chunk>): nat {
    if chunks == [] then 0 else TotalBytes(chunks[..|chunks| - 1]) + |chunks[|chunks| - 1].data|
  }

  function Put(setup: Setup, s: Store, call: PutCall): (Store, Response)
    requires setup.chunkSize > 0 && (setup.encoder.Some? ==> setup.encoder.value.k > 0)
  {
    if |call.data| > setup.maxObjectSize then (s, Error(TooLarge))
    else
      match PlanFor(setup, call.data)
      case PlanFailed => (s, Error(EncodeFailed))
      case PlanPanics => (s, Panic)
      case Plan(pieces, erasure) =>
        var chunks := EncryptAll(setup.crypto, call.id, setup.KeyFor(call.id), pieces, call.nonce);
        var meta := MetaFor(setup, call, Plan(pieces, erasure), chunks);
        var s' := if call.saved == InsertFailed then s else s.(metadata := s.metadata[call.id := meta]);
        if call.saved != Flushed then (s', Error(MetadataFailed))
        else
          var (cache, refused) := Publish(s.cache, chunks, call.accepted, 0);
          if refused.Some? then (s'.(cache := cache), Error(StoreFailed(refused.value)))
          else
            var t := s.stats;
            (s'.(cache := cache,
                 stats := t.(objectsStored := t.objectsStored + 1, chunksStored := t.chunksStored + |chunks|,
                             bytesStored := t.bytesStored + TotalBytes(chunks))),
             Success)
  }

  function Run(setup: Setup, s: Store, calls: seq<PutCall>): Store
    requires setup.chunkSize > 0 && (setup.encoder.Some? ==> setup.encoder.value.k > 0)
    decreases |calls|
  {
    if calls == [] then s else Run(setup, Put(setup, s, calls[0]).0, calls[1..])
  }

  // ---------- get ----------

  function GetChunk(cache: map<string, Chunk>, fetch: string -> Fetched, id: string, i: nat): Fetched {
    var key := ChunkKey(id, i);
    if key in cache then Found(cache[key]) else fetch(key)
  }

  datatype Read = Data(data: Bytes) | Bad(error: Error)

  /** The chunks from the i-th on, appended to `sofar`; the first problem ends it. */
  function ReadChunks(c: Crypto, key: Key, cache: map<string, Chunk>, fetch: string -> Fetched,
                      id: string, i: nat, n: nat, sofar: Bytes): Read
    requires i <= n
    decreases n - i
  {
    if i == n then Data(sofar)
    else
      match GetChunk(cache, fetch, id, i)
      case Missing => Bad(ChunkMissing(i))
      case FetchFailed => Bad(DhtFailed(i))
      case Found(chunk) =>
        match Decrypt(c, chunk, key)
        case None => Bad(DecryptFailed(i))
        case Some(plain) => ReadChunks(c, key, cache, fetch, id, i + 1, n, sofar + plain)
  }

  function ReadShard(c: Crypto, key: Key, cache: map<string, Chunk>, fetch: string -> Fetched,
                     id: string, i: nat): Option<Bytes> {
    match GetChunk(cache, fetch, id, i)
    case Found(chunk) => Decrypt(c, chunk, key)
    case _ => None
  }

  function ReadShards(c: Crypto, key: Key, cache: map<string, Chunk>, fetch: string -> Fetched,
                      id: string, n: nat): (r: seq<Option<Bytes>>)
    ensures |r| == n
    ensures forall i :: 0 <= i < n ==> r[i] == ReadShard(c, key, cache, fetch, id, i)
  {
    seq(n, i requires 0 <= i < n => ReadShard(c, key, cache, fetch, id, i))
  }

  /** What the object decodes to, before the integrity check. */
  function ReadObject(setup: Setup, s: Store, meta: Meta, fetch: string -> Fetched, id: string): Read {
    var key := setup.KeyFor(id);
    if meta.erasure then
      if setup.encoder.None? then Bad(NoDecoder)
      else
        var shards := ReadShards(setup.crypto, key, s.cache, fetch, id, meta.totalShards);
        match ErasureDecode(setup.encoder.value, shards, meta.originalSize)
        case None => Bad(DecodeFailed)
        case Some(data) => Data(data)
    else ReadChunks(setup.crypto, key, s.cache, fetch, id, 0, meta.totalChunks, [])
  }

  function Get(setup: Setup, s: Store, id: string, loaded: bool, fetch: string -> Fetched): (Store, Response) {
    if !loaded then (s, Error(LoadFailed))
    else if id !in s.metadata then (s, Error(MetadataMissing))
    else
      var meta := s.metadata[id];
      match ReadObject(setup, s, meta, fetch, id)
      case Bad(e) => (s, Error(e))
      case Data(data) =>
        if setup.crypto.sha(data) != meta.hash then (s, Error(IntegrityFailed))
        else
          var t := s.stats;
          (s.(stats := t.(chunksServed := t.chunksServed + meta.totalChunks, bytesServed := t.bytesServed + |data|)),
           Object(data))
  }

  // ---------- what a successful put leaves behind ----------

  ghost function ChunksOf(setup: Setup, call: PutCall): seq<Chunk>
    requires setup.Valid() && PlanFor(setup, call.data).Plan?
  {
    EncryptAll(setup.crypto, call.id, setup.KeyFor(call.id), PlanFor(setup, call.data).pieces, call.nonce)
  }

  ghost predicate MetaHeld(setup: Setup, s: Store, call: PutCall)
    requires setup.Valid()
  {
    && PlanFor(setup, call.data).Plan?
    && call.id in s.metadata
    && s.metadata[call.id] == MetaFor(setup, call, PlanFor(setup, call.data), ChunksOf(setup, call))
  }

  ghost predicate Cached(cache: map<string, Chunk>, chunks: seq<Chunk>, id: string, n: nat)
    requires n <= |chunks|
  {
    forall i :: 0 <= i < n ==> ChunkKey(id, i) in cache && cache[ChunkKey(id, i)] == chunks[i]
  }

  ghost predicate Held(setup: Setup, s: Store, call: PutCall)
    requires setup.Valid()
  {
    MetaHeld(setup, s, call) && Cached(s.cache, ChunksOf(setup, call), call.id, |ChunksOf(setup, call)|)
  }

  ghost predicate Labelled(chunks: seq<Chunk>, id: string) {
    forall i :: 0 <= i < |chunks| ==> chunks[i].objectId == id && chunks[i].index == i
  }

  lemma {:induction false} PublishCaches(cache: map<string, Chunk>, chunks: seq<Chunk>, accepted: nat -> bool,
                                         id: string, i: nat)
    requires i <= |chunks| && Labelled(chunks, id) && Cached(cache, chunks, id, i)
    requires Publish(cache, chunks, accepted, i).1 == None
    ensures Cached(Publish(cache, chunks, accepted, i).0, chunks, id, |chunks|)
    decreases |chunks| - i
  {
    if i < |chunks| {
      var cache' := cache[ChunkKey(id, i) := chunks[i]];
      forall j | 0 <= j < i + 1 ensures ChunkKey(id, j) in cache' && cache'[ChunkKey(id, j)] == chunks[j] {
        if j < i && ChunkKey(id, j) == ChunkKey(id, i) { ChunkKeyInjective(id, j, id, i); }
      }
      PublishCaches(cache', chunks, accepted, id, i + 1);
    }
  }

  /** Publishing an object's chunks touches no other object's keys. */
  lemma {:induction false} PublishKeeps(cache: map<string, Chunk>, chunks: seq<Chunk>, accepted: nat -> bool,
                                        id: string, i: nat, other: string, j: nat)
    requires i <= |chunks| && Labelled(chunks, id) && other != id
    ensures var cache' := Publish(cache, chunks, accepted, i).0;
      && (ChunkKey(other, j) in cache' <==> ChunkKey(other, j) in cache)
      && (ChunkKey(other, j) in cache ==> cache'[ChunkKey(other, j)] == cache[ChunkKey(other, j)])
    decreases |chunks| - i
  {
    if i < |chunks| {
      if ChunkKey(id, i) == ChunkKey(other, j) { ChunkKeyInjective(id, i, other, j); }
      PublishKeeps(cache[ChunkKey(id, i) := chunks[i]], chunks, accepted, id, i + 1, other, j);
    }
  }

  lemma PutHolds(setup: Setup, s: Store, call: PutCall)
    requires setup.Valid() && Put(setup, s, call).1 == Success
    ensures Held(setup, Put(setup, s, call).0, call)
  {
    PublishCaches(s.cache, ChunksOf(setup, call), call.accepted, call.id, 0);
  }

  lemma PutKeepsHeld(setup: Setup, s: Store, call: PutCall, other: PutCall)
    requires setup.Valid() && Held(setup, s, call) && other.id != call.id
    ensures Held(setup, Put(setup, s, other).0, call)
  {
    var s' := Put(setup, s, other).0;
    var chunks := ChunksOf(setup, call);
    if s'.cache != s.cache {
      forall i | 0 <= i < |chunks|
        ensures ChunkKey(call.id, i) in s'.cache && s'.cache[ChunkKey(call.id, i)] == chunks[i]
      {
        PublishKeeps(s.cache, ChunksOf(setup, other), other.accepted, other.id, 0, call.id, i);
      }
    }
  }

  lemma {:induction false} RunKeepsHeld(setup: Setup, s: Store, call: PutCall, others: seq<PutCall>)
    requires setup.Valid() && Held(setup, s, call)
    requires forall i :: 0 <= i < |others| ==> others[i].id != call.id
    ensures Held(setup, Run(setup, s, others), call)
    decreases |others|
  {
    if others != [] {
      PutKeepsHeld(setup, s, call, others[0]);
      RunKeepsHeld(setup, Put(setup, s, others[0]).0, call, others[1..]);
    }
  }

  // ---------- reading it back ----------

  lemma {:induction false} ReadChunksBack(c: Crypto, key: Key, cache: map<string, Chunk>, fetch: string -> Fetched,
                                          id: string, pieces: seq<Bytes>, i: nat, sofar: Bytes)
    requires i <= |pieces|
    requires forall j :: 0 <= j < |pieces| ==> ReadShard(c, key, cache, fetch, id, j) == Some(pieces[j])
    ensures ReadChunks(c, key, cache, fetch, id, i, |pieces|, sofar) == Data(sofar + Flatten(pieces[i..]))
    decreases |pieces| - i
  {
    if i == |pieces| {
      assert pieces[i..] == [];
      assert sofar + [] == sofar;
    } else {
      assert ReadShard(c, key, cache, fetch, id, i) == Some(pieces[i]);
      ReadChunksBack(c, key, cache, fetch, id, pieces, i + 1, sofar + pieces[i]);
      assert pieces[i..][1..] == pieces[i + 1..];
      assert sofar + pieces[i] + Flatten(pieces[i + 1..]) == sofar + (pieces[i] + Flatten(pieces[i + 1..]));
    }
  }

  lemma HeldPiece(setup: Setup, s: Store, call: PutCall, fetch: string -> Fetched, i: nat)
    requires setup.Valid() && Held(setup, s, call) && i < |PlanFor(setup, call.data).pieces|
    ensures ReadShard(setup.crypto, setup.KeyFor(call.id), s.cache, fetch, call.id, i)
         == Some(PlanFor(setup, call.data).pieces[i])
  {
    var pieces := PlanFor(setup, call.data).pieces;
    assert ChunkKey(call.id, i) in s.cache && s.cache[ChunkKey(call.id, i)] == ChunksOf(setup, call)[i];
    DecryptEncrypt(setup.crypto, call.id, i, pieces[i], setup.KeyFor(call.id), call.nonce(i));
  }

  /** An erasure-coded object can be read while any k of its shards are readable, wherever
      they come from; the others may be missing, unreachable or undecryptable. */
  lemma GetErasureWithLosses(setup: Setup, s: Store, call: PutCall, fetch: string -> Fetched)
    requires setup.Valid() && MetaHeld(setup, s, call) && PlanFor(setup, call.data).erasure
    requires var pieces := PlanFor(setup, call.data).pieces;
      var read := ReadShards(setup.crypto, setup.KeyFor(call.id), s.cache, fetch, call.id, |pieces|);
      PartOf(read, pieces) && Present(read) >= setup.encoder.value.k
    ensures Get(setup, s, call.id, true, fetch).1 == Object(call.data)
  {
    var code, pieces := setup.encoder.value, PlanFor(setup, call.data).pieces;
    assert ErasureEncode(code, call.data) == Shards(pieces);
    DecodeEncoded(code, call.data, ReadShards(setup.crypto, setup.KeyFor(call.id), s.cache, fetch, call.id, |pieces|));
  }

  lemma {:induction false} AllArePresent(some: seq<Option<Bytes>>)
    requires forall i :: 0 <= i < |some| ==> some[i].Some?
    ensures Present(some) == |some|
  {
    if some != [] { AllArePresent(some[1..]); }
  }

  lemma GetHeld(setup: Setup, s: Store, call: PutCall, fetch: string -> Fetched)
    requires setup.Valid() && Held(setup, s, call)
    ensures Get(setup, s, call.id, true, fetch).1 == Object(call.data)
  {
    var plan, key := PlanFor(setup, call.data), setup.KeyFor(call.id);
    forall i | 0 <= i < |plan.pieces|
      ensures ReadShard(setup.crypto, key, s.cache, fetch, call.id, i) == Some(plan.pieces[i])
    {
      HeldPiece(setup, s, call, fetch, i);
    }
    if plan.erasure {
      EncodedIs(setup.encoder.value, call.data);
      AllArePresent(ReadShards(setup.crypto, key, s.cache, fetch, call.id, |plan.pieces|));
      GetErasureWithLosses(setup, s, call, fetch);
    } else {
      ReadChunksBack(setup.crypto, key, s.cache, fetch, call.id, plan.pieces, 0, []);
      PiecesFlatten(call.data, setup.chunkSize);
      assert plan.pieces[0..] == plan.pieces;
      assert [] + Flatten(plan.pieces) == call.data;
    }
  }

  /** After a put that reported success, and whatever puts of other ids followed and however
      they ended, the object reads back exactly. */
  lemma GetAfterPut(setup: Setup, s: Store, call: PutCall, others: seq<PutCall>, fetch: string -> Fetched)
    requires setup.Valid() && Put(setup, s, call).1 == Success
    requires forall i :: 0 <= i < |others| ==> others[i].id != call.id
    ensures Get(setup, Run(setup, Put(setup, s, call).0, others), call.id, true, fetch).1 == Object(call.data)
  {
    PutHolds(setup, s, call);
    RunKeepsHeld(setup, Put(setup, s, call).0, call, others);
    GetHeld(setup, Run(setup, Put(setup, s, call).0, others), call, fetch);
  }

  // ---------- what a put answers ----------

  /** The network refuses chunk j first. */
  predicate FirstRefused(accepted: nat -> bool, i: nat, j: nat, n: nat) {
    i <= j < n && !accepted(j) && forall m :: i <= m < j ==> accepted(m)
  }

  predicate AllAccepted(accepted: nat -> bool, i: nat, n: nat) { forall m :: i <= m < n ==> accepted(m) }

  lemma {:induction false} PublishAnswers(cache: map<string, Chunk>, chunks: seq<Chunk>, accepted: nat -> bool, i: nat)
    requires i <= |chunks|
    ensures var refused := Publish(cache, chunks, accepted, i).1;
      && (refused == None <==> AllAccepted(accepted, i, |chunks|))
      && (refused.Some? ==> FirstRefused(accepted, i, refused.value, |chunks|))
    decreases |chunks| - i
  {
    if i < |chunks| && accepted(i) {
      PublishAnswers(cache[ChunkKey(chunks[i].objectId, chunks[i].index) := chunks[i]], chunks, accepted, i + 1);
    }
  }

  /** Only the keys of chunks i to n - 1 change, each to its chunk. */
  ghost predicate Adds(cache: map<string, Chunk>, cache': map<string, Chunk>, chunks: seq<Chunk>,
                       id: string, i: nat, n: nat) {
    && i <= n <= |chunks|
    && (forall m :: i <= m < n ==> ChunkKey(id, m) in cache' && cache'[ChunkKey(id, m)] == chunks[m])
    && (forall key :: (forall m: nat :: i <= m < n ==> key != ChunkKey(id, m)) ==>
          (key in cache' <==> key in cache) && (key in cache ==> cache'[key] == cache[key]))
  }

  lemma AddsOne(cache: map<string, Chunk>, cache': map<string, Chunk>, chunks: seq<Chunk>, id: string, i: nat, n: nat)
    requires i < |chunks| && Adds(cache[ChunkKey(id, i) := chunks[i]], cache', chunks, id, i + 1, n)
    ensures Adds(cache, cache', chunks, id, i, n)
  {
    forall m: nat | i + 1 <= m < n ensures ChunkKey(id, i) != ChunkKey(id, m) {
      if ChunkKey(id, i) == ChunkKey(id, m) { ChunkKeyInjective(id, i, id, m); }
    }
  }

  lemma AddsJust(cache: map<string, Chunk>, chunks: seq<Chunk>, id: string, i: nat)
    requires i < |chunks|
    ensures Adds(cache, cache[ChunkKey(id, i) := chunks[i]], chunks, id, i, i + 1)
  {
  }

  lemma PublishNext(cache: map<string, Chunk>, chunks: seq<Chunk>, accepted: nat -> bool, id: string, i: nat)
    requires i < |chunks| && Labelled(chunks, id)
    ensures Publish(cache, chunks, accepted, i)
         == var next := cache[ChunkKey(id, i) := chunks[i]];
            if accepted(i) then Publish(next, chunks, accepted, i + 1) else (next, Some(i))
  {
  }

  lemma {:induction false} PublishAdds(cache: map<string, Chunk>, chunks: seq<Chunk>, accepted: nat -> bool,
                                       id: string, i: nat)
    requires i <= |chunks| && Labelled(chunks, id)
    ensures var (cache', refused) := Publish(cache, chunks, accepted, i);
      Adds(cache, cache', chunks, id, i, if refused.Some? then refused.value + 1 else |chunks|)
    decreases |chunks| - i
  {
    if i < |chunks| {
      var next := cache[ChunkKey(id, i) := chunks[i]];
      PublishNext(cache, chunks, accepted, id, i);
      if accepted(i) {
        PublishAdds(next, chunks, accepted, id, i + 1);
        var (cache', refused) := Publish(next, chunks, accepted, i + 1);
        AddsOne(cache, cache', chunks, id, i, if refused.Some? then refused.value + 1 else |chunks|);
      } else {
        AddsJust(cache, chunks, id, i);
      }
    }
  }

  /** The put gets as far as publishing chunks. */
  ghost predicate Publishes(setup: Setup, call: PutCall)
    requires setup.Valid()
  {
    |call.data| <= setup.maxObjectSize && PlanFor(setup, call.data).Plan? && call.saved == Flushed
  }

  /** Which answer a put gives, and what it caches: success exactly when every stage passes and
      every chunk is accepted; otherwise the first stage that fails, and among the chunks the
      first one refused.  The chunks up to the last one tried are cached, and nothing else. */
  lemma PutAnswers(setup: Setup, s: Store, call: PutCall)
    requires setup.Valid()
    ensures var (s', answer) := Put(setup, s, call); var plan := PlanFor(setup, call.data);
      && (answer == Error(TooLarge) <==> |call.data| > setup.maxObjectSize)
      && (answer == Error(EncodeFailed) <==> |call.data| <= setup.maxObjectSize && plan.PlanFailed?)
      && (answer == Error(MetadataFailed) <==>
            |call.data| <= setup.maxObjectSize && plan.Plan? && call.saved != Flushed)
      && (answer == Success <==> Publishes(setup, call) && AllAccepted(call.accepted, 0, |plan.pieces|))
      && (forall i: nat :: answer == Error(StoreFailed(i)) <==>
            Publishes(setup, call) && FirstRefused(call.accepted, 0, i, |plan.pieces|))
  {
    if Publishes(setup, call) {
      PublishAnswers(s.cache, ChunksOf(setup, call), call.accepted, 0);
    }
  }

  lemma PutCaches(setup: Setup, s: Store, call: PutCall)
    requires setup.Valid()
    ensures var (s', answer) := Put(setup, s, call);
      if !Publishes(setup, call) then s'.cache == s.cache
      else
        var chunks := ChunksOf(setup, call);
        && (answer == Success ==> Adds(s.cache, s'.cache, chunks, call.id, 0, |chunks|))
        && (forall i: nat :: answer == Error(StoreFailed(i)) ==> Adds(s.cache, s'.cache, chunks, call.id, 0, i + 1))
  {
    if Publishes(setup, call) {
      PublishAdds(s.cache, ChunksOf(setup, call), call.accepted, call.id, 0);
    }
  }

  /** How many of the calls succeed, and how many chunks those have. */
  function Succeeding(setup: Setup, s: Store, calls: seq<PutCall>): (nat, nat)
    requires setup.chunkSize > 0 && (setup.encoder.Some? ==> setup.encoder.value.k > 0)
    decreases |calls|
  {
    if calls == [] then (0, 0)
    else
      var (s', answer) := Put(setup, s, calls[0]);
      var (objects, chunks) := Succeeding(setup, s', calls[1..]);
      var plan := PlanFor(setup, calls[0].data);
      if answer == Success && plan.Plan? then (objects + 1, chunks + |plan.pieces|) else (objects, chunks)
  }

  lemma PutCounts(setup: Setup, s: Store, call: PutCall)
    requires setup.Valid()
    ensures var (s', answer) := Put(setup, s, call); var t, t' := s.stats, s'.stats;
      && t'.chunksServed == t.chunksServed && t'.bytesServed == t.bytesServed
      && (answer != Success ==> t' == t)
      && (answer == Success ==>
            && PlanFor(setup, call.data).Plan? && t'.objectsStored == t.objectsStored + 1
            && t'.chunksStored == t.chunksStored + |PlanFor(setup, call.data).pieces|
            && t'.bytesStored == t.bytesStored + TotalBytes(ChunksOf(setup, call)))
  {
  }

  /** The bytes counted are those of the encrypted chunks laid end to end. */
  lemma {:induction false} TotalBytesIsLength(chunks: seq<Chunk>, datas: seq<Bytes>)
    requires |datas| == |chunks| && forall i :: 0 <= i < |chunks| ==> datas[i] == chunks[i].data
    ensures TotalBytes(chunks) == |Flatten(datas)|
  {
    if chunks != [] {
      var n := |chunks| - 1;
      TotalBytesIsLength(chunks[..n], datas[..n]);
      assert datas == datas[..n] + [datas[n]];
      FlattenSnoc(datas[..n], datas[n]);
    }
  }

  /** Over any puts the statistics count exactly the successful ones and their chunks. */
  lemma {:induction false} StatsCountSuccesses(setup: Setup, s: Store, calls: seq<PutCall>)
    requires setup.Valid()
    ensures var (objects, chunks) := Succeeding(setup, s, calls); var t, t' := s.stats, Run(setup, s, calls).stats;
      t'.objectsStored == t.objectsStored + objects && t'.chunksStored == t.chunksStored + chunks
    decreases |calls|
  {
    if calls != [] {
      PutCounts(setup, s, calls[0]);
      StatsCountSuccesses(setup, Put(setup, s, calls[0]).0, calls[1..]);
    }
  }

  /** The metadata of an object held describes the chunks held: their number and, one by one,
      the hashes of their data; and the object's own size and hash. */
  lemma MetadataDescribesChunks(setup: Setup, s: Store, call: PutCall, i: nat)
    requires setup.Valid() && Held(setup, s, call) && i < s.metadata[call.id].totalChunks
    ensures var meta := s.metadata[call.id];
      && |meta.chunkHashes| == meta.totalChunks && ChunkKey(call.id, i) in s.cache
      && meta.chunkHashes[i] == setup.crypto.sha(s.cache[ChunkKey(call.id, i)].data)
      && meta.originalSize == |call.data| && meta.hash == setup.crypto.sha(call.data)
      && meta.totalShards == if meta.erasure then meta.totalChunks else 0
  {
    assert s.cache[ChunkKey(call.id, i)] == ChunksOf(setup, call)[i];
  }

  // ---------- what a get answers ----------

  /** Chunk j is the first that cannot be had. */
  ghost predicate FirstBad(setup: Setup, s: Store, fetch: string -> Fetched, id: string, i: nat, j: nat, n: nat) {
    && i <= j < n && ReadShard(setup.crypto, setup.KeyFor(id), s.cache, fetch, id, j) == None
    && forall m :: i <= m < j ==> ReadShard(setup.crypto, setup.KeyFor(id), s.cache, fetch, id, m).Some?
  }

  function ProblemAt(s: Store, fetch: string -> Fetched, id: string, j: nat): Error {
    match GetChunk(s.cache, fetch, id, j)
    case Missing => ChunkMissing(j)
    case FetchFailed => DhtFailed(j)
    case Found(_) => DecryptFailed(j)
  }

  lemma {:induction false} ReadStopsAt(setup: Setup, s: Store, fetch: string -> Fetched, id: string,
                                       i: nat, j: nat, n: nat, sofar: Bytes)
    requires FirstBad(setup, s, fetch, id, i, j, n)
    ensures ReadChunks(setup.crypto, setup.KeyFor(id), s.cache, fetch, id, i, n, sofar)
         == Bad(ProblemAt(s, fetch, id, j))
    decreases j - i
  {
    if i < j {
      var plain := ReadShard(setup.crypto, setup.KeyFor(id), s.cache, fetch, id, i).value;
      ReadStopsAt(setup, s, fetch, id, i + 1, j, n, sofar + plain);
    }
  }

  /** A chunked object whose metadata is there: the first chunk that is missing, unreachable or
      undecryptable is reported; if all can be had, their concatenation is the answer exactly
      when it has the recorded hash. */
  lemma GetAnswers(setup: Setup, s: Store, id: string, fetch: string -> Fetched, pieces: seq<Bytes>)
    requires id in s.metadata && !s.metadata[id].erasure && |pieces| == s.metadata[id].totalChunks
    ensures forall j: nat :: FirstBad(setup, s, fetch, id, 0, j, |pieces|) ==>
      Get(setup, s, id, true, fetch) == (s, Error(ProblemAt(s, fetch, id, j)))
    ensures (forall j :: 0 <= j < |pieces| ==>
               ReadShard(setup.crypto, setup.KeyFor(id), s.cache, fetch, id, j) == Some(pieces[j])) ==>
      Get(setup, s, id, true, fetch).1
        == if setup.crypto.sha(Flatten(pieces)) == s.metadata[id].hash then Object(Flatten(pieces))
           else Error(IntegrityFailed)
  {
    forall j: nat | FirstBad(setup, s, fetch, id, 0, j, |pieces|)
      ensures Get(setup, s, id, true, fetch) == (s, Error(ProblemAt(s, fetch, id, j)))
    {
      ReadStopsAt(setup, s, fetch, id, 0, j, |pieces|, []);
    }
    if forall j :: 0 <= j < |pieces| ==>
         ReadShard(setup.crypto, setup.KeyFor(id), s.cache, fetch, id, j) == Some(pieces[j]) {
      ReadChunksBack(setup.crypto, setup.KeyFor(id), s.cache, fetch, id, pieces, 0, []);
      assert pieces[0..] == pieces && [] + Flatten(pieces) == Flatten(pieces);
    }
  }

  lemma {:induction false} ReadErrors(c: Crypto, key: Key, cache: map<string, Chunk>, fetch: string -> Fetched,
                                      id: string, i: nat, n: nat, sofar: Bytes)
    requires i <= n
    ensures var r := ReadChunks(c, key, cache, fetch, id, i, n, sofar);
      r.Bad? ==> r.error.ChunkMissing? || r.error.DhtFailed? || r.error.DecryptFailed?
    decreases n - i
  {
    if i < n && ReadShard(c, key, cache, fetch, id, i).Some? {
      ReadErrors(c, key, cache, fetch, id, i + 1, n, sofar + ReadShard(c, key, cache, fetch, id, i).value);
    }
  }

  /** Failing to load the metadata and not finding any are reported as such, and nothing else is. */
  lemma GetNeedsMetadata(setup: Setup, s: Store, id: string, loaded: bool, fetch: string -> Fetched)
    ensures var answer := Get(setup, s, id, loaded, fetch).1;
      && (answer == Error(LoadFailed) <==> !loaded)
      && (answer == Error(MetadataMissing) <==> loaded && id !in s.metadata)
  {
    if loaded && id in s.metadata {
      ReadErrors(setup.crypto, setup.KeyFor(id), s.cache, fetch, id, 0, s.metadata[id].totalChunks, []);
    }
  }

  /** Only an object that is handed out is counted as served. */
  lemma GetCounts(setup: Setup, s: Store, id: string, loaded: bool, fetch: string -> Fetched)
    ensures var (s', answer) := Get(setup, s, id, loaded, fetch); var t, t' := s.stats, s'.stats;
      && s' == s.(stats := t')
      && (!answer.Object? ==> t' == t)
      && (answer.Object? ==>
            && id in s.metadata
            && t' == t.(chunksServed := t.chunksServed + s.metadata[id].totalChunks,
                        bytesServed := t.bytesServed + |answer.data|))
  {
  }

  // ---------- a put of the same id ----------

  /** The put gets as far as replacing the metadata. */
  ghost predicate ReplacesMetadata(setup: Setup, call: PutCall)
    requires setup.Valid()
  {
    |call.data| <= setup.maxObjectSize && PlanFor(setup, call.data).Plan? && call.saved != InsertFailed
  }

  /** A put of the same id with other data, however it ends: the object held before still reads
      back exactly when that put stopped before replacing the metadata. */
  lemma SameIdPut(setup: Setup, s: Store, before: PutCall, call: PutCall, fetch: string -> Fetched)
    requires setup.Valid() && Held(setup, s, before) && call.id == before.id
    requires setup.crypto.sha(before.data) != setup.crypto.sha(call.data)
    ensures Get(setup, Put(setup, s, call).0, call.id, true, fetch).1 == Object(before.data)
       <==> !ReplacesMetadata(setup, call)
  {
    if !ReplacesMetadata(setup, call) {
      assert Put(setup, s, call).0 == s;
      GetHeld(setup, s, before, fetch);
    } else {
      assert Put(setup, s, call).0.metadata[call.id].hash == setup.crypto.sha(call.data);
    }
  }

  /** When a put panics: exactly on the erasure path, for a length whose slices overrun. */
  lemma PutPanics(setup: Setup, s: Store, call: PutCall)
    requires setup.Valid()
    ensures Put(setup, s, call).1 == Panic <==>
      |call.data| <= setup.maxObjectSize && setup.useErasure && setup.encoder.Some?
      && !InBounds(|call.data|, setup.encoder.value.k)
  {
  }
}
