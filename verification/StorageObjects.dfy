/** The storage layer's mutable objects, each method proved against ObjectStore. */
module StorageObjects {
  import opened Basics
  import opened Storage
  import opened ObjectStore

  // ---------- erasure.rs ----------

  method Encode(c: Code, data: Bytes) returns (r: Encoded)
    requires c.k > 0
    ensures r == ErasureEncode(c, data)
  {
    var size := ShardSize(|data|, c.k);
    var shards: seq<Bytes> := [];
    for i := 0 to c.k
      invariant |shards| == i
      invariant forall j :: 0 <= j < i ==> j * size <= |data| && shards[j] == DataShard(data, size, j)
    {
      var start := i * size;
      var end := Min(start + size, |data|);
      if end < start {
        ShardStart(i, c.k, size);
        return Panicked;
      }
      shards := shards + [data[start..end] + Zeros(size - (end - start))];
    }
    assert (c.k - 1) * size <= |data|;
    assert shards == DataShards(data, c.k);
    for p := 0 to c.m
      invariant |shards| == c.k + p && shards[..c.k] == DataShards(data, c.k)
      invariant forall j :: c.k <= j < |shards| ==> shards[j] == Zeros(size)
    {
      shards := shards + [Zeros(size)];
    }
    assert shards == EncoderInput(data, c.k, c.m);
    var coded := c.encode(shards);
    r := if coded.None? then Failed else Shards(coded.value);
  }

  method Decode(c: Code, shards: seq<Option<Bytes>>, originalSize: nat) returns (r: Option<Bytes>)
    ensures r == ErasureDecode(c, shards, originalSize)
  {
    var all := c.reconstruct(shards);
    if all.None? {
      return None;
    }
    var taken := if |all.value| < c.k then all.value else all.value[..c.k];
    var data: Bytes := [];
    assert taken[0..] == taken;
    assert forall rest: Bytes :: [] + rest == rest;
    for i := 0 to |taken|
      invariant JoinShards(taken) ==
                match JoinShards(taken[i..]) { case None => None case Some(rest) => Some(data + rest) }
    {
      assert taken[i..][1..] == taken[i + 1..];
      if taken[i].None? {
        return None;
      }
      ghost var before := data;
      data := data + taken[i].value;
      assert forall rest: Bytes :: before + (taken[i].value + rest) == data + rest;
    }
    assert data + [] == data;
    r := Some(if originalSize < |data| then data[..originalSize] else data);
  }

  // ---------- dht_store.rs ----------

  class DhtStore {
    var cache: map<string, Chunk>

    constructor ()
      ensures cache == map[]
    {
      cache := map[];
    }

    /** The chunk is cached before the network is asked, and stays cached if it refuses. */
    method PutChunk(chunk: Chunk, accepted: bool) returns (ok: bool)
      modifies this
      ensures cache == old(cache)[ChunkKey(chunk.objectId, chunk.index) := chunk] && ok == accepted
    {
      cache := cache[ChunkKey(chunk.objectId, chunk.index) := chunk];
      ok := accepted;
    }

    method Lookup(id: string, i: nat, fetch: string -> Fetched) returns (r: Fetched)
      ensures r == GetChunk(cache, fetch, id, i)
    {
      var key := ChunkKey(id, i);
      if key in cache {
        return Found(cache[key]);
      }
      r := fetch(key);
    }
  }

  // ---------- object.rs ----------

  class StorageLayer {
    const setup: Setup
    const dht: DhtStore
    var metadata: map<string, Meta>
    var stats: Stats

    ghost predicate Valid() { setup.Valid() }

    ghost function State(): Store
      reads this, dht
    {
      Store(metadata, dht.cache, stats)
    }

    constructor (setup: Setup, metadata: map<string, Meta>)
      requires setup.Valid()
      ensures Valid() && this.setup == setup && State() == Store(metadata, map[], Stats(0, 0, 0, 0, 0))
    {
      this.setup := setup;
      this.dht := new DhtStore();
      this.metadata := metadata;
      this.stats := Stats(0, 0, 0, 0, 0);
    }

    method PutObject(call: PutCall) returns (r: Response)
      requires Valid()
      modifies this, dht
      ensures (State(), r) == Put(setup, old(State()), call)
    {
      if |call.data| > setup.maxObjectSize {
        return Error(TooLarge);
      }
      if setup.useErasure && setup.encoder.Some? {
        var encoded := Encode(setup.encoder.value, call.data);
        match encoded {
          case Failed => return Error(EncodeFailed);
          case Panicked => return Panic;
          case Shards(shards) => r := PutPieces(call, shards, true);
        }
      } else {
        r := PutPieces(call, Pieces(call.data, setup.chunkSize), false);
      }
    }

    /** The common end of put_object_chunked and put_object_erasure. */
    method PutPieces(call: PutCall, pieces: seq<Bytes>, erasure: bool) returns (r: Response)
      requires Valid() && |call.data| <= setup.maxObjectSize && PlanFor(setup, call.data) == Plan(pieces, erasure)
      modifies this, dht
      ensures (State(), r) == Put(setup, old(State()), call)
    {
      var chunks := EncryptAll(setup.crypto, call.id, setup.KeyFor(call.id), pieces, call.nonce);
      var meta := MetaFor(setup, call, Plan(pieces, erasure), chunks);
      if call.saved == InsertFailed {
        return Error(MetadataFailed);
      }
      metadata := metadata[call.id := meta];
      if call.saved == FlushFailed {
        return Error(MetadataFailed);
      }
      r := StoreChunks(chunks, call.accepted);
    }

    method StoreChunks(chunks: seq<Chunk>, accepted: nat -> bool) returns (r: Response)
      modifies dht, this`stats
      ensures var p := Publish(old(dht.cache), chunks, accepted, 0);
        && dht.cache == p.0
        && (p.1.Some? ==> r == Error(StoreFailed(p.1.value)) && stats == old(stats))
        && (p.1.None? ==> r == Success && stats == old(stats).(
             objectsStored := old(stats).objectsStored + 1,
             chunksStored := old(stats).chunksStored + |chunks|,
             bytesStored := old(stats).bytesStored + TotalBytes(chunks)))
    {
      for i := 0 to |chunks|
        invariant Publish(dht.cache, chunks, accepted, i) == Publish(old(dht.cache), chunks, accepted, 0)
        invariant stats == old(stats)
      {
        var ok := dht.PutChunk(chunks[i], accepted(i));
        if !ok {
          return Error(StoreFailed(i));
        }
      }
      var bytes := SumBytes(chunks);
      stats := stats.(objectsStored := stats.objectsStored + 1, chunksStored := stats.chunksStored + |chunks|,
                      bytesStored := stats.bytesStored + bytes);
      r := Success;
    }

    static method SumBytes(chunks: seq<Chunk>) returns (sum: nat)
      ensures sum == TotalBytes(chunks)
    {
      sum := 0;
      for i := 0 to |chunks|
        invariant sum == TotalBytes(chunks[..i])
      {
        assert chunks[..i + 1][..i] == chunks[..i];
        sum := sum + |chunks[i].data|;
      }
      assert chunks[..|chunks|] == chunks;
    }

    method GetObject(id: string, loaded: bool, fetch: string -> Fetched) returns (r: Response)
      requires Valid()
      modifies this`stats
      ensures (State(), r) == Get(setup, old(State()), id, loaded, fetch)
    {
      if !loaded {
        return Error(LoadFailed);
      }
      if id !in metadata {
        return Error(MetadataMissing);
      }
      var meta := metadata[id];
      var read: Read;
      if meta.erasure {
        if setup.encoder.None? {
          return Error(NoDecoder);
        }
        var shards := CollectShards(id, meta.totalShards, fetch);
        var data := Decode(setup.encoder.value, shards, meta.originalSize);
        read := if data.None? then Bad(DecodeFailed) else Data(data.value);
      } else {
        read := CollectChunks(id, meta.totalChunks, fetch);
      }
      if read.Bad? {
        return Error(read.error);
      }
      if setup.crypto.sha(read.data) != meta.hash {
        return Error(IntegrityFailed);
      }
      stats := stats.(chunksServed := stats.chunksServed + meta.totalChunks,
                      bytesServed := stats.bytesServed + |read.data|);
      r := Object(read.data);
    }

    method CollectChunks(id: string, n: nat, fetch: string -> Fetched) returns (r: Read)
      ensures r == ReadChunks(setup.crypto, setup.KeyFor(id), dht.cache, fetch, id, 0, n, [])
    {
      var objectData: Bytes := [];
      var key := setup.KeyFor(id);
      for i := 0 to n
        invariant ReadChunks(setup.crypto, key, dht.cache, fetch, id, i, n, objectData)
               == ReadChunks(setup.crypto, key, dht.cache, fetch, id, 0, n, [])
      {
        var fetched := dht.Lookup(id, i, fetch);
        match fetched {
          case Missing => return Bad(ChunkMissing(i));
          case FetchFailed => return Bad(DhtFailed(i));
          case Found(chunk) =>
            var plain := Decrypt(setup.crypto, chunk, key);
            if plain.None? {
              return Bad(DecryptFailed(i));
            }
            objectData := objectData + plain.value;
        }
      }
      r := Data(objectData);
    }

    method CollectShards(id: string, n: nat, fetch: string -> Fetched) returns (shards: seq<Option<Bytes>>)
      ensures shards == ReadShards(setup.crypto, setup.KeyFor(id), dht.cache, fetch, id, n)
    {
      shards := seq(n, _ => None);
      var key := setup.KeyFor(id);
      for i := 0 to n
        invariant |shards| == n
        invariant forall j :: 0 <= j < i ==> shards[j] == ReadShard(setup.crypto, key, dht.cache, fetch, id, j)
        invariant forall j :: i <= j < n ==> shards[j] == None
      {
        var fetched := dht.Lookup(id, i, fetch);
        if fetched.Found? {
          var plain := Decrypt(setup.crypto, fetched.chunk, key);
          if plain.Some? {
            shards := shards[i := plain];
          }
        }
      }
    }
  }
}
