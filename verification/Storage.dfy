/** Object storage: src/storage_layer, as values.  Cryptography and the Reed-Solomon
    library are parameters; the random nonces, the outcome of every write and the
    answers of the DHT are inputs. */
module Storage {
  import opened Basics
  import Decimal

  // ---------- the parameters ----------

  type Key = Bytes
  type Nonce = Bytes

  datatype Crypto = Crypto(
    sha: Bytes -> string,
    objectKey: (Bytes, string) -> Key,
    enc: (Key, Nonce, Bytes) -> Bytes,
    dec: (Key, Nonce, Bytes) -> Option<Bytes>)
  {
    ghost predicate Opens(k: Key, n: Nonce, p: Bytes) { dec(k, n, enc(k, n, p)) == Some(p) }
  }

  /** Decryption under the same key and nonce undoes encryption. */
  ghost predicate IsAead(c: Crypto) { forall k, n, p :: c.Opens(k, n, p) }

  /** k data shards and m parity shards; `encode` fills in the parity, `reconstruct`
      the missing shards. */
  datatype Code = Code(k: nat, m: nat,
    encode: seq<Bytes> -> Option<seq<Bytes>>,
    reconstruct: seq<Option<Bytes>> -> Option<seq<Option<Bytes>>>)
  {
    /** Encoding keeps the number of shards and leaves the data shards alone. */
    ghost predicate Systematic(shards: seq<Bytes>) {
      |shards| == k + m && encode(shards).Some? ==>
        |encode(shards).value| == k + m && encode(shards).value[..k] == shards[..k]
    }

    /** Any k shards of a code word bring back all of it. */
    ghost predicate Recovers(shards: seq<Bytes>, some: seq<Option<Bytes>>) {
      |shards| == k + m && encode(shards).Some? && PartOf(some, encode(shards).value) && Present(some) >= k ==>
        reconstruct(some) == Some(AllPresent(encode(shards).value))
    }
  }

  ghost predicate PartOf(some: seq<Option<Bytes>>, all: seq<Bytes>) {
    |some| == |all| && forall i :: 0 <= i < |all| ==> some[i] == None || some[i] == Some(all[i])
  }

  ghost function Present(some: seq<Option<Bytes>>): nat {
    if some == [] then 0 else Present(some[1..]) + if some[0].Some? then 1 else 0
  }

  ghost function AllPresent(all: seq<Bytes>): seq<Option<Bytes>> {
    seq(|all|, i requires 0 <= i < |all| => Some(all[i]))
  }

  ghost predicate IsCode(c: Code) {
    && c.k > 0
    && (forall shards :: c.Systematic(shards))
    && (forall shards, some :: c.Recovers(shards, some))
  }

  // ---------- chunks ----------

  datatype Chunk = Chunk(objectId: string, index: nat, data: Bytes, nonce: Nonce, hash: string)

  function ChunkKey(objectId: string, index: nat): string { objectId + ":" + Decimal.Show(index) }

  lemma LastColon(id: string, i: nat, p: nat)
    requires |id| < p < |ChunkKey(id, i)|
    ensures ChunkKey(id, i)[|id|] == ':' && ChunkKey(id, i)[p] != ':'
  {
  }

  /** Ids may contain ':' themselves: the digits after the last one tell where it is. */
  lemma ChunkKeyInjective(id: string, i: nat, id': string, i': nat)
    requires ChunkKey(id, i) == ChunkKey(id', i')
    ensures id == id' && i == i'
  {
    var d, d' := Decimal.Show(i), Decimal.Show(i');
    var key := ChunkKey(id, i);
    LastColon(id, i, |key| - 1);
    LastColon(id', i', |key| - 1);
    forall p | |id| < p < |key| ensures key[p] != ':' { LastColon(id, i, p); }
    forall p | |id'| < p < |key| ensures key[p] != ':' { LastColon(id', i', p); }
    assert |id| == |id'|;
    assert key[..|id|] == id && key[..|id|] == id';
    assert key[|id| + 1..] == d && key[|id| + 1..] == d';
    Decimal.ShowInjective(i, i');
  }

  function Encrypt(c: Crypto, objectId: string, index: nat, plain: Bytes, key: Key, nonce: Nonce): Chunk {
    var data := c.enc(key, nonce, plain);
    Chunk(objectId, index, data, nonce, c.sha(data))
  }

  function Decrypt(c: Crypto, chunk: Chunk, key: Key): Option<Bytes> {
    if c.sha(chunk.data) != chunk.hash then None else c.dec(key, chunk.nonce, chunk.data)
  }

  lemma DecryptEncrypt(c: Crypto, objectId: string, index: nat, plain: Bytes, key: Key, nonce: Nonce)
    requires IsAead(c)
    ensures Decrypt(c, Encrypt(c, objectId, index, plain, key, nonce), key) == Some(plain)
  {
    assert c.Opens(key, nonce, plain);
  }

  /** A chunk whose data does not have the hash it carries is refused, whatever the key. */
  lemma TamperedChunkIsRefused(c: Crypto, chunk: Chunk, key: Key)
    requires c.sha(chunk.data) != chunk.hash
    ensures Decrypt(c, chunk, key) == None
  {
  }

  /** `slice::chunks`. */
  function Pieces(data: Bytes, size: nat): (ps: seq<Bytes>)
    requires size > 0
    decreases |data|
  {
    if data == [] then [] else if |data| <= size then [data] else [data[..size]] + Pieces(data[size..], size)
  }

  lemma {:induction false} PiecesFlatten(data: Bytes, size: nat)
    requires size > 0
    ensures Flatten(Pieces(data, size)) == data
    decreases |data|
  {
    if |data| > size {
      PiecesFlatten(data[size..], size);
      assert Pieces(data, size)[1..] == Pieces(data[size..], size);
      assert data == data[..size] + data[size..];
    } else if data != [] {
      assert [data][1..] == [];
    }
  }

  // ---------- erasure coding ----------

  function ShardSize(len: nat, k: nat): nat
    requires k > 0
  {
    (len + k - 1) / k
  }

  /** The slices taken by `encode` stay inside the data. */
  predicate InBounds(len: nat, k: nat)
    requires k > 0
  {
    (k - 1) * ShardSize(len, k) <= len
  }

  /** With the default four data shards only three lengths are affected. */
  lemma FourShardsInBounds(len: nat)
    ensures InBounds(len, 4) <==> len !in {1, 2, 5}
  {
  }

  function Zeros(n: nat): Bytes { seq(n, _ => 0) }

  function Min(a: int, b: int): int { if a < b then a else b }

  /** The i-th data shard, padded with zeros. */
  function DataShard(data: Bytes, size: nat, i: nat): (s: Bytes)
    requires i * size <= |data|
    ensures |s| == size
  {
    var end := Min(i * size + size, |data|);
    data[i * size..end] + Zeros(size - (end - i * size))
  }

  lemma ShardStart(i: nat, k: nat, size: nat)
    requires i < k
    ensures i * size <= (k - 1) * size
  {
  }

  function DataShards(data: Bytes, k: nat): (s: seq<Bytes>)
    requires k > 0 && InBounds(|data|, k)
    ensures |s| == k
  {
    var size := ShardSize(|data|, k);
    seq(k, i requires 0 <= i < k => ShardStart(i, k, size); DataShard(data, size, i))
  }

  /** The data shards followed by empty parity shards. */
  function EncoderInput(data: Bytes, k: nat, m: nat): (input: seq<Bytes>)
    requires k > 0 && InBounds(|data|, k)
    ensures |input| == k + m && input[..k] == DataShards(data, k)
  {
    DataShards(data, k) + seq(m, _ => Zeros(ShardSize(|data|, k)))
  }

  datatype Encoded = Shards(shards: seq<Bytes>) | Failed | Panicked

  /** What `ErasureEncoder::encode` does; a slice out of bounds panics. */
  function ErasureEncode(c: Code, data: Bytes): Encoded
    requires c.k > 0
  {
    if !InBounds(|data|, c.k) then Panicked
    else
      match c.encode(EncoderInput(data, c.k, c.m))
      case None => Failed
      case Some(shards) => Shards(shards)
  }

  /** Joins the data shards of a reconstruction; None if one is still missing. */
  function JoinShards(shards: seq<Option<Bytes>>): Option<Bytes> {
    if shards == [] then Some([])
    else
      match (shards[0], JoinShards(shards[1..]))
      case (Some(s), Some(rest)) => Some(s + rest)
      case _ => None
  }

  function ErasureDecode(c: Code, shards: seq<Option<Bytes>>, originalSize: nat): Option<Bytes> {
    match c.reconstruct(shards)
    case None => None
    case Some(all) =>
      match JoinShards(if |all| < c.k then all else all[..c.k])
      case None => None
      case Some(data) => Some(if originalSize < |data| then data[..originalSize] else data)
  }

  /** The shards up to the j-th hold the data up to there; only the last is padded. */
  lemma {:induction false} ShardsHoldData(data: Bytes, k: nat, j: nat)
    requires k > 0 && InBounds(|data|, k) && j < k
    ensures j * ShardSize(|data|, k) <= |data|
    ensures Flatten(DataShards(data, k)[..j]) == data[..j * ShardSize(|data|, k)]
  {
    var size, shards := ShardSize(|data|, k), DataShards(data, k);
    ShardStart(j, k, size);
    if j != 0 {
      ShardsHoldData(data, k, j - 1);
      assert shards[..j] == shards[..j - 1] + [shards[j - 1]];
      FlattenSnoc(shards[..j - 1], shards[j - 1]);
      assert (j - 1) * size + size == j * size;
      assert shards[j - 1] == data[(j - 1) * size..j * size];
    }
  }

  lemma LastShardReachesEnd(len: nat, k: nat)
    requires k > 0
    ensures (k - 1) * ShardSize(len, k) + ShardSize(len, k) >= len
  {
  }

  lemma AllShardsHoldData(data: Bytes, k: nat)
    requires k > 0 && InBounds(|data|, k)
    ensures |data| <= |Flatten(DataShards(data, k))| && Flatten(DataShards(data, k))[..|data|] == data
  {
    var size, shards := ShardSize(|data|, k), DataShards(data, k);
    ShardsHoldData(data, k, k - 1);
    assert shards == shards[..k - 1] + [shards[k - 1]];
    FlattenSnoc(shards[..k - 1], shards[k - 1]);
    LastShardReachesEnd(|data|, k);
    var start := (k - 1) * size;
    assert shards[k - 1][..|data| - start] == data[start..];
    assert data == data[..start] + data[start..];
  }

  lemma {:induction false} JoinAllPresent(all: seq<Bytes>)
    ensures JoinShards(AllPresent(all)) == Some(Flatten(all))
  {
    if all != [] {
      assert AllPresent(all)[1..] == AllPresent(all[1..]);
      JoinAllPresent(all[1..]);
    }
  }

  lemma EncodedIs(c: Code, data: Bytes)
    requires IsCode(c) && ErasureEncode(c, data).Shards?
    ensures InBounds(|data|, c.k)
    ensures c.encode(EncoderInput(data, c.k, c.m)) == Some(ErasureEncode(c, data).shards)
    ensures |ErasureEncode(c, data).shards| == c.k + c.m
    ensures ErasureEncode(c, data).shards[..c.k] == DataShards(data, c.k)
  {
    assert c.Systematic(EncoderInput(data, c.k, c.m));
  }

  /** Any k of the k + m shards decode to the data. */
  lemma DecodeEncoded(c: Code, data: Bytes, some: seq<Option<Bytes>>)
    requires IsCode(c) && ErasureEncode(c, data).Shards?
    requires PartOf(some, ErasureEncode(c, data).shards) && Present(some) >= c.k
    ensures ErasureDecode(c, some, |data|) == Some(data)
  {
    var all := ErasureEncode(c, data).shards;
    EncodedIs(c, data);
    assert c.Recovers(EncoderInput(data, c.k, c.m), some);
    assert AllPresent(all)[..c.k] == AllPresent(all[..c.k]);
    JoinAllPresent(DataShards(data, c.k));
    AllShardsHoldData(data, c.k);
    var joined := Flatten(DataShards(data, c.k));
    assert joined[..|joined|] == joined;
  }
}
