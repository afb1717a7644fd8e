/** Onion packets: src/onion.rs.  Diffie-Hellman agreement, the AEAD, Base64 and the JSON
    serializer are parameters; ephemeral secrets and nonces are inputs, one per hop. */
module Onion {
  import opened Basics

  // ---------- the parameters ----------

  type Secret = Bytes

  datatype Layer = Layer(payload: Bytes, ephemeralPk: string, nextHop: string)

  datatype Primitives = Primitives(
    pub: Secret -> Bytes,
    agree: (Secret, Bytes) -> Bytes,
    deriveKey: Bytes -> Bytes,
    seal: (Bytes, Bytes, Bytes) -> Option<Bytes>,
    open: (Bytes, Bytes, Bytes) -> Option<Bytes>,
    toBase64: Bytes -> string,
    fromBase64: string -> Option<Bytes>,
    toJson: Layer -> Option<Bytes>,
    fromJson: Bytes -> Option<Layer>,
    certifies: (Bytes, string, Bytes) -> bool)
  {
    ghost predicate Agrees(a: Secret, b: Secret) { agree(a, pub(b)) == agree(b, pub(a)) }
    ghost predicate PubLength(a: Secret) { |pub(a)| == 32 }
    ghost predicate Opens(k: Bytes, n: Bytes, p: Bytes) {
      seal(k, n, p).Some? ==> open(k, n, seal(k, n, p).value) == Some(p)
    }
    ghost predicate Decodes(b: Bytes) { fromBase64(toBase64(b)) == Some(b) }
    ghost predicate Parses(l: Layer) { toJson(l).Some? ==> fromJson(toJson(l).value) == Some(l) }
  }

  /** Section 6.1 of RFC 7748, section 2.8 of RFC 8439, and formats that undo themselves. */
  ghost predicate Lawful(P: Primitives) {
    && (forall a, b :: P.Agrees(a, b))
    && (forall a :: P.PubLength(a))
    && (forall k, n, p :: P.Opens(k, n, p))
    && (forall b :: P.Decodes(b))
    && (forall l :: P.Parses(l))
  }

  datatype Error =
    | EmptyRoute | InvalidHops | InvalidPublicKey | CryptoError | EncryptionError
    | SerializationError | InvalidEphemeralKey | DecryptionFailed | InvalidFormat

  datatype Result<T> = Ok(value: T) | Err(error: Error)

  // ---------- padding ----------

  function Pad(payload: Bytes, blockSize: nat): Bytes {
    var block := if blockSize < 1 then 1 else blockSize;
    var padLen := if |payload| % block == 0 then 0 else block - |payload| % block;
    var len := |payload| % 0x1_0000;
    [(len % 256) as byte, (len / 256) as byte] + payload + seq(padLen, _ => 0)
  }

  function Unpad(padded: Bytes): Result<Bytes> {
    if |padded| < 2 then Err(InvalidFormat)
    else
      var len := padded[0] as nat + 256 * padded[1] as nat;
      if 2 + len > |padded| then Err(InvalidFormat) else Ok(padded[2..2 + len])
  }

  /** The length prefix is a u16: longer payloads come back cut to their length modulo 2^16. */
  lemma UnpadPad(payload: Bytes, blockSize: nat)
    ensures Unpad(Pad(payload, blockSize)) == Ok(payload[..|payload| % 0x1_0000])
    ensures Unpad(Pad(payload, blockSize)) == Ok(payload) <==> |payload| <= 65535
  {
    var len := |payload| % 0x1_0000;
    var padded := Pad(payload, blockSize);
    assert padded[0] as nat + 256 * padded[1] as nat == len;
    assert padded[2..2 + len] == payload[..len];
    if |payload| <= 65535 { assert payload[..len] == payload; }
  }

  ghost predicate IsMultiple(n: nat, block: nat) { exists q: nat :: n == q * block }

  /** After the two length bytes come the payload and zeros only, as few as fill up the last
      block; block sizes below one count as one. */
  lemma PadFillsTheBlock(payload: Bytes, blockSize: nat)
    ensures var padded := Pad(payload, blockSize); var block := if blockSize < 1 then 1 else blockSize;
      && |padded| >= 2 + |payload| && padded[2..2 + |payload|] == payload
      && IsMultiple(|padded| - 2, block) && |padded| - 2 - |payload| < block
      && (forall i :: 2 + |payload| <= i < |padded| ==> padded[i] == 0)
  {
    FillsUp(|payload|, if blockSize < 1 then 1 else blockSize);
  }

  lemma FillsUp(n: nat, block: nat)
    requires block > 0
    ensures IsMultiple(n + if n % block == 0 then 0 else block - n % block, block)
  {
    var q, r := n / block, n % block;
    assert n == q * block + r;
    if r != 0 {
      assert n + (block - r) == (q + 1) * block;
    }
  }

  /** What unpadding takes out is what the length bytes say, and it fails exactly when they say
      more than there is. */
  lemma UnpadReads(padded: Bytes)
    ensures Unpad(padded).Err? <==> |padded| < 2 || 2 + padded[0] as nat + 256 * padded[1] as nat > |padded|
    ensures Unpad(padded).Ok? ==>
      |Unpad(padded).value| == padded[0] as nat + 256 * padded[1] as nat && Unpad(padded).value <= padded[2..]
  {
  }

  // ---------- one layer ----------

  function EncryptLayer(P: Primitives, payload: Bytes, peerPk: Bytes, nextHop: string,
                        eph: Secret, nonce: Bytes): Result<Layer> {
    var key := P.deriveKey(P.agree(eph, peerPk));
    if key == seq(32, _ => 0) then Err(CryptoError)
    else
      match P.seal(key, nonce, payload)
      case None => Err(EncryptionError)
      case Some(sealed) => Ok(Layer(nonce + sealed, P.toBase64(P.pub(eph)), nextHop))
  }

  function DecryptPayload(P: Primitives, payload: Bytes, key: Bytes): Result<Bytes> {
    if |payload| < 12 then Err(DecryptionFailed)
    else
      match P.open(key, payload[..12], payload[12..])
      case None => Err(DecryptionFailed)
      case Some(plain) => Ok(plain)
  }

  function PeelLayer(P: Primitives, layer: Layer, sk: Secret): Result<(string, Bytes)> {
    match P.fromBase64(layer.ephemeralPk)
    case None => Err(InvalidEphemeralKey)
    case Some(pk) =>
      if |pk| != 32 then Err(InvalidEphemeralKey)
      else
        match DecryptPayload(P, layer.payload, P.deriveKey(P.agree(sk, pk)))
        case Err(e) => Err(e)
        case Ok(plain) => Ok((layer.nextHop, plain))
  }

  /** The holder of the hop's secret peels off exactly what was wrapped. */
  lemma PeelEncrypted(P: Primitives, payload: Bytes, sk: Secret, nextHop: string, eph: Secret, nonce: Bytes)
    requires Lawful(P) && |nonce| == 12
    requires EncryptLayer(P, payload, P.pub(sk), nextHop, eph, nonce).Ok?
    ensures PeelLayer(P, EncryptLayer(P, payload, P.pub(sk), nextHop, eph, nonce).value, sk) == Ok((nextHop, payload))
  {
    var key := P.deriveKey(P.agree(eph, P.pub(sk)));
    assert P.Agrees(eph, sk) && P.PubLength(eph) && P.Decodes(P.pub(eph)) && P.Opens(key, nonce, payload);
    var sealed := P.seal(key, nonce, payload).value;
    assert (nonce + sealed)[..12] == nonce && (nonce + sealed)[12..] == sealed;
  }

  /** Which error a layer gives: a bad ephemeral key, or a payload that does not open. */
  lemma PeelIsRefused(P: Primitives, layer: Layer, sk: Secret)
    ensures var pk := P.fromBase64(layer.ephemeralPk); var r := PeelLayer(P, layer, sk);
      && (r == Err(InvalidEphemeralKey) <==> pk.None? || |pk.value| != 32)
      && (r == Err(DecryptionFailed) <==>
            && pk.Some? && |pk.value| == 32
            && (|layer.payload| < 12
                || P.open(P.deriveKey(P.agree(sk, pk.value)), layer.payload[..12], layer.payload[12..]).None?))
      && (r.Err? ==> r == Err(InvalidEphemeralKey) || r == Err(DecryptionFailed))
  {
  }

  /** A derived key of zeros only is refused before anything is sealed. */
  lemma ZeroKeyIsRefused(P: Primitives, payload: Bytes, peerPk: Bytes, nextHop: string, eph: Secret, nonce: Bytes)
    ensures EncryptLayer(P, payload, peerPk, nextHop, eph, nonce) == Err(CryptoError)
       <==> var key := P.deriveKey(P.agree(eph, peerPk)); |key| == 32 && forall i :: 0 <= i < |key| ==> key[i] == 0
  {
    var key, zeros := P.deriveKey(P.agree(eph, peerPk)), seq(32, _ => 0 as byte);
    if |key| == 32 && forall i :: 0 <= i < |key| ==> key[i] == 0 { assert key == zeros; }
  }

  // ---------- the whole packet ----------

  datatype Hop = Hop(peerId: string, pubkey: string, cert: string)

  /** Without an authority key nothing is checked. */
  function VerifyHop(P: Primitives, hop: Hop, authority: Option<Bytes>): Option<Error> {
    if authority.None? then None
    else if hop.cert == "" then Some(InvalidPublicKey)
    else
      match P.fromBase64(hop.cert)
      case None => Some(InvalidPublicKey)
      case Some(sig) =>
        if |sig| != 64 || !P.certifies(authority.value, "ESS-HOP-BIND-v1:" + hop.peerId + ":" + hop.pubkey, sig)
        then Some(InvalidPublicKey) else None
  }

  function NextHop(hops: seq<Hop>, i: nat): string { if i + 1 < |hops| then hops[i + 1].peerId else "" }

  datatype Wrapped = Wrapped(layer: Layer, bytes: Bytes)

  /** Inputs drawn at random, by hop. */
  datatype Draw = Draw(eph: nat -> Secret, nonce: nat -> Bytes)

  function WrapOne(P: Primitives, hops: seq<Hop>, i: nat, payload: Bytes, draw: Draw): Result<Wrapped>
    requires i < |hops|
  {
    match P.fromBase64(hops[i].pubkey)
    case None => Err(InvalidPublicKey)
    case Some(pk) =>
      if |pk| != 32 then Err(InvalidPublicKey)
      else
        match EncryptLayer(P, payload, pk, NextHop(hops, i), draw.eph(i), draw.nonce(i))
        case Err(e) => Err(e)
        case Ok(layer) =>
          match P.toJson(layer)
          case None => Err(SerializationError)
          case Some(bytes) => Ok(Wrapped(layer, bytes))
  }

  /** The layers from hop i to the destination. */
  function WrapFrom(P: Primitives, hops: seq<Hop>, i: nat, padded: Bytes, draw: Draw): Result<Wrapped>
    requires i < |hops|
    decreases |hops| - i
  {
    if i + 1 == |hops| then WrapOne(P, hops, i, padded, draw)
    else
      match WrapFrom(P, hops, i + 1, padded, draw)
      case Err(e) => Err(e)
      case Ok(inner) => WrapOne(P, hops, i, inner.bytes, draw)
  }

  function FirstUnverified(P: Primitives, hops: seq<Hop>, authority: Option<Bytes>): Option<Error> {
    if hops == [] then None
    else if VerifyHop(P, hops[0], authority).Some? then VerifyHop(P, hops[0], authority)
    else FirstUnverified(P, hops[1..], authority)
  }

  function Packet(P: Primitives, hops: seq<Hop>, payload: Bytes, padding: nat,
                  authority: Option<Bytes>, draw: Draw): Result<Layer> {
    if hops == [] then Err(EmptyRoute)
    else if |hops| < 2 then Err(InvalidHops)
    else if FirstUnverified(P, hops, authority).Some? then Err(FirstUnverified(P, hops, authority).value)
    else
      match WrapFrom(P, hops, 0, Pad(payload, padding), draw)
      case Err(e) => Err(e)
      case Ok(w) => Ok(w.layer)
  }

  method BuildOnionPacket(P: Primitives, hops: seq<Hop>, payload: Bytes, padding: nat,
                          authority: Option<Bytes>, draw: Draw)
    returns (r: Result<Layer>)
    ensures r == Packet(P, hops, payload, padding, authority, draw)
  {
    if hops == [] {
      return Err(EmptyRoute);
    }
    if |hops| < 2 {
      return Err(InvalidHops);
    }
    assert hops[0..] == hops;
    for i := 0 to |hops|
      invariant FirstUnverified(P, hops[i..], authority) == FirstUnverified(P, hops, authority)
    {
      assert hops[i..][1..] == hops[i + 1..];
      var refused := VerifyHop(P, hops[i], authority);
      if refused.Some? {
        return Err(refused.value);
      }
    }
    var padded := Pad(payload, padding);
    var current := padded;
    var outer: Option<Layer> := None;
    for i := |hops| downto 0
      invariant outer.None? <==> i == |hops|
      invariant i == |hops| ==> current == padded
      invariant i < |hops| ==> WrapFrom(P, hops, i, padded, draw) == Ok(Wrapped(outer.value, current))
    {
      var wrapped := WrapOne(P, hops, i, current, draw);
      if wrapped.Err? {
        WrapFails(P, hops, i, padded, draw);
        return Err(wrapped.error);
      }
      outer, current := Some(wrapped.value.layer), wrapped.value.bytes;
    }
    r := Ok(outer.value);
  }

  /** A layer that fails makes every layer around it fail the same way. */
  lemma {:induction false} WrapFails(P: Primitives, hops: seq<Hop>, i: nat, padded: Bytes, draw: Draw)
    requires i < |hops| && WrapFrom(P, hops, i, padded, draw).Err?
    ensures WrapFrom(P, hops, 0, padded, draw) == WrapFrom(P, hops, i, padded, draw)
  {
    if i != 0 {
      WrapFails(P, hops, i - 1, padded, draw);
    }
  }

  // ---------- travelling along the route ----------

  datatype Journey = Journey(nextHops: seq<string>, payload: Bytes)

  /** Every hop peels its layer and passes the rest on; the last keeps the payload. */
  function Travel(P: Primitives, keys: seq<Secret>, layer: Layer): Option<Journey> {
    if keys == [] then None
    else
      match PeelLayer(P, layer, keys[0])
      case Err(_) => None
      case Ok((next, plain)) =>
        if |keys| == 1 then Some(Journey([next], plain))
        else
          match P.fromJson(plain)
          case None => None
          case Some(inner) =>
            match Travel(P, keys[1..], inner)
            case None => None
            case Some(rest) => Some(Journey([next] + rest.nextHops, rest.payload))
  }

  ghost predicate KeysFit(P: Primitives, hops: seq<Hop>, keys: seq<Secret>) {
    |keys| == |hops| && forall i :: 0 <= i < |hops| ==> P.toBase64(P.pub(keys[i])) == hops[i].pubkey
  }

  ghost function NextHops(hops: seq<Hop>, i: nat): seq<string>
    requires i <= |hops|
    decreases |hops| - i
  {
    if i == |hops| then [] else [NextHop(hops, i)] + NextHops(hops, i + 1)
  }

  lemma {:induction false} TravelWrapped(P: Primitives, hops: seq<Hop>, keys: seq<Secret>, i: nat,
                                         padded: Bytes, draw: Draw)
    requires Lawful(P) && KeysFit(P, hops, keys) && i < |hops|
    requires forall j :: |draw.nonce(j)| == 12
    requires WrapFrom(P, hops, i, padded, draw).Ok?
    ensures Travel(P, keys[i..], WrapFrom(P, hops, i, padded, draw).value.layer)
         == Some(Journey(NextHops(hops, i), padded))
    decreases |hops| - i
  {
    var last := i + 1 == |hops|;
    var inner := if last then padded else WrapFrom(P, hops, i + 1, padded, draw).value.bytes;
    PeelWrapped(P, hops, keys, i, inner, draw);
    if last {
      assert NextHops(hops, i) == [NextHop(hops, i)];
    } else {
      var layer := WrapFrom(P, hops, i + 1, padded, draw).value.layer;
      WrappedBytes(P, hops, i + 1, padded, draw);
      assert P.Parses(layer);
      TravelWrapped(P, hops, keys, i + 1, padded, draw);
      assert keys[i..][1..] == keys[i + 1..];
    }
  }

  lemma PeelWrapped(P: Primitives, hops: seq<Hop>, keys: seq<Secret>, i: nat, inner: Bytes, draw: Draw)
    requires Lawful(P) && KeysFit(P, hops, keys) && i < |hops| && |draw.nonce(i)| == 12
    requires WrapOne(P, hops, i, inner, draw).Ok?
    ensures PeelLayer(P, WrapOne(P, hops, i, inner, draw).value.layer, keys[i]) == Ok((NextHop(hops, i), inner))
  {
    assert P.Decodes(P.pub(keys[i])) && P.PubLength(keys[i]);
    PeelEncrypted(P, inner, keys[i], NextHop(hops, i), draw.eph(i), draw.nonce(i));
  }

  lemma WrappedBytes(P: Primitives, hops: seq<Hop>, i: nat, padded: Bytes, draw: Draw)
    requires i < |hops| && WrapFrom(P, hops, i, padded, draw).Ok?
    ensures var w := WrapFrom(P, hops, i, padded, draw).value; P.toJson(w.layer) == Some(w.bytes)
  {
  }

  /** Under an authority key a hop passes exactly with a 64-byte signature of that authority over
      the pair of its peer id and its key; without one every hop passes. */
  lemma HopIsCertified(P: Primitives, hop: Hop, authority: Option<Bytes>)
    ensures VerifyHop(P, hop, authority) == None <==>
      authority.Some? ==>
        && hop.cert != "" && P.fromBase64(hop.cert).Some? && |P.fromBase64(hop.cert).value| == 64
        && P.certifies(authority.value, "ESS-HOP-BIND-v1:" + hop.peerId + ":" + hop.pubkey,
                       P.fromBase64(hop.cert).value)
    ensures VerifyHop(P, hop, authority).Some? ==> VerifyHop(P, hop, authority) == Some(InvalidPublicKey)
  {
  }

  ghost predicate AllVerified(P: Primitives, hops: seq<Hop>, authority: Option<Bytes>) {
    forall i :: 0 <= i < |hops| ==> VerifyHop(P, hops[i], authority).None?
  }

  lemma {:induction false} NoneUnverified(P: Primitives, hops: seq<Hop>, authority: Option<Bytes>)
    ensures FirstUnverified(P, hops, authority).None? <==> AllVerified(P, hops, authority)
  {
    if hops != [] {
      NoneUnverified(P, hops[1..], authority);
      assert forall i :: 0 <= i < |hops| - 1 ==> hops[1..][i] == hops[i + 1];
      assert AllVerified(P, hops, authority)
        <==> VerifyHop(P, hops[0], authority).None? && AllVerified(P, hops[1..], authority)
      by {
        if VerifyHop(P, hops[0], authority).None? && AllVerified(P, hops[1..], authority) {
          forall i | 0 <= i < |hops| ensures VerifyHop(P, hops[i], authority).None? {
            if i > 0 { assert hops[i] == hops[1..][i - 1]; }
          }
        }
      }
    }
  }

  /** Sealing and serializing succeed and no derived key is all zeros. */
  ghost predicate Capable(P: Primitives) {
    && (forall k, n, p :: P.seal(k, n, p).Some?)
    && (forall l :: P.toJson(l).Some?)
    && (forall s :: P.deriveKey(s) != seq(32, _ => 0))
  }

  lemma {:induction false} AllWrap(P: Primitives, hops: seq<Hop>, keys: seq<Secret>, i: nat, padded: Bytes, draw: Draw)
    requires Lawful(P) && Capable(P) && KeysFit(P, hops, keys) && i < |hops|
    ensures WrapFrom(P, hops, i, padded, draw).Ok?
    decreases |hops| - i
  {
    assert P.Decodes(P.pub(keys[i])) && P.PubLength(keys[i]);
    if i + 1 < |hops| { AllWrap(P, hops, keys, i + 1, padded, draw); }
  }

  /** A packet is built exactly for routes of two or more hops that are all certified. */
  lemma PacketIsBuilt(P: Primitives, hops: seq<Hop>, keys: seq<Secret>, payload: Bytes, padding: nat,
                      authority: Option<Bytes>, draw: Draw)
    requires Lawful(P) && Capable(P) && KeysFit(P, hops, keys)
    ensures Packet(P, hops, payload, padding, authority, draw).Ok? <==> |hops| >= 2 && AllVerified(P, hops, authority)
  {
    NoneUnverified(P, hops, authority);
    if |hops| >= 2 { AllWrap(P, hops, keys, 0, Pad(payload, padding), draw); }
  }

  lemma {:induction false} UnverifiedIsInvalid(P: Primitives, hops: seq<Hop>, authority: Option<Bytes>)
    ensures FirstUnverified(P, hops, authority).Some? ==>
      FirstUnverified(P, hops, authority) == Some(InvalidPublicKey)
  {
    if hops != [] { UnverifiedIsInvalid(P, hops[1..], authority); }
  }

  /** Which refusal: an empty route, a single hop, or a hop without its certificate. */
  lemma PacketIsRefused(P: Primitives, hops: seq<Hop>, payload: Bytes, padding: nat,
                        authority: Option<Bytes>, draw: Draw)
    ensures var r := Packet(P, hops, payload, padding, authority, draw);
      && (|hops| == 0 ==> r == Err(EmptyRoute)) && (|hops| == 1 ==> r == Err(InvalidHops))
      && (|hops| >= 2 && !AllVerified(P, hops, authority) ==> r == Err(InvalidPublicKey))
  {
    NoneUnverified(P, hops, authority);
    UnverifiedIsInvalid(P, hops, authority);
  }

  /** Along any route of two or more hops, every hop learns exactly the next one, the last
      learns that it is the last, and unpadding gives the payload back. */
  lemma PacketArrives(P: Primitives, hops: seq<Hop>, keys: seq<Secret>, payload: Bytes, padding: nat,
                      authority: Option<Bytes>, draw: Draw)
    requires Lawful(P) && KeysFit(P, hops, keys)
    requires forall j :: |draw.nonce(j)| == 12
    requires Packet(P, hops, payload, padding, authority, draw).Ok?
    ensures var journey := Travel(P, keys, Packet(P, hops, payload, padding, authority, draw).value);
      && journey.Some?
      && journey.value.nextHops == NextHops(hops, 0)
      && (Unpad(journey.value.payload) == Ok(payload) <==> |payload| <= 65535)
  {
    TravelWrapped(P, hops, keys, 0, Pad(payload, padding), draw);
    assert keys[0..] == keys;
    UnpadPad(payload, padding);
  }

  lemma {:induction false} NextHopsAre(hops: seq<Hop>, i: nat, j: nat)
    requires i <= |hops| && j < |hops| - i
    ensures |NextHops(hops, i)| == |hops| - i
    ensures NextHops(hops, i)[j] == if i + j + 1 < |hops| then hops[i + j + 1].peerId else ""
    decreases |hops| - i
  {
    if i + 1 < |hops| {
      NextHopsAre(hops, i + 1, if j == 0 then 0 else j - 1);
    }
  }
}
