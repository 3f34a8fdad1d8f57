/**
 Onion routing: wrapping a request in layers, peeling one, and the chain of
 handlers that carries it to the exit (sns-daemon/src/onion.rs and `onion_handler`
 in sns-daemon/src/rpc_proxy.rs:465-544).

 The cryptography is a parameter. What is used of it is stated in `Sound`: both
 sides of an X25519 agreement compute one secret (section 6.1 of RFC 7748), and
 AES-GCM decryption inverts encryption and strips a 16-byte tag (sections 7.1 and
 7.2 of NIST SP 800-38D).
 */
module Onion {
  import opened Bytes
  import opened Common

  const KEY_LEN: nat := 32
  const NONCE_LEN: nat := 12
  const TAG_LEN: nat := 16
  const HOP_LEN: nat := 32
  const LAYER_OVERHEAD: nat := 92

  datatype Suite = Suite(
    publicOf: Bytes -> Bytes,
    agree: (Bytes, Bytes) -> Bytes,
    encrypt: (Bytes, Bytes, Bytes) -> Bytes,
    decrypt: (Bytes, Bytes, Bytes) -> Option<Bytes>)

  ghost predicate Sound(c: Suite) {
    && (forall a :: |c.publicOf(a)| == KEY_LEN)
    && (forall a, b :: c.agree(a, c.publicOf(b)) == c.agree(b, c.publicOf(a)))
    && (forall k, n, p :: c.decrypt(k, n, c.encrypt(k, n, p)) == Some(p))
    && (forall k, n, p :: |c.encrypt(k, n, p)| == |p| + TAG_LEN)
    && (forall k, n, t :: c.decrypt(k, n, t).Some? ==> |t| == |c.decrypt(k, n, t).value| + TAG_LEN)
  }

  datatype OnionError = TooShort | DecryptFailed | InvalidLayer
  datatype PeeledLayer = PeeledLayer(nextHop: string, innerPayload: Bytes, isExit: bool)
  datatype PeelResult = Peeled(layer: PeeledLayer) | PeelError(error: OnionError)

  /** The ephemeral secret and nonce drawn for one layer. */
  datatype Draw = Draw(ephemeral: Bytes, nonce: Bytes)

  ghost predicate ValidDraws(draws: seq<Draw>) {
    forall i :: 0 <= i < |draws| ==> |draws[i].nonce| == NONCE_LEN
  }

  function EncryptLayer(c: Suite, data: Bytes, recipientKey: Bytes, d: Draw): Bytes {
    c.publicOf(d.ephemeral) + d.nonce + c.encrypt(c.agree(d.ephemeral, recipientKey), d.nonce, data)
  }

  function DecryptLayer(c: Suite, data: Bytes, secret: Bytes): Option<Bytes>
    requires |data| >= KEY_LEN + NONCE_LEN
  {
    var key := c.agree(secret, data[..KEY_LEN]);
    c.decrypt(key, data[KEY_LEN..KEY_LEN + NONCE_LEN], data[KEY_LEN + NONCE_LEN..])
  }

  function PeelLayer(c: Suite, wrapped: Bytes, secret: Bytes): PeelResult {
    if |wrapped| < KEY_LEN + NONCE_LEN then PeelError(TooShort)
    else
      var decrypted := DecryptLayer(c, wrapped, secret);
      if decrypted.None? then PeelError(DecryptFailed)
      else if |decrypted.value| < HOP_LEN then PeelError(InvalidLayer)
      else
        var nextHop := HexEncode(decrypted.value[..HOP_LEN]);
        Peeled(PeeledLayer(nextHop, decrypted.value[HOP_LEN..], nextHop == Zeros(64)))
  }

  function Zeros(n: nat): (s: string)
    ensures |s| == n
  {
    if n == 0 then "" else "0" + Zeros(n - 1)
  }

  /** Layers `i` and inward around the payload; `None` when a hop is not hex. */
  function WrapFrom(c: Suite, payload: Bytes, keys: seq<Bytes>, hops: seq<string>, draws: seq<Draw>, i: nat): Option<Bytes>
    requires i <= |keys| <= |hops| && |keys| <= |draws|
    decreases |keys| - i
  {
    if i == |keys| then Some(payload)
    else
      var inner := WrapFrom(c, payload, keys, hops, draws, i + 1);
      if inner.None? || HexDecode(hops[i]).None? then None
      else Some(EncryptLayer(c, HexDecode(hops[i]).value + inner.value, keys[i], draws[i]))
  }

  /** The client's loop, innermost layer first. */
  method WrapRequest(c: Suite, payload: Bytes, keys: seq<Bytes>, hops: seq<string>, draws: seq<Draw>)
    returns (wrapped: Option<Bytes>)
    requires |keys| <= |hops| && |keys| <= |draws|
    ensures wrapped == WrapFrom(c, payload, keys, hops, draws, 0)
  {
    var current := payload;
    var i := |keys|;
    while i > 0
      invariant 0 <= i <= |keys|
      invariant WrapFrom(c, payload, keys, hops, draws, i) == Some(current)
    {
      i := i - 1;
      var hop := HexDecode(hops[i]);
      if hop.None? {
        WrapFails(c, payload, keys, hops, draws, i);
        return None;
      }
      var layerData := hop.value + current;
      current := EncryptLayer(c, layerData, keys[i], draws[i]);
    }
    return Some(current);
  }

  /** Wrapping fails exactly when some hop in use is not hex text. */
  lemma {:induction false} WrapFailsExactlyWhen(c: Suite, payload: Bytes, keys: seq<Bytes>, hops: seq<string>,
                                                draws: seq<Draw>, i: nat)
    requires i <= |keys| <= |hops| && |keys| <= |draws|
    ensures WrapFrom(c, payload, keys, hops, draws, i).None? <==> exists k :: i <= k < |keys| && HexDecode(hops[k]).None?
    decreases |keys| - i
  {
    hide HexDecode, EncryptLayer;
    if i < |keys| {
      WrapFailsExactlyWhen(c, payload, keys, hops, draws, i + 1);
    }
  }

  lemma {:induction false} WrapFails(c: Suite, payload: Bytes, keys: seq<Bytes>, hops: seq<string>, draws: seq<Draw>, i: nat)
    requires i < |keys| <= |hops| && |keys| <= |draws|
    requires WrapFrom(c, payload, keys, hops, draws, i).None?
    ensures WrapFrom(c, payload, keys, hops, draws, 0).None?
    decreases i
  {
    if i > 0 {
      WrapFails(c, payload, keys, hops, draws, i - 1);
    }
  }

  // ----- One layer ------------------------------------------------------------

  /** The bytes of a layer: ephemeral public key, nonce, ciphertext. */
  lemma LayerLayout(c: Suite, data: Bytes, recipientKey: Bytes, d: Draw)
    requires Sound(c) && |d.nonce| == 12
    ensures var w := EncryptLayer(c, data, recipientKey, d);
            && |w| == |data| + 60
            && w[..32] == c.publicOf(d.ephemeral) && w[32..44] == d.nonce
            && w[44..] == c.encrypt(c.agree(d.ephemeral, recipientKey), d.nonce, data)
  {
  }

  lemma EncryptedLayerOpens(c: Suite, data: Bytes, secret: Bytes, d: Draw)
    requires Sound(c) && |d.nonce| == NONCE_LEN
    ensures var w := EncryptLayer(c, data, c.publicOf(secret), d);
            |w| == |data| + KEY_LEN + NONCE_LEN + TAG_LEN && DecryptLayer(c, w, secret) == Some(data)
  {
    var pub, text := c.publicOf(d.ephemeral), c.encrypt(c.agree(d.ephemeral, c.publicOf(secret)), d.nonce, data);
    var w := pub + d.nonce + text;
    assert w[..KEY_LEN] == pub;
    assert w[KEY_LEN..KEY_LEN + NONCE_LEN] == d.nonce;
    assert w[KEY_LEN + NONCE_LEN..] == text;
    assert c.agree(secret, pub) == c.agree(d.ephemeral, c.publicOf(secret));
  }

  /** A layer gives back its hop (in lower case) and its contents exactly when the
      hop has 64 hex digits; the wrapper accepts hops of any even length. */
  lemma LayerRoundTripExactlyWhen(c: Suite, hop: string, inner: Bytes, secret: Bytes, d: Draw)
    requires Sound(c) && |d.nonce| == NONCE_LEN && HexDecode(hop).Some?
    ensures PeelLayer(c, EncryptLayer(c, HexDecode(hop).value + inner, c.publicOf(secret), d), secret)
              == Peeled(PeeledLayer(Lower(hop), inner, Lower(hop) == Zeros(64)))
            <==> |hop| == 64
  {
    hide HexEncode, HexDecode, Lower, Zeros;
    var bytes := HexDecode(hop).value;
    var data := bytes + inner;
    EncryptedLayerOpens(c, data, secret, d);
    HexEncodeDecode(hop);
    if |hop| == 64 {
      assert data[..HOP_LEN] == bytes && data[HOP_LEN..] == inner;
    } else {
      LowerLength(hop);
    }
  }

  /** The empty hop, which the wrapper accepts, fails in both ways a hop can: with
      less than 32 bytes inside the layer is refused, otherwise the first 32 bytes of
      the contents are taken for the hop. */
  lemma EmptyHopIsLost(c: Suite, inner: Bytes, secret: Bytes, d: Draw)
    requires Sound(c) && |d.nonce| == NONCE_LEN
    ensures HexDecode("") == Some([])
    ensures PeelLayer(c, EncryptLayer(c, HexDecode("").value + inner, c.publicOf(secret), d), secret)
         == if |inner| < HOP_LEN then PeelError(InvalidLayer)
            else Peeled(PeeledLayer(HexEncode(inner[..HOP_LEN]), inner[HOP_LEN..], HexEncode(inner[..HOP_LEN]) == Zeros(64)))
  {
    hide HexEncode, Zeros;
    EncryptedLayerOpens(c, inner, secret, d);
    assert [] + inner == inner;
  }

  lemma {:induction false} LowerLength(s: string)
    ensures |Lower(s)| == |s|
  {
    if s != "" {
      LowerLength(s[1..]);
    }
  }

  lemma LayerLength(c: Suite, hop: string, inner: Bytes, key: Bytes, d: Draw)
    requires Sound(c) && |d.nonce| == NONCE_LEN && |hop| == 64 && HexDecode(hop).Some?
    ensures |EncryptLayer(c, HexDecode(hop).value + inner, key, d)| == |inner| + LAYER_OVERHEAD
  {
    hide HexDecode;
    HexEncodeDecode(hop);
  }

  /** Each layer costs 92 bytes. */
  lemma {:induction false} WrappedLength(c: Suite, payload: Bytes, keys: seq<Bytes>, hops: seq<string>, draws: seq<Draw>, i: nat)
    requires Sound(c) && ValidDraws(draws) && i <= |keys| <= |hops| && |keys| <= |draws|
    requires forall k :: 0 <= k < |hops| ==> |hops[k]| == 64 && HexDecode(hops[k]).Some?
    ensures var w := WrapFrom(c, payload, keys, hops, draws, i);
            w.Some? && |w.value| == |payload| + LAYER_OVERHEAD * (|keys| - i)
    decreases |keys| - i
  {
    hide Sound, EncryptLayer, HexDecode;
    if i < |keys| {
      WrappedLength(c, payload, keys, hops, draws, i + 1);
      LayerLength(c, hops[i], WrapFrom(c, payload, keys, hops, draws, i + 1).value, keys[i], draws[i]);
    }
  }

  /** Every layer is sealed with its own draw. */
  lemma LayersUseTheirDraws(c: Suite, payload: Bytes, keys: seq<Bytes>, hops: seq<string>, draws: seq<Draw>, i: nat)
    requires Sound(c) && ValidDraws(draws) && i < |keys| <= |hops| && |keys| <= |draws|
    requires WrapFrom(c, payload, keys, hops, draws, i).Some?
    ensures var w := WrapFrom(c, payload, keys, hops, draws, i).value;
            |w| >= 44 && w[..32] == c.publicOf(draws[i].ephemeral) && w[32..44] == draws[i].nonce
  {
  }

  // ----- The chain of handlers ------------------------------------------------

  /** A node: its secret key and its peer registry, which resolves hop ids to node addresses. */
  datatype Node = Node(secret: Bytes, registry: map<string, nat>)

  datatype Action = Process(payload: Bytes) | Forward(address: nat, layer: Bytes) | Reject(error: OnionError)

  /** What `onion_handler` does with one request. Without an entry for the next hop
      it processes the contents itself. */
  function Handle(c: Suite, node: Node, wrapped: Bytes): Action {
    match PeelLayer(c, wrapped, node.secret)
    case PeelError(e) => Reject(e)
    case Peeled(layer) =>
      if layer.isExit then Process(layer.innerPayload)
      else if layer.nextHop in node.registry then Forward(node.registry[layer.nextHop], layer.innerPayload)
      else Process(layer.innerPayload)
  }

  /** The handler's early returns, one check after the other. */
  method OnionHandler(c: Suite, node: Node, wrapped: Bytes) returns (action: Action)
    ensures action == Handle(c, node, wrapped)
  {
    var peeled := PeelLayer(c, wrapped, node.secret);
    if peeled.PeelError? {
      return Reject(peeled.error);
    }
    var layer := peeled.layer;
    if layer.isExit {
      return Process(layer.innerPayload);
    }
    if layer.nextHop in node.registry {
      return Forward(node.registry[layer.nextHop], layer.innerPayload);
    }
    return Process(layer.innerPayload);
  }

  /** The bytes open under the node's secret: the suite decrypts what follows the 32
      bytes of public key and 12 of nonce, and 32 bytes of hop come before `inner`. */
  ghost predicate Opens(c: Suite, secret: Bytes, wrapped: Bytes, hop: Bytes, inner: Bytes) {
    && |wrapped| >= 44 && |hop| == 32
    && c.decrypt(c.agree(secret, wrapped[..32]), wrapped[32..44], wrapped[44..]) == Some(hop + inner)
  }

  /** A handler rejects exactly the bytes that do not open: fewer than 44, refused by
      the decryption, or with fewer than 32 bytes inside. */
  lemma RejectsExactlyWhen(c: Suite, node: Node, wrapped: Bytes)
    ensures Handle(c, node, wrapped).Reject? <==>
            || |wrapped| < 44
            || var plain := c.decrypt(c.agree(node.secret, wrapped[..32]), wrapped[32..44], wrapped[44..]);
               plain.None? || |plain.value| < 32
    ensures Handle(c, node, wrapped) == Reject(TooShort) <==> |wrapped| < 44
    ensures Handle(c, node, wrapped) == Reject(DecryptFailed) <==>
              |wrapped| >= 44 && c.decrypt(c.agree(node.secret, wrapped[..32]), wrapped[32..44], wrapped[44..]).None?
    ensures Handle(c, node, wrapped).Reject? <==> forall hop, inner :: !Opens(c, node.secret, wrapped, hop, inner)
  {
    if |wrapped| >= 44 {
      var plain := c.decrypt(c.agree(node.secret, wrapped[..32]), wrapped[32..44], wrapped[44..]);
      if plain.Some? && |plain.value| >= 32 {
        assert plain.value == plain.value[..32] + plain.value[32..];
        assert Opens(c, node.secret, wrapped, plain.value[..32], plain.value[32..]);
      }
    }
  }

  /** Bytes that open are processed at the all-zero hop or one the node does not know,
      and passed on otherwise, to the address on record; either way it is the inside. */
  lemma HandlesWhatOpens(c: Suite, node: Node, wrapped: Bytes, hop: Bytes, inner: Bytes)
    requires Opens(c, node.secret, wrapped, hop, inner)
    ensures Handle(c, node, wrapped)
         == if hop == ZeroBytes(32) || HexEncode(hop) !in node.registry then Process(inner)
            else Forward(node.registry[HexEncode(hop)], inner)
  {
    hide HexEncode, Zeros;
    assert (hop + inner)[..32] == hop && (hop + inner)[32..] == inner;
    ZeroHop(hop);
  }

  /** The zero test on text is one on bytes. */
  lemma ZeroHop(hop: Bytes)
    requires |hop| == 32
    ensures HexEncode(hop) == Zeros(64) <==> hop == ZeroBytes(32)
  {
    ZerosEncode(32);
    HexDecodeEncode(hop);
    HexDecodeEncode(ZeroBytes(32));
  }

  lemma {:induction false} ZerosEncode(n: nat)
    ensures HexEncode(ZeroBytes(n)) == Zeros(2 * n)
  {
    if n > 0 {
      ZerosEncode(n - 1);
      assert ZeroBytes(n)[1..] == ZeroBytes(n - 1);
      assert Zeros(2 * n) == "0" + ("0" + Zeros(2 * n - 2));
    }
  }

  datatype Ending = Processed(payload: Bytes) | Rejected(error: OnionError) | Unreachable

  /** The nodes whose handlers ran, in order, and how it ended. */
  datatype Delivery = Delivery(visited: seq<nat>, ending: Ending)

  lemma PeelingShrinks(c: Suite, wrapped: Bytes, secret: Bytes)
    requires Sound(c) && PeelLayer(c, wrapped, secret).Peeled?
    ensures |PeelLayer(c, wrapped, secret).layer.innerPayload| + LAYER_OVERHEAD == |wrapped|
  {
  }

  ghost function Deliver(c: Suite, net: seq<Node>, at: nat, wrapped: Bytes): Delivery
    requires Sound(c) && at < |net|
    decreases |wrapped|
  {
    match Handle(c, net[at], wrapped)
    case Reject(e) => Delivery([at], Rejected(e))
    case Process(payload) => Delivery([at], Processed(payload))
    case Forward(address, layer) =>
      PeelingShrinks(c, wrapped, net[at].secret);
      if address >= |net| then Delivery([at], Unreachable)
      else
        var d := Deliver(c, net, address, layer);
        Delivery([at] + d.visited, d.ending)
  }

  /** Any bytes whatever, even sent round in circles, are handled at most once for
      every 92 of them, plus once. */
  lemma {:induction false} DeliveryEnds(c: Suite, net: seq<Node>, at: nat, wrapped: Bytes)
    requires Sound(c) && at < |net|
    ensures LAYER_OVERHEAD * (|Deliver(c, net, at, wrapped).visited| - 1) <= |wrapped|
    decreases |wrapped|
  {
    match Handle(c, net[at], wrapped)
    case Reject(_) =>
    case Process(_) =>
    case Forward(address, layer) =>
      PeelingShrinks(c, wrapped, net[at].secret);
      if address < |net| {
        DeliveryEnds(c, net, address, layer);
      }
  }

  ghost predicate Yields(c: Suite, secret: Bytes, wrapped: Bytes, inner: Bytes) {
    exists hop :: Opens(c, secret, wrapped, hop, inner)
  }

  /** `received[i]` is what reached the i-th node visited, and each node but the last
      opened it and passed on the inside. */
  ghost predicate PassedOn(c: Suite, net: seq<Node>, visited: seq<nat>, received: seq<Bytes>) {
    && |visited| == |received| && (forall i :: 0 <= i < |visited| ==> visited[i] < |net|)
    && forall i :: 0 <= i < |visited| - 1 ==> Yields(c, net[visited[i]].secret, received[i], received[i + 1])
  }

  /** Nothing is processed that the last node has not decrypted, and nothing refused
      that it could have: what it received came down from the request layer by layer. */
  ghost predicate EndsRightly(c: Suite, net: seq<Node>, d: Delivery, received: seq<Bytes>) {
    && d.visited != [] && PassedOn(c, net, d.visited, received)
    && var secret, last := net[d.visited[|d.visited| - 1]].secret, received[|received| - 1];
       match d.ending
       case Processed(payload) => Yields(c, secret, last, payload)
       case Rejected(_) => forall inner :: !Yields(c, secret, last, inner)
       case Unreachable => exists inner :: Yields(c, secret, last, inner)
  }

  lemma OpenedBy(c: Suite, node: Node, wrapped: Bytes) returns (inner: Bytes)
    requires !Handle(c, node, wrapped).Reject?
    ensures Yields(c, node.secret, wrapped, inner)
    ensures Handle(c, node, wrapped).Process? ==> Handle(c, node, wrapped).payload == inner
    ensures Handle(c, node, wrapped).Forward? ==> Handle(c, node, wrapped).layer == inner
  {
    hide Handle, Opens;
    RejectsExactlyWhen(c, node, wrapped);
    var hop, inside :| Opens(c, node.secret, wrapped, hop, inside);
    inner := inside;
    HandlesWhatOpens(c, node, wrapped, hop, inner);
  }

  lemma ForwardShrinks(c: Suite, node: Node, wrapped: Bytes)
    requires Sound(c) && Handle(c, node, wrapped).Forward?
    ensures |Handle(c, node, wrapped).layer| < |wrapped|
  {
    PeelingShrinks(c, wrapped, node.secret);
  }

  /** For any bytes sent to any node of any network. */
  lemma {:induction false} DeliveryOpensEveryLayer(c: Suite, net: seq<Node>, at: nat, wrapped: Bytes)
    returns (received: seq<Bytes>)
    requires Sound(c) && at < |net|
    ensures EndsRightly(c, net, Deliver(c, net, at, wrapped), received) && received[0] == wrapped
    ensures Deliver(c, net, at, wrapped).visited[0] == at
    decreases |wrapped|
  {
    hide Yields, PeelLayer, EndsRightly;
    received := [wrapped];
    match Handle(c, net[at], wrapped)
    case Reject(e) =>
      NothingOpens(c, net[at], wrapped);
      OnlyStop(c, net, at, wrapped, Rejected(e), []);
    case Process(payload) =>
      var inner := OpenedBy(c, net[at], wrapped);
      OnlyStop(c, net, at, wrapped, Processed(payload), payload);
    case Forward(address, layer) =>
      var inner := OpenedBy(c, net[at], wrapped);
      ForwardShrinks(c, net[at], wrapped);
      if address < |net| {
        var rest := DeliveryOpensEveryLayer(c, net, address, layer);
        received := [wrapped] + rest;
        OneMoreStop(c, net, at, wrapped, Deliver(c, net, address, layer), rest);
      } else {
        OnlyStop(c, net, at, wrapped, Unreachable, inner);
      }
  }

  lemma OnlyStop(c: Suite, net: seq<Node>, at: nat, wrapped: Bytes, ending: Ending, inner: Bytes)
    requires at < |net|
    requires match ending
             case Processed(payload) => Yields(c, net[at].secret, wrapped, payload)
             case Rejected(_) => forall inside :: !Yields(c, net[at].secret, wrapped, inside)
             case Unreachable => Yields(c, net[at].secret, wrapped, inner)
    ensures EndsRightly(c, net, Delivery([at], ending), [wrapped])
  {
    hide Yields;
    var received: seq<Bytes> := [wrapped];
    assert PassedOn(c, net, [at], received);
    assert received[|received| - 1] == wrapped;
  }

  lemma NothingOpens(c: Suite, node: Node, wrapped: Bytes)
    requires Handle(c, node, wrapped).Reject?
    ensures forall inner :: !Yields(c, node.secret, wrapped, inner)
  {
    hide Opens;
    RejectsExactlyWhen(c, node, wrapped);
  }

  lemma OneMoreStop(c: Suite, net: seq<Node>, at: nat, wrapped: Bytes, d: Delivery, rest: seq<Bytes>)
    requires EndsRightly(c, net, d, rest) && at < |net| && Yields(c, net[at].secret, wrapped, rest[0])
    ensures EndsRightly(c, net, Delivery([at] + d.visited, d.ending), [wrapped] + rest)
  {
    hide Yields;
    var visited, received := [at] + d.visited, [wrapped] + rest;
    forall i | 0 <= i < |visited| - 1
      ensures Yields(c, net[visited[i]].secret, received[i], received[i + 1])
    {
      if i > 0 {
        assert visited[i] == d.visited[i - 1] && received[i] == rest[i - 1] && received[i + 1] == rest[i];
      }
    }
    assert visited[|visited| - 1] == d.visited[|d.visited| - 1] && received[|received| - 1] == rest[|rest| - 1];
  }

  /** A client's plan: node `path[i]` holds the key of layer `i`, hops are 64 hex digits. */
  ghost predicate Planned(c: Suite, net: seq<Node>, path: seq<nat>, keys: seq<Bytes>, hops: seq<string>, draws: seq<Draw>) {
    && Sound(c) && ValidDraws(draws)
    && 1 <= |path| == |keys| == |hops| == |draws|
    && (forall i :: 0 <= i < |path| ==> path[i] < |net| && keys[i] == c.publicOf(net[path[i]].secret))
    && forall i :: 0 <= i < |path| ==> |hops[i]| == 64 && HexDecode(hops[i]).Some?
  }

  /** Node `path[i]` hands over to the holder of the next key. */
  ghost predicate HandsOver(net: seq<Node>, path: seq<nat>, hops: seq<string>, i: nat)
    requires i + 1 < |path| <= |hops| && path[i] < |net|
  {
    var hop, registry := Lower(hops[i]), net[path[i]].registry;
    hop != Zeros(64) && hop in registry && registry[hop] == path[i + 1]
  }

  /** Node `path[i]` takes itself for the exit: an all-zero hop, or one it does not know. */
  ghost predicate StopsHere(net: seq<Node>, path: seq<nat>, hops: seq<string>, i: nat)
    requires i < |path| <= |hops| && path[i] < |net|
  {
    Lower(hops[i]) == Zeros(64) || Lower(hops[i]) !in net[path[i]].registry
  }

  lemma HandleWrapped(c: Suite, net: seq<Node>, path: seq<nat>, keys: seq<Bytes>, hops: seq<string>,
                      draws: seq<Draw>, payload: Bytes, i: nat)
    requires Planned(c, net, path, keys, hops, draws) && i < |path|
    ensures var outer, inner := WrapFrom(c, payload, keys, hops, draws, i), WrapFrom(c, payload, keys, hops, draws, i + 1);
            && outer.Some? && inner.Some?
            && PeelLayer(c, outer.value, net[path[i]].secret)
               == Peeled(PeeledLayer(Lower(hops[i]), inner.value, Lower(hops[i]) == Zeros(64)))
  {
    hide PeelLayer, EncryptLayer, HexDecode, Lower, Zeros;
    WrappedLength(c, payload, keys, hops, draws, i);
    WrappedLength(c, payload, keys, hops, draws, i + 1);
    var inner := WrapFrom(c, payload, keys, hops, draws, i + 1);
    LayerRoundTripExactlyWhen(c, hops[i], inner.value, net[path[i]].secret, draws[i]);
  }

  /** The request goes from key holder to key holder up to the first node that
      takes itself for the exit, which processes whatever is left inside. */
  lemma {:induction false} DeliveredToFirstStop(c: Suite, net: seq<Node>, path: seq<nat>, keys: seq<Bytes>,
      hops: seq<string>, draws: seq<Draw>, payload: Bytes, i: nat, stop: nat)
    requires Planned(c, net, path, keys, hops, draws) && i <= stop < |path|
    requires (forall k :: i <= k < stop ==> HandsOver(net, path, hops, k)) && StopsHere(net, path, hops, stop)
    ensures WrapFrom(c, payload, keys, hops, draws, i).Some? && WrapFrom(c, payload, keys, hops, draws, stop + 1).Some?
    ensures Deliver(c, net, path[i], WrapFrom(c, payload, keys, hops, draws, i).value)
         == Delivery(path[i..stop + 1], Processed(WrapFrom(c, payload, keys, hops, draws, stop + 1).value))
    decreases stop - i
  {
    hide PeelLayer, WrapFrom, Lower, Zeros;
    HandleWrapped(c, net, path, keys, hops, draws, payload, i);
    if i == stop {
      assert path[i..stop + 1] == [path[i]];
    } else {
      assert HandsOver(net, path, hops, i);
      DeliveredToFirstStop(c, net, path, keys, hops, draws, payload, i + 1, stop);
      assert path[i..stop + 1] == [path[i]] + path[i + 1..stop + 1];
    }
  }

  /** End to end: with only the last hop all zeros and every registry resolving the
      next hop to the next key holder, the wrapped request visits the nodes in key
      order, forwarded n - 1 times, and the last one processes the original payload. */
  lemma DeliveredEndToEnd(c: Suite, net: seq<Node>, path: seq<nat>, keys: seq<Bytes>,
                          hops: seq<string>, draws: seq<Draw>, payload: Bytes)
    requires Planned(c, net, path, keys, hops, draws)
    requires forall k :: 0 <= k < |path| - 1 ==> HandsOver(net, path, hops, k)
    requires Lower(hops[|path| - 1]) == Zeros(64)
    ensures var w := WrapFrom(c, payload, keys, hops, draws, 0);
            && w.Some? && |w.value| == |payload| + LAYER_OVERHEAD * |path|
            && Deliver(c, net, path[0], w.value) == Delivery(path, Processed(payload))
  {
    hide Deliver, Lower, Zeros;
    DeliveredToFirstStop(c, net, path, keys, hops, draws, payload, 0, |path| - 1);
    WrappedLength(c, payload, keys, hops, draws, 0);
    assert path[0..|path|] == path;
  }

  lemma FirstVisited(c: Suite, net: seq<Node>, at: nat, wrapped: Bytes)
    requires Sound(c) && at < |net|
    ensures var d := Deliver(c, net, at, wrapped); d.visited != [] && d.visited[0] == at
  {
  }

  lemma {:induction false} DeliveredFromExactlyWhen(c: Suite, net: seq<Node>, path: seq<nat>, keys: seq<Bytes>,
      hops: seq<string>, draws: seq<Draw>, payload: Bytes, i: nat)
    requires Planned(c, net, path, keys, hops, draws) && i < |path|
    ensures WrapFrom(c, payload, keys, hops, draws, i).Some?
    ensures Deliver(c, net, path[i], WrapFrom(c, payload, keys, hops, draws, i).value)
              == Delivery(path[i..], Processed(payload))
            <==> (forall k :: i <= k < |path| - 1 ==> HandsOver(net, path, hops, k)) && StopsHere(net, path, hops, |path| - 1)
    decreases |path| - i
  {
    hide PeelLayer, Lower, Zeros;
    HandleWrapped(c, net, path, keys, hops, draws, payload, i);
    var inner := WrapFrom(c, payload, keys, hops, draws, i + 1).value;
    var hop, registry := Lower(hops[i]), net[path[i]].registry;
    var last := |path| - 1;
    var outer := Deliver(c, net, path[i], WrapFrom(c, payload, keys, hops, draws, i).value);
    if StopsHere(net, path, hops, i) {
      assert outer.visited == [path[i]];
      assert i < last ==> !HandsOver(net, path, hops, i);
      assert path[last..] == [path[last]];
    } else if registry[hop] >= |net| {
      assert outer.ending == Unreachable;
      assert i < last ==> !HandsOver(net, path, hops, i);
    } else {
      var d := Deliver(c, net, registry[hop], inner);
      FirstVisited(c, net, registry[hop], inner);
      assert outer == Delivery([path[i]] + d.visited, d.ending);
      assert outer.visited[1..] == d.visited && outer.visited[1] == registry[hop];
      if i < last {
        assert path[i..] == [path[i]] + path[i + 1..] && path[i..][1..] == path[i + 1..];
        assert HandsOver(net, path, hops, i) <==> registry[hop] == path[i..][1];
        DeliveredFromExactlyWhen(c, net, path, keys, hops, draws, payload, i + 1);
        assert (forall k :: i <= k < last ==> HandsOver(net, path, hops, k))
            <==> HandsOver(net, path, hops, i) && forall k :: i + 1 <= k < last ==> HandsOver(net, path, hops, k);
      } else {
        assert |outer.visited| > |path[i..]|;
      }
    }
  }

  /** Whatever the registries hold, absent, stale or wrong entries included: the
      payload is processed by the last key holder after a visit to each in turn
      exactly when every earlier node hands over to the next key holder and the
      last one takes itself for the exit. */
  lemma DeliveredExactlyWhen(c: Suite, net: seq<Node>, path: seq<nat>, keys: seq<Bytes>,
                             hops: seq<string>, draws: seq<Draw>, payload: Bytes)
    requires Planned(c, net, path, keys, hops, draws)
    ensures WrapFrom(c, payload, keys, hops, draws, 0).Some?
    ensures Deliver(c, net, path[0], WrapFrom(c, payload, keys, hops, draws, 0).value) == Delivery(path, Processed(payload))
            <==> (forall k :: 0 <= k < |path| - 1 ==> HandsOver(net, path, hops, k)) && StopsHere(net, path, hops, |path| - 1)
  {
    DeliveredFromExactlyWhen(c, net, path, keys, hops, draws, payload, 0);
    assert path[0..] == path;
  }

  // ----- The assumptions can be met -------------------------------------------

  /** `Sound` is consistent: a suite that only appends a zero tag meets it. */
  lemma SoundSuiteExists()
    ensures exists c :: Sound(c)
  {
    var c := Suite(
      _ => ZeroBytes(KEY_LEN),
      (_, _) => [],
      (_, _, p) => p + ZeroBytes(TAG_LEN),
      (_, _, t) => if |t| >= TAG_LEN then Some(t[..|t| - TAG_LEN]) else None);
    forall k: Bytes, n: Bytes, p: Bytes ensures c.decrypt(k, n, c.encrypt(k, n, p)) == Some(p) {
      assert (p + ZeroBytes(TAG_LEN))[..|p|] == p;
    }
    assert Sound(c);
  }
}
