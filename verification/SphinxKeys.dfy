/**
 Constants, primitives and key agreement of the Sphinx packet format
 (constants.rs, crypto/, header/keys.rs).
 */
module SphinxKeys {
  import opened Bytes

  // ---- constants ----------------------------------------------------------------

  type PathLength = n: nat | n >= 1 witness 1

  /** The longest route, fixed when the program is built. */
  const MAX_PATH_LENGTH: PathLength

  const SECURITY_PARAMETER: nat := 16
  const STREAM_CIPHER_KEY_SIZE: nat := 16
  const INTEGRITY_MAC_KEY_SIZE: nat := SECURITY_PARAMETER
  const PAYLOAD_KEY_SIZE: nat := 192
  const BLINDING_FACTOR_SIZE: nat := 2 * SECURITY_PARAMETER
  const ROUTING_KEYS_LENGTH: nat :=
    STREAM_CIPHER_KEY_SIZE + INTEGRITY_MAC_KEY_SIZE + PAYLOAD_KEY_SIZE + BLINDING_FACTOR_SIZE

  type Bytes16 = s: seq<byte> | |s| == 16 witness Zeros(16)
  type Bytes32 = s: seq<byte> | |s| == 32 witness Zeros(32)
  type PayloadKey = s: seq<byte> | |s| == PAYLOAD_KEY_SIZE witness Zeros(PAYLOAD_KEY_SIZE)

  /** A group element in its byte form. */
  type Point = Bytes32

  type Secret = nat

  // ---- primitives ---------------------------------------------------------------

  /** The keystream of AES in counter mode under the zero initialisation vector. */
  const AesStream: StreamFn

  type MacFn = f: (seq<byte>, seq<byte>) -> seq<byte> | forall k, m :: |f(k, m)| == 32
    witness (k, m) => Zeros(32)

  /** HMAC with a 32-byte hash (section 2 of RFC 2104). */
  const HmacSha256: MacFn

  type KdfFn = f: Point -> seq<byte> | forall p :: |f(p)| == ROUTING_KEYS_LENGTH
    witness p => Zeros(ROUTING_KEYS_LENGTH)

  /** HKDF expansion of a shared key under the fixed seed (section 2.3 of RFC 5869). */
  const HkdfExpand: KdfFn

  /** Scalars multiply, `publicKey(a)` is the base point times `a`, and `dh(a, P)` is
      `P` times `a`. `reduce` turns blinding bytes into a scalar. */
  datatype Curve = Curve(
    multiply: (Secret, Secret) -> Secret,
    publicKey: Secret -> Point,
    dh: (Secret, Point) -> Point,
    reduce: Bytes32 -> Secret)

  /** The laws of scalar multiplication on multiples of the base point. */
  ghost predicate CurveLaws(c: Curve) {
    && (forall a, b :: c.dh(a, c.publicKey(b)) == c.publicKey(c.multiply(a, b)))
    && (forall a, b :: c.multiply(a, b) == c.multiply(b, a))
  }

  type LawfulCurve = c: Curve | CurveLaws(c)
    witness Curve((a, b) => 0, a => Zeros(32), (a, p) => Zeros(32), b => 0)

  const Curve25519: LawfulCurve

  // ---- routing keys ---------------------------------------------------------------

  datatype RoutingKeys = RoutingKeys(
    streamCipherKey: Bytes16,
    macKey: Bytes16,
    payloadKey: PayloadKey,
    blindingFactor: Bytes32)

  /** Cuts the expanded key material into the four keys. */
  function DeriveKeys(shared: Point): RoutingKeys {
    var output := HkdfExpand(shared);
    RoutingKeys(output[..16], output[16..32], output[32..224], output[224..256])
  }

  /** The keys are consecutive pieces of the expanded material, and use all of it. */
  lemma {:induction false} KeysUseAllMaterial(shared: Point)
    ensures var k := DeriveKeys(shared);
            k.streamCipherKey + k.macKey + k.payloadKey + k.blindingFactor == HkdfExpand(shared)
  {
    var o := HkdfExpand(shared);
    assert o == o[..16] + o[16..32] + o[32..224] + o[224..256];
  }

  // ---- the sender's side --------------------------------------------------------------

  datatype Node = Node(address: Bytes32, pubKey: Point)

  /** The sender's secret before hop `i`: the initial one times all earlier blinding factors. */
  function Accumulator(route: seq<Node>, initial: Secret, i: nat): Secret
    requires i <= |route|
    decreases i, 0
  {
    if i == 0 then initial
    else
      Curve25519.multiply(Accumulator(route, initial, i - 1),
                          Curve25519.reduce(SenderKeys(route, initial, i - 1).blindingFactor))
  }

  function SenderKeys(route: seq<Node>, initial: Secret, i: nat): RoutingKeys
    requires i < |route|
    decreases i, 1
  {
    DeriveKeys(Curve25519.dh(Accumulator(route, initial, i), route[i].pubKey))
  }

  function AllKeys(route: seq<Node>, initial: Secret): (keys: seq<RoutingKeys>)
    ensures |keys| == |route|
  {
    seq(|route|, i requires 0 <= i < |route| => SenderKeys(route, initial, i))
  }

  /** The loop of the sender: one key agreement per node, each blinding the secret for the next. */
  method DeriveKeyMaterial(route: seq<Node>, initialSecret: Secret) returns (initialShared: Point, routingKeys: seq<RoutingKeys>)
    ensures initialShared == Curve25519.publicKey(initialSecret)
    ensures routingKeys == AllKeys(route, initialSecret)
  {
    initialShared := Curve25519.publicKey(initialSecret);
    routingKeys := [];
    var accumulator := initialSecret;
    for i := 0 to |route|
      invariant accumulator == Accumulator(route, initialSecret, i)
      invariant routingKeys == AllKeys(route, initialSecret)[..i]
    {
      var sharedKey := Curve25519.dh(accumulator, route[i].pubKey);
      var nodeKeys := DeriveKeys(sharedKey);
      accumulator := Curve25519.multiply(accumulator, Curve25519.reduce(nodeKeys.blindingFactor));
      routingKeys := routingKeys + [nodeKeys];
    }
  }

  // ---- the node's side ------------------------------------------------------------------

  function NodeKeys(shared: Point, secretKey: Secret): RoutingKeys {
    DeriveKeys(Curve25519.dh(secretKey, shared))
  }

  function Blind(shared: Point, blindingFactor: Bytes32): Point {
    Curve25519.dh(Curve25519.reduce(blindingFactor), shared)
  }

  /** The group element in the header that reaches hop `i`, as the nodes compute it. */
  function SharedAt(initial: Secret, secretKeys: seq<Secret>, i: nat): Point
    requires i <= |secretKeys|
  {
    if i == 0 then Curve25519.publicKey(initial)
    else
      var before := SharedAt(initial, secretKeys, i - 1);
      Blind(before, NodeKeys(before, secretKeys[i - 1]).blindingFactor)
  }

  ghost predicate HaveKeys(route: seq<Node>, secretKeys: seq<Secret>) {
    |secretKeys| == |route| &&
    forall i | 0 <= i < |route| :: route[i].pubKey == Curve25519.publicKey(secretKeys[i])
  }

  /** What the nodes blind is the public form of what the sender accumulates. */
  lemma {:induction false} SharedIsAccumulator(route: seq<Node>, secretKeys: seq<Secret>, initial: Secret, i: nat)
    requires HaveKeys(route, secretKeys) && i <= |route|
    ensures SharedAt(initial, secretKeys, i) == Curve25519.publicKey(Accumulator(route, initial, i))
  {
    if i > 0 {
      SharedIsAccumulator(route, secretKeys, initial, i - 1);
      KeysAgree(Accumulator(route, initial, i - 1), secretKeys[i - 1]);
    }
  }

  lemma {:induction false} KeysAgree(accumulated: Secret, secretKey: Secret)
    ensures NodeKeys(Curve25519.publicKey(accumulated), secretKey)
            == DeriveKeys(Curve25519.dh(accumulated, Curve25519.publicKey(secretKey)))
    ensures forall blinding ::
      (Blind(Curve25519.publicKey(accumulated), blinding)
       == Curve25519.publicKey(Curve25519.multiply(accumulated, Curve25519.reduce(blinding))))
  {
    assert CurveLaws(Curve25519);
    assert Curve25519.multiply(accumulated, secretKey) == Curve25519.multiply(secretKey, accumulated);
  }

  /** Blinding agreement: at every hop the node derives the keys that the sender
      prepared for it. */
  lemma {:induction false} BlindingAgreement(route: seq<Node>, secretKeys: seq<Secret>, initial: Secret, i: nat)
    requires HaveKeys(route, secretKeys) && i < |route|
    ensures NodeKeys(SharedAt(initial, secretKeys, i), secretKeys[i]) == AllKeys(route, initial)[i]
  {
    SharedIsAccumulator(route, secretKeys, initial, i);
    KeysAgree(Accumulator(route, initial, i), secretKeys[i]);
  }

  /** `acc` are the sender's secrets along the route: the initial one, each time
      multiplied by the scalar of the blinding factor of the hop before. */
  ghost predicate Accumulates(route: seq<Node>, initial: Secret, acc: seq<Secret>) {
    && |acc| == |route| + 1 && acc[0] == initial
    && forall i | 0 <= i < |route| ::
         acc[i + 1] == Curve25519.multiply(acc[i], Curve25519.reduce(AllKeys(route, initial)[i].blindingFactor))
  }

  /** The keys of a hop are the expanded group element that belongs to the product of
      the sender's secret at that hop and the secret of the node. */
  lemma {:induction false} KeysOfHop(route: seq<Node>, secretKeys: seq<Secret>, initial: Secret, acc: seq<Secret>, i: nat)
    requires HaveKeys(route, secretKeys) && Accumulates(route, initial, acc) && i < |route|
    ensures var k := AllKeys(route, initial)[i];
      k.streamCipherKey + k.macKey + k.payloadKey + k.blindingFactor
      == HkdfExpand(Curve25519.publicKey(Curve25519.multiply(acc[i], secretKeys[i])))
  {
    AccumulatedIs(route, initial, acc, i);
    assert CurveLaws(Curve25519);
    KeysUseAllMaterial(Curve25519.dh(acc[i], route[i].pubKey));
  }

  lemma {:induction false} AccumulatedIs(route: seq<Node>, initial: Secret, acc: seq<Secret>, i: nat)
    requires Accumulates(route, initial, acc) && i <= |route|
    ensures acc[i] == Accumulator(route, initial, i)
  {
    if i > 0 {
      AccumulatedIs(route, initial, acc, i - 1);
      assert acc[i - 1 + 1] == acc[i];
    }
  }
}
