/** Sphinx headers: built by the sender, processed by the nodes (header/mod.rs), and their byte form. */
module SphinxHeaders {
  import opened Wrappers
  import opened Bytes
  import opened SphinxKeys
  import opened SphinxRouting

  const HEADER_SIZE: nat := 32 + HEADER_INTEGRITY_MAC_SIZE + ENCRYPTED_ROUTING_INFO_SIZE

  datatype SphinxHeader = SphinxHeader(sharedSecret: Point, routing: Encapsulated)

  datatype Processed =
    | ForwardedHeader(header: SphinxHeader, address: Bytes32, delay: u64, payloadKey: PayloadKey)
    | FinalHeader(destination: Bytes32, identifier: Bytes16, payloadKey: PayloadKey)

  datatype HeaderError = InvalidHeader | InvalidRouting | MissingBlindedSecret | Panic

  // ---- the sender -----------------------------------------------------------------

  /** The inputs of a header: the route, the secret, and the random padding. */
  datatype Journey = Journey(
    route: seq<Node>,
    delays: seq<u64>,
    destination: Destination,
    initialSecret: Secret,
    padding: seq<byte>)
  {
    /** What the assertions of the program demand. */
    ghost predicate Valid() {
      1 <= |route| <= MAX_PATH_LENGTH && |delays| == |route| && PaddingFits(padding, |route|)
    }

    function Addresses(): (a: seq<Bytes32>)
      ensures |a| == |route|
    {
      seq<Bytes32>(|route|, i requires 0 <= i < |route| => route[i].address)
    }

    function RoutingPlan(): Plan {
      Plan(Addresses(), delays, destination, AllKeys(route, initialSecret), padding)
    }
  }

  function NewHeader(j: Journey): SphinxHeader
    requires j.Valid()
  {
    SphinxHeader(Curve25519.publicKey(j.initialSecret), Routing(j.RoutingPlan(), 0))
  }

  function PayloadKeys(j: Journey): (k: seq<PayloadKey>)
    ensures |k| == |j.route|
  {
    seq<PayloadKey>(|j.route|, i requires 0 <= i < |j.route| => AllKeys(j.route, j.initialSecret)[i].payloadKey)
  }

  lemma {:induction false} FillerOfPrefix(keys: seq<RoutingKeys>, n: nat, m: nat)
    requires n <= m <= |keys| && n <= MAX_PATH_LENGTH
    ensures Filler(keys[..m], n) == Filler(keys, n)
  {
    hide FillerStep;
    if n > 0 {
      FillerOfPrefix(keys, n - 1, m);
    }
  }

  /** Derives the keys, then the filler of all hops but the last, then adds the layers
      from the last hop to the first. */
  method BuildHeader(j: Journey) returns (header: SphinxHeader, payloadKeys: seq<PayloadKey>)
    requires j.Valid()
    ensures header == NewHeader(j) && payloadKeys == PayloadKeys(j)
  {
    hide FillerStep, ForwardInfo, FinalInfo, IntegrityMac;
    var shared, keys := DeriveKeyMaterial(j.route, j.initialSecret);
    var last := |j.route| - 1;
    var filler := NewFiller(keys[..last]);
    FillerOfPrefix(keys, last, last);
    var routing := WithMac(FinalInfo(j.destination, keys[last], filler, |j.route|, j.padding), keys[last]);
    var k := last;
    while k > 0
      invariant 0 <= k <= last
      invariant routing == Routing(j.RoutingPlan(), k)
    {
      k := k - 1;
      routing := WithMac(ForwardInfo(j.route[k + 1].address, j.delays[k], routing, keys[k]), keys[k]);
    }
    header := SphinxHeader(shared, routing);
    payloadKeys := PayloadKeys(j);
  }

  // ---- the nodes --------------------------------------------------------------------

  function Process(h: SphinxHeader, secretKey: Secret): Result<Processed, HeaderError> {
    var keys := NodeKeys(h.sharedSecret, secretKey);
    match Unwrap(h.routing, keys)
    case Err(InvalidMac) => Err(InvalidHeader)
    case Err(UnknownFlag(_)) => Err(InvalidRouting)
    case Ok(ForwardHop(address, delay, next)) =>
      Ok(ForwardedHeader(SphinxHeader(Blind(h.sharedSecret, keys.blindingFactor), next), address, delay, keys.payloadKey))
    case Ok(FinalHop(destination, identifier)) => Ok(FinalHeader(destination, identifier, keys.payloadKey))
  }

  /** Processing with keys that the caller derived before. Unlike `Process`, it
      panics on an unknown flag. */
  function ProcessWithDerivedKeys(h: SphinxHeader, blinded: Option<Point>, keys: RoutingKeys): Result<Processed, HeaderError> {
    match Unwrap(h.routing, keys)
    case Err(InvalidMac) => Err(InvalidHeader)
    case Err(UnknownFlag(_)) => Err(Panic)
    case Ok(ForwardHop(address, delay, next)) =>
      (match blinded
       case None => Err(MissingBlindedSecret)
       case Some(secret) => Ok(ForwardedHeader(SphinxHeader(secret, next), address, delay, keys.payloadKey)))
    case Ok(FinalHop(destination, identifier)) => Ok(FinalHeader(destination, identifier, keys.payloadKey))
  }

  /** The flag that a node finds at the start of the decrypted routing information. */
  function Flag(e: Encapsulated, keys: RoutingKeys): byte {
    Decrypt(e.info, keys.streamCipherKey)[0]
  }

  /** With the keys and the blinded secret that the node would derive, both ways of
      processing agree exactly on the headers that fail the integrity check or carry
      a known flag. */
  lemma {:induction false} DerivedKeysAgree(h: SphinxHeader, secretKey: Secret)
    ensures var keys := NodeKeys(h.sharedSecret, secretKey);
      ProcessWithDerivedKeys(h, Some(Blind(h.sharedSecret, keys.blindingFactor)), keys) == Process(h, secretKey)
      <==>
      || IntegrityMac(keys.macKey, h.routing.info) != h.routing.mac
      || Flag(h.routing, keys) == FORWARD_HOP || Flag(h.routing, keys) == FINAL_HOP
  {
    hide Decrypt, IntegrityMac, ParseForward, ParseFinal;
  }

  /** Without a blinded secret, only the last hop of a route is served: an intermediate
      one is an error, and everything else is as with the right secret. */
  lemma {:induction false} WithoutSecret(h: SphinxHeader, secretKey: Secret)
    ensures var keys := NodeKeys(h.sharedSecret, secretKey);
      var r, normal := ProcessWithDerivedKeys(h, None, keys), Process(h, secretKey);
      && (r == Err(MissingBlindedSecret) <==> normal.Ok? && normal.value.ForwardedHeader?)
      && (r == normal <==> normal == Err(InvalidHeader) || (normal.Ok? && normal.value.FinalHeader?))
      && (r == Err(Panic) <==> normal == Err(InvalidRouting))
  {
    hide Unwrap;
  }

  /** A given secret is passed on as it is. */
  lemma {:induction false} GivenSecret(h: SphinxHeader, secretKey: Secret, secret: Point)
    requires Process(h, secretKey).Ok? && Process(h, secretKey).value.ForwardedHeader?
    ensures var normal := Process(h, secretKey).value;
      ProcessWithDerivedKeys(h, Some(secret), NodeKeys(h.sharedSecret, secretKey))
      == Ok(normal.(header := SphinxHeader(secret, normal.header.routing)))
  {
    hide Unwrap;
  }

  // ---- changed headers ---------------------------------------------------------------

  /** A header is refused exactly if its tag is not the MAC of its routing information. */
  lemma {:induction false} TagIsChecked(h: SphinxHeader, secretKey: Secret)
    ensures Process(h, secretKey) == Err(InvalidHeader) <==>
            HmacSha256(NodeKeys(h.sharedSecret, secretKey).macKey, h.routing.info)[..16] != h.routing.mac
  {
    hide Decrypt, ParseForward, ParseFinal;
  }

  /** Changed routing information under the same tag and shared secret is only accepted
      if the MAC of the node's key, cut to 16 bytes, agrees on two different inputs. */
  lemma {:induction false} ChangeIsDetected(h: SphinxHeader, changed: SphinxHeader, secretKey: Secret)
    requires Process(h, secretKey) != Err(InvalidHeader) && Process(changed, secretKey) != Err(InvalidHeader)
    requires changed != h && changed.sharedSecret == h.sharedSecret && changed.routing.mac == h.routing.mac
    ensures var key := NodeKeys(h.sharedSecret, secretKey).macKey;
      && changed.routing.info != h.routing.info
      && HmacSha256(key, changed.routing.info)[..16] == HmacSha256(key, h.routing.info)[..16] == h.routing.mac
  {
    hide Process;
    TagIsChecked(h, secretKey);
    TagIsChecked(changed, secretKey);
  }

  /** In particular for the header that reaches hop `k` of a route. */
  lemma {:induction false} RouteChangeIsDetected(j: Journey, secretKeys: seq<Secret>, k: nat, changed: SphinxHeader)
    requires j.Valid() && HaveKeys(j.route, secretKeys) && k < |j.route|
    requires var h := HeaderAt(j, secretKeys, k);
      changed != h && changed.sharedSecret == h.sharedSecret && changed.routing.mac == h.routing.mac
    requires Process(changed, secretKeys[k]).Ok?
    ensures var h := HeaderAt(j, secretKeys, k);
      var key := NodeKeys(h.sharedSecret, secretKeys[k]).macKey;
      && changed.routing.info != h.routing.info
      && HmacSha256(key, changed.routing.info)[..16] == HmacSha256(key, h.routing.info)[..16] == h.routing.mac
  {
    hide Process, HeaderAt;
    HopProcesses(j, secretKeys, k);
    ChangeIsDetected(HeaderAt(j, secretKeys, k), changed, secretKeys[k]);
  }

  // ---- unknown flags -----------------------------------------------------------------

  /** The header that passes the integrity check of the node but decrypts to `flag`. */
  function WithFlag(sharedSecret: Point, secretKey: Secret, flag: byte): SphinxHeader {
    var keys := NodeKeys(sharedSecret, secretKey);
    var first := XorByte(flag, Rho(keys.streamCipherKey)[0]);
    SphinxHeader(sharedSecret, WithMac([first] + Zeros(ENCRYPTED_ROUTING_INFO_SIZE - 1), keys))
  }

  /** For every node there are headers on which they differ: one with a valid tag for
      every unknown flag. Normal processing reports an error, the other panics. */
  lemma {:induction false} UnknownFlagPanics(sharedSecret: Point, secretKey: Secret, flag: byte)
    requires flag != FORWARD_HOP && flag != FINAL_HOP
    ensures var h, keys := WithFlag(sharedSecret, secretKey, flag), NodeKeys(sharedSecret, secretKey);
      && Flag(h.routing, keys) == flag
      && Process(h, secretKey) == Err(InvalidRouting)
      && ProcessWithDerivedKeys(h, Some(Blind(sharedSecret, keys.blindingFactor)), keys) == Err(Panic)
  {
    var h, keys := WithFlag(sharedSecret, secretKey, flag), NodeKeys(sharedSecret, secretKey);
    var rho := Rho(keys.streamCipherKey);
    assert (h.routing.info + Zeros(FILLER_STEP))[0] == XorByte(flag, rho[0]);
    XorTwice(flag, rho[0]);
  }

  // ---- end to end ---------------------------------------------------------------------

  /** The header that reaches hop `k`. */
  function HeaderAt(j: Journey, secretKeys: seq<Secret>, k: nat): SphinxHeader
    requires j.Valid() && k < |j.route| <= |secretKeys|
  {
    SphinxHeader(SharedAt(j.initialSecret, secretKeys, k), Routing(j.RoutingPlan(), k))
  }

  /** At every hop the integrity check passes; an intermediate hop learns the next
      address and its delay and passes on the header of the next hop; the last hop
      learns the destination and the identifier. */
  lemma {:induction false} HopProcesses(j: Journey, secretKeys: seq<Secret>, k: nat)
    requires j.Valid() && HaveKeys(j.route, secretKeys) && k < |j.route|
    ensures Process(HeaderAt(j, secretKeys, k), secretKeys[k]) ==
            if k == |j.route| - 1 then
              Ok(FinalHeader(j.destination.address, j.destination.identifier, PayloadKeys(j)[k]))
            else
              Ok(ForwardedHeader(HeaderAt(j, secretKeys, k + 1), j.route[k + 1].address, j.delays[k], PayloadKeys(j)[k]))
  {
    hide Unwrap, Routing;
    BlindingAgreement(j.route, secretKeys, j.initialSecret, k);
    HopUnwraps(j.RoutingPlan(), k);
  }

  /** What the nodes of a route learn one after the other. */
  function ProcessAll(h: SphinxHeader, secretKeys: seq<Secret>): Result<seq<Processed>, HeaderError>
    decreases |secretKeys|
  {
    if secretKeys == [] then Ok([])
    else
      match Process(h, secretKeys[0])
      case Err(e) => Err(e)
      case Ok(FinalHeader(d, i, key)) => Ok([FinalHeader(d, i, key)])
      case Ok(ForwardedHeader(next, address, delay, key)) =>
        match ProcessAll(next, secretKeys[1..])
        case Err(e) => Err(e)
        case Ok(rest) => Ok([ForwardedHeader(next, address, delay, key)] + rest)
  }

  /** What hop `k` should learn. */
  function Expected(j: Journey, secretKeys: seq<Secret>, k: nat): Processed
    requires j.Valid() && k < |j.route| == |secretKeys|
  {
    if k == |j.route| - 1 then FinalHeader(j.destination.address, j.destination.identifier, PayloadKeys(j)[k])
    else ForwardedHeader(HeaderAt(j, secretKeys, k + 1), j.route[k + 1].address, j.delays[k], PayloadKeys(j)[k])
  }

  lemma {:induction false} RouteProcessesFrom(j: Journey, secretKeys: seq<Secret>, k: nat)
    requires j.Valid() && HaveKeys(j.route, secretKeys) && k < |j.route|
    ensures var r := ProcessAll(HeaderAt(j, secretKeys, k), secretKeys[k..]);
      && r.Ok? && |r.value| == |j.route| - k
      && forall i | 0 <= i < |r.value| :: r.value[i] == Expected(j, secretKeys, k + i)
    decreases |j.route| - k
  {
    hide Process, HeaderAt, PayloadKeys;
    HopProcesses(j, secretKeys, k);
    assert secretKeys[k..][0] == secretKeys[k] && secretKeys[k..][1..] == secretKeys[k + 1..];
    if k < |j.route| - 1 {
      RouteProcessesFrom(j, secretKeys, k + 1);
      var rest := ProcessAll(HeaderAt(j, secretKeys, k + 1), secretKeys[k + 1..]).value;
      forall i | 0 < i < |j.route| - k
        ensures ([Expected(j, secretKeys, k)] + rest)[i] == Expected(j, secretKeys, k + i)
      {
        assert k + 1 + (i - 1) == k + i;
      }
    }
  }

  /** The header end to end: on every route, each node in turn learns its own next
      address, delay and payload key, and the last one the destination. */
  lemma {:induction false} RouteProcesses(j: Journey, secretKeys: seq<Secret>)
    requires j.Valid() && HaveKeys(j.route, secretKeys)
    ensures var n, r := |j.route|, ProcessAll(NewHeader(j), secretKeys);
      && r.Ok? && |r.value| == n
      && (forall i | 0 <= i < n - 1 ::
            && r.value[i].ForwardedHeader?
            && r.value[i].address == j.route[i + 1].address && r.value[i].delay == j.delays[i]
            && r.value[i].payloadKey == PayloadKeys(j)[i])
      && r.value[n - 1] == FinalHeader(j.destination.address, j.destination.identifier, PayloadKeys(j)[n - 1])
  {
    hide Process, Routing, PayloadKeys, ProcessAll;
    assert HeaderAt(j, secretKeys, 0) == NewHeader(j);
    hide HeaderAt, NewHeader;
    RouteProcessesFrom(j, secretKeys, 0);
    assert secretKeys[0..] == secretKeys;
    var seen := ProcessAll(NewHeader(j), secretKeys).value;
    assert forall i | 0 <= i < |j.route| :: seen[i] == Expected(j, secretKeys, 0 + i);
  }

  // ---- bytes ------------------------------------------------------------------------------

  function RoutingToBytes(e: Encapsulated): (b: seq<byte>)
    ensures |b| == HEADER_INTEGRITY_MAC_SIZE + ENCRYPTED_ROUTING_INFO_SIZE
  {
    e.mac + e.info
  }

  function RoutingFromBytes(b: seq<byte>): Option<Encapsulated> {
    if |b| != HEADER_INTEGRITY_MAC_SIZE + ENCRYPTED_ROUTING_INFO_SIZE then None
    else Some(Encapsulated(b[HEADER_INTEGRITY_MAC_SIZE..], b[..HEADER_INTEGRITY_MAC_SIZE]))
  }

  function ToBytes(h: SphinxHeader): (b: seq<byte>)
    ensures |b| == HEADER_SIZE
  {
    h.sharedSecret + RoutingToBytes(h.routing)
  }

  function FromBytes(b: seq<byte>): Option<SphinxHeader> {
    if |b| != HEADER_SIZE then None
    else
      match RoutingFromBytes(b[32..])
      case None => None
      case Some(routing) => Some(SphinxHeader(b[..32], routing))
  }

  /** The codec is a bijection between headers and byte strings of the header size. */
  lemma {:induction false} HeaderRoundTrip(h: SphinxHeader)
    ensures FromBytes(ToBytes(h)) == Some(h)
  {
    var r := RoutingToBytes(h.routing);
    assert ToBytes(h)[32..] == r && ToBytes(h)[..32] == h.sharedSecret;
    assert r[HEADER_INTEGRITY_MAC_SIZE..] == h.routing.info && r[..HEADER_INTEGRITY_MAC_SIZE] == h.routing.mac;
  }

  lemma {:induction false} HeaderBytesRoundTrip(b: seq<byte>)
    ensures FromBytes(b).Some? <==> |b| == HEADER_SIZE
    ensures FromBytes(b).Some? ==> ToBytes(FromBytes(b).value) == b
  {
    if |b| == HEADER_SIZE {
      var r := b[32..];
      assert r[..HEADER_INTEGRITY_MAC_SIZE] + r[HEADER_INTEGRITY_MAC_SIZE..] == r;
      assert b[..32] + r == b;
    }
  }
}
