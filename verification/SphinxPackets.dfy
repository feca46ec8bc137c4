/** Whole Sphinx packets and single-use reply blocks (packet/mod.rs, packet/builder.rs, surb/mod.rs). */
module SphinxPackets {
  import opened Wrappers
  import opened Bytes
  import opened SphinxKeys
  import opened SphinxRouting
  import opened SphinxHeaders
  import opened SphinxPayloads

  datatype SphinxPacket = SphinxPacket(header: SphinxHeader, payload: seq<byte>)

  datatype ProcessedPacket =
    | ForwardedPacket(packet: SphinxPacket, address: Bytes32, delay: u64)
    | FinalPacket(destination: Bytes32, identifier: Bytes16, payload: seq<byte>)

  datatype PacketError = BadHeader(header: HeaderError) | BadPayload(payload: PayloadError)

  // ---- building and processing --------------------------------------------------------

  function BuildPacket(j: Journey, message: seq<byte>, payloadSize: nat): Result<SphinxPacket, PayloadError>
    requires j.Valid()
  {
    match EncryptedMessage(message, PayloadKeys(j), payloadSize)
    case Err(e) => Err(e)
    case Ok(payload) => Ok(SphinxPacket(NewHeader(j), payload))
  }

  function ProcessPacket(p: SphinxPacket, secretKey: Secret): Result<ProcessedPacket, PacketError> {
    match Process(p.header, secretKey)
    case Err(e) => Err(BadHeader(e))
    case Ok(ForwardedHeader(header, address, delay, key)) =>
      (match UnwrapPayload(p.payload, key)
       case Err(e) => Err(BadPayload(e))
       case Ok(payload) => Ok(ForwardedPacket(SphinxPacket(header, payload), address, delay)))
    case Ok(FinalHeader(destination, identifier, key)) =>
      (match UnwrapPayload(p.payload, key)
       case Err(e) => Err(BadPayload(e))
       case Ok(payload) => Ok(FinalPacket(destination, identifier, payload)))
  }

  /** A packet is refused with the error of its header, or because its payload is
      shorter than the cipher's least block. */
  lemma {:induction false} PacketRefusals(p: SphinxPacket, secretKey: Secret)
    ensures var r, h := ProcessPacket(p, secretKey), Process(p.header, secretKey);
      && (forall e :: r == Err(BadHeader(e)) <==> h == Err(e))
      && (r == Err(BadPayload(CipherFailed)) <==> h.Ok? && |p.payload| < Lioness.least)
      && (r.Ok? <==> h.Ok? && |p.payload| >= Lioness.least)
  {
    hide Process;
    assert Inverts(Lioness);
  }

  // ---- end to end ------------------------------------------------------------------------

  /** The outermost key takes the outermost layer off. */
  lemma {:induction false} LayerBelow(payload: seq<byte>, keys: seq<PayloadKey>)
    requires keys != [] && |payload| >= Lioness.least
    ensures AddLayers(payload, keys).Ok? && AddLayers(payload, keys[1..]).Ok?
    ensures UnwrapPayload(AddLayers(payload, keys).value, keys[0]) == Ok(AddLayers(payload, keys[1..]).value)
  {
    LayersSucceed(payload, keys);
    LayersSucceed(payload, keys[1..]);
    assert Inverse(Lioness, keys[0], AddLayers(payload, keys[1..]).value);
  }

  /** The payload is long enough for the cipher and for the message with its overhead. */
  predicate Accepted(message: seq<byte>, payloadSize: nat) {
    Lioness.least <= payloadSize && |message| + PAYLOAD_OVERHEAD_SIZE <= payloadSize
  }

  /** A packet is built exactly for the messages that are accepted. */
  lemma {:induction false} BuiltExactly(j: Journey, message: seq<byte>, payloadSize: nat)
    requires j.Valid()
    ensures BuildPacket(j, message, payloadSize).Ok? <==> Accepted(message, payloadSize)
    ensures Accepted(message, payloadSize) ==> |BuildPacket(j, message, payloadSize).value.payload| == payloadSize
  {
    FitsExactly(message, PayloadKeys(j), payloadSize);
  }

  /** The packet that reaches hop `k`. */
  ghost function PacketAt(j: Journey, secretKeys: seq<Secret>, message: seq<byte>, payloadSize: nat, k: nat): SphinxPacket
    requires j.Valid() && k < |j.route| <= |secretKeys| && Accepted(message, payloadSize)
  {
    var final := FinalPayload(message, payloadSize);
    LayersSucceed(final, PayloadKeys(j)[k..]);
    SphinxPacket(HeaderAt(j, secretKeys, k), AddLayers(final, PayloadKeys(j)[k..]).value)
  }

  /** One hop of a packet: an intermediate node passes on exactly the packet of the
      next hop, to the right address; the last node can read the message. */
  lemma {:induction false} PacketHop(j: Journey, secretKeys: seq<Secret>, message: seq<byte>, payloadSize: nat, k: nat)
    requires j.Valid() && HaveKeys(j.route, secretKeys) && k < |j.route| && Accepted(message, payloadSize)
    ensures var r := ProcessPacket(PacketAt(j, secretKeys, message, payloadSize, k), secretKeys[k]);
      if k < |j.route| - 1 then
        r == Ok(ForwardedPacket(PacketAt(j, secretKeys, message, payloadSize, k + 1), j.route[k + 1].address, j.delays[k]))
      else
        && r == Ok(FinalPacket(j.destination.address, j.destination.identifier, FinalPayload(message, payloadSize)))
        && RecoverPlaintext(FinalPayload(message, payloadSize)) == Ok(message)
  {
    hide Process, RecoverPlaintext, FinalPayload, PayloadKeys, HeaderAt;
    var final, keys := FinalPayload(message, payloadSize), PayloadKeys(j);
    HopProcesses(j, secretKeys, k);
    LayerBelow(final, keys[k..]);
    assert keys[k..][0] == keys[k] && keys[k..][1..] == keys[k + 1..];
    if k == |j.route| - 1 {
      assert keys[k + 1..] == [];
      PaddingRoundTrip(message, payloadSize);
    }
  }

  /** What the nodes see when each processes the packet that the one before passed on. */
  function Travel(p: SphinxPacket, secretKeys: seq<Secret>): Result<seq<ProcessedPacket>, PacketError>
    decreases |secretKeys|
  {
    if secretKeys == [] then Ok([])
    else
      match ProcessPacket(p, secretKeys[0])
      case Err(e) => Err(e)
      case Ok(FinalPacket(d, i, payload)) => Ok([FinalPacket(d, i, payload)])
      case Ok(ForwardedPacket(next, address, delay)) =>
        match Travel(next, secretKeys[1..])
        case Err(e) => Err(e)
        case Ok(rest) => Ok([ForwardedPacket(next, address, delay)] + rest)
  }

  ghost predicate Arrives(j: Journey, message: seq<byte>, k: nat, seen: seq<ProcessedPacket>)
    requires j.Valid() && k < |j.route|
  {
    && |seen| == |j.route| - k
    && (forall i | 0 <= i < |seen| - 1 ::
          seen[i].ForwardedPacket? && seen[i].address == j.route[k + i + 1].address && seen[i].delay == j.delays[k + i])
    && var last := seen[|seen| - 1];
       && last.FinalPacket?
       && last.destination == j.destination.address && last.identifier == j.destination.identifier
       && RecoverPlaintext(last.payload) == Ok(message)
  }

  lemma {:induction false} PacketArrivesFrom(j: Journey, secretKeys: seq<Secret>, message: seq<byte>, payloadSize: nat, k: nat)
    requires j.Valid() && HaveKeys(j.route, secretKeys) && k < |j.route| && Accepted(message, payloadSize)
    ensures var r := Travel(PacketAt(j, secretKeys, message, payloadSize, k), secretKeys[k..]);
            r.Ok? && Arrives(j, message, k, r.value)
    decreases |j.route| - k
  {
    hide ProcessPacket, RecoverPlaintext, FinalPayload, PacketAt;
    PacketHop(j, secretKeys, message, payloadSize, k);
    assert secretKeys[k..][0] == secretKeys[k] && secretKeys[k..][1..] == secretKeys[k + 1..];
    if k < |j.route| - 1 {
      PacketArrivesFrom(j, secretKeys, message, payloadSize, k + 1);
      var next := PacketAt(j, secretKeys, message, payloadSize, k + 1);
      var rest := Travel(next, secretKeys[k + 1..]).value;
      var first := ForwardedPacket(next, j.route[k + 1].address, j.delays[k]);
      ArrivesOneEarlier(j, message, k, first, rest);
    }
  }

  lemma {:induction false} ArrivesOneEarlier(j: Journey, message: seq<byte>, k: nat, first: ProcessedPacket, rest: seq<ProcessedPacket>)
    requires j.Valid() && k + 1 < |j.route| && Arrives(j, message, k + 1, rest)
    requires first.ForwardedPacket? && first.address == j.route[k + 1].address && first.delay == j.delays[k]
    ensures Arrives(j, message, k, [first] + rest)
  {
    var seen := [first] + rest;
    forall i | 0 <= i < |seen| - 1
      ensures seen[i].ForwardedPacket? && seen[i].address == j.route[k + i + 1].address && seen[i].delay == j.delays[k + i]
    {
      if i > 0 {
        assert seen[i] == rest[i - 1] && k + 1 + (i - 1) == k + i;
      }
    }
  }

  /** The packet end to end: for every message that fits, the packet can be built,
      travels its whole route and delivers the message. */
  lemma {:induction false} PacketArrives(j: Journey, secretKeys: seq<Secret>, message: seq<byte>, payloadSize: nat)
    requires j.Valid() && HaveKeys(j.route, secretKeys) && Accepted(message, payloadSize)
    ensures BuildPacket(j, message, payloadSize).Ok?
    ensures var r := Travel(BuildPacket(j, message, payloadSize).value, secretKeys);
            r.Ok? && Arrives(j, message, 0, r.value)
  {
    hide ProcessPacket, RecoverPlaintext, FinalPayload, AddLayers, Routing, Travel;
    BuiltExactly(j, message, payloadSize);
    PacketArrivesFrom(j, secretKeys, message, payloadSize, 0);
    assert secretKeys[0..] == secretKeys && PayloadKeys(j)[0..] == PayloadKeys(j);
  }

  // ---- bytes of packets ---------------------------------------------------------------------

  function PacketToBytes(p: SphinxPacket): (b: seq<byte>)
    ensures |b| == HEADER_SIZE + |p.payload|
  {
    SphinxHeaders.ToBytes(p.header) + p.payload
  }

  function PacketFromBytes(b: seq<byte>): Option<SphinxPacket> {
    if |b| < HEADER_SIZE + PAYLOAD_OVERHEAD_SIZE then None
    else
      match SphinxHeaders.FromBytes(b[..HEADER_SIZE])
      case None => None
      case Some(header) => Some(SphinxPacket(header, b[HEADER_SIZE..]))
  }

  /** A packet can be read back from its bytes exactly if its payload is at least as
      long as the overhead. */
  lemma {:induction false} PacketRoundTrip(p: SphinxPacket)
    ensures PacketFromBytes(PacketToBytes(p)) ==
            if |p.payload| >= PAYLOAD_OVERHEAD_SIZE then Some(p) else None
  {
    HeaderRoundTrip(p.header);
    var b := PacketToBytes(p);
    assert b[..HEADER_SIZE] == SphinxHeaders.ToBytes(p.header) && b[HEADER_SIZE..] == p.payload;
  }

  lemma {:induction false} PacketBytesRoundTrip(b: seq<byte>)
    ensures PacketFromBytes(b).Some? <==> |b| >= HEADER_SIZE + PAYLOAD_OVERHEAD_SIZE
    ensures PacketFromBytes(b).Some? ==> PacketToBytes(PacketFromBytes(b).value) == b
  {
    if |b| >= HEADER_SIZE + PAYLOAD_OVERHEAD_SIZE {
      HeaderBytesRoundTrip(b[..HEADER_SIZE]);
      assert b[..HEADER_SIZE] + b[HEADER_SIZE..] == b;
    }
  }

  /** The layout of a packet: group element, tag, routing information, payload. */
  lemma {:induction false} PacketLayout(p: SphinxPacket)
    ensures PacketToBytes(p) == p.header.sharedSecret + p.header.routing.mac + p.header.routing.info + p.payload
  {
  }

  // ---- packets on the wire --------------------------------------------------------------------

  /** Every packet that a sender builds is read back from its bytes. */
  lemma {:induction false} BuiltIsReadBack(j: Journey, message: seq<byte>, payloadSize: nat)
    requires j.Valid()
    ensures var r := BuildPacket(j, message, payloadSize);
      r.Ok? ==> PacketFromBytes(PacketToBytes(r.value)) == Some(r.value)
  {
    hide PacketFromBytes, PacketToBytes, NewHeader, EncryptedMessage;
    BuiltExactly(j, message, payloadSize);
    if Accepted(message, payloadSize) {
      PacketRoundTrip(BuildPacket(j, message, payloadSize).value);
    }
  }

  /** A node passes on a payload of the size that it received. */
  lemma {:induction false} ProcessKeepsSize(p: SphinxPacket, secretKey: Secret)
    ensures var r := ProcessPacket(p, secretKey);
      && (r.Ok? && r.value.ForwardedPacket? ==> |r.value.packet.payload| == |p.payload|)
      && (r.Ok? && r.value.FinalPacket? ==> |r.value.payload| == |p.payload|)
  {
    hide Process;
  }

  /** What the nodes see when each of them receives bytes, reads the packet from them,
      and sends the bytes of the packet that it passes on. */
  function TravelAsBytes(b: seq<byte>, secretKeys: seq<Secret>): Option<Result<seq<ProcessedPacket>, PacketError>>
    decreases |secretKeys|
  {
    match PacketFromBytes(b)
    case None => None
    case Some(p) =>
      if secretKeys == [] then Some(Ok([]))
      else
        match ProcessPacket(p, secretKeys[0])
        case Err(e) => Some(Err(e))
        case Ok(FinalPacket(d, i, payload)) => Some(Ok([FinalPacket(d, i, payload)]))
        case Ok(ForwardedPacket(next, address, delay)) =>
          match TravelAsBytes(PacketToBytes(next), secretKeys[1..])
          case None => None
          case Some(Err(e)) => Some(Err(e))
          case Some(Ok(rest)) => Some(Ok([ForwardedPacket(next, address, delay)] + rest))
  }

  /** Sending packets as bytes changes nothing: whatever bytes are accepted at first,
      no later node fails to read a packet. */
  lemma {:induction false} BytesTravel(p: SphinxPacket, secretKeys: seq<Secret>)
    requires |p.payload| >= PAYLOAD_OVERHEAD_SIZE
    ensures TravelAsBytes(PacketToBytes(p), secretKeys) == Some(Travel(p, secretKeys))
    decreases |secretKeys|
  {
    hide PacketFromBytes, PacketToBytes, ProcessPacket;
    PacketRoundTrip(p);
    if secretKeys != [] {
      ProcessKeepsSize(p, secretKeys[0]);
      var r := ProcessPacket(p, secretKeys[0]);
      if r.Ok? && r.value.ForwardedPacket? {
        BytesTravel(r.value.packet, secretKeys[1..]);
      }
    }
  }

  lemma {:induction false} AcceptedBytesTravel(b: seq<byte>, secretKeys: seq<Secret>)
    requires PacketFromBytes(b).Some?
    ensures TravelAsBytes(b, secretKeys) == Some(Travel(PacketFromBytes(b).value, secretKeys))
  {
    var p := PacketFromBytes(b).value;
    PacketBytesRoundTrip(b);
    assert |PacketToBytes(p)| == HEADER_SIZE + |p.payload|;
    BytesTravel(p, secretKeys);
  }

  /** So a packet also arrives if every node sends it on as bytes. */
  lemma {:induction false} PacketArrivesAsBytes(j: Journey, secretKeys: seq<Secret>, message: seq<byte>, payloadSize: nat)
    requires j.Valid() && HaveKeys(j.route, secretKeys) && Accepted(message, payloadSize)
    ensures BuildPacket(j, message, payloadSize).Ok?
    ensures var r := TravelAsBytes(PacketToBytes(BuildPacket(j, message, payloadSize).value), secretKeys);
            r.Some? && r.value.Ok? && Arrives(j, message, 0, r.value.value)
  {
    hide BuildPacket, PacketToBytes, TravelAsBytes, Arrives, Travel;
    BuiltExactly(j, message, payloadSize);
    PacketArrives(j, secretKeys, message, payloadSize);
    BytesTravel(BuildPacket(j, message, payloadSize).value, secretKeys);
  }

  // ---- reply blocks ---------------------------------------------------------------------------

  datatype Surb = Surb(header: SphinxHeader, firstHop: Bytes32, payloadKeys: seq<PayloadKey>)

  datatype SurbError = EmptyRoute | DelaysMismatch

  function NewSurb(j: Journey): Result<Surb, SurbError>
    requires j.route != [] && |j.delays| == |j.route| ==> j.Valid()
  {
    if j.route == [] then Err(EmptyRoute)
    else if |j.route| != |j.delays| then Err(DelaysMismatch)
    else Ok(Surb(NewHeader(j), j.route[0].address, PayloadKeys(j)))
  }

  function UseSurb(s: Surb, message: seq<byte>, payloadSize: nat): Result<(SphinxPacket, Bytes32), PayloadError> {
    match EncryptedMessage(message, s.payloadKeys, payloadSize)
    case Err(e) => Err(e)
    case Ok(payload) => Ok((SphinxPacket(s.header, payload), s.firstHop))
  }

  /** A reply block is accepted for exactly the messages that fit. The reply is the
      packet that its creator could have built: it goes to the first node of the
      route, travels all of it, and delivers the message. */
  lemma {:induction false} ReplyArrives(j: Journey, secretKeys: seq<Secret>, message: seq<byte>, payloadSize: nat)
    requires j.Valid() && HaveKeys(j.route, secretKeys)
    ensures NewSurb(j).Ok?
    ensures var reply := UseSurb(NewSurb(j).value, message, payloadSize);
      && (reply.Ok? <==> Accepted(message, payloadSize))
      && (reply.Ok? ==>
            && reply.value.1 == j.route[0].address
            && var r := Travel(reply.value.0, secretKeys);
               r.Ok? && Arrives(j, message, 0, r.value))
  {
    hide Travel, Arrives, EncryptedMessage, PayloadKeys, NewHeader;
    BuiltExactly(j, message, payloadSize);
    if Accepted(message, payloadSize) {
      PacketArrives(j, secretKeys, message, payloadSize);
    }
  }

  // ---- bytes of reply blocks --------------------------------------------------------------------

  function ConcatKeys(keys: seq<PayloadKey>): (b: seq<byte>)
    ensures |b| == PAYLOAD_KEY_SIZE * |keys|
  {
    if keys == [] then [] else keys[0] + ConcatKeys(keys[1..])
  }

  /** The complete keys at the start of some bytes. */
  function KeysIn(b: seq<byte>): (keys: seq<PayloadKey>)
    ensures |keys| == |b| / PAYLOAD_KEY_SIZE
  {
    if |b| < PAYLOAD_KEY_SIZE then []
    else
      var first: PayloadKey := b[..PAYLOAD_KEY_SIZE];
      [first] + KeysIn(b[PAYLOAD_KEY_SIZE..])
  }

  function SurbToBytes(s: Surb): (b: seq<byte>)
    ensures |b| == HEADER_SIZE + NODE_ADDRESS_LENGTH + PAYLOAD_KEY_SIZE * |s.payloadKeys|
  {
    SphinxHeaders.ToBytes(s.header) + s.firstHop + ConcatKeys(s.payloadKeys)
  }

  /** The byte lengths that are accepted: at least one key, and only complete ones. */
  predicate SurbLength(n: nat) {
    && n >= HEADER_SIZE + NODE_ADDRESS_LENGTH + PAYLOAD_KEY_SIZE
    && (n - HEADER_SIZE - NODE_ADDRESS_LENGTH) % PAYLOAD_KEY_SIZE == 0
  }

  function SurbFromBytes(b: seq<byte>): Option<Surb> {
    if !SurbLength(|b|) then None
    else
      var keys := HEADER_SIZE + NODE_ADDRESS_LENGTH;
      match SphinxHeaders.FromBytes(b[..HEADER_SIZE])
      case None => None
      case Some(header) => Some(Surb(header, b[HEADER_SIZE..keys], KeysIn(b[keys..])))
  }

  /** Reads the keys one by one. */
  method ReadKeys(b: seq<byte>) returns (keys: seq<PayloadKey>)
    requires |b| % PAYLOAD_KEY_SIZE == 0
    ensures keys == KeysIn(b)
  {
    var count := |b| / PAYLOAD_KEY_SIZE;
    keys := [];
    for i := 0 to count
      invariant |keys| == i
      invariant keys + KeysIn(b[i * PAYLOAD_KEY_SIZE..]) == KeysIn(b)
    {
      var rest := b[i * PAYLOAD_KEY_SIZE..];
      var key: PayloadKey := b[i * PAYLOAD_KEY_SIZE..(i + 1) * PAYLOAD_KEY_SIZE];
      assert rest[..PAYLOAD_KEY_SIZE] == key && rest[PAYLOAD_KEY_SIZE..] == b[(i + 1) * PAYLOAD_KEY_SIZE..];
      keys := keys + [key];
    }
  }

  lemma {:induction false} KeysRoundTrip(keys: seq<PayloadKey>)
    ensures KeysIn(ConcatKeys(keys)) == keys
  {
    if keys != [] {
      KeysRoundTrip(keys[1..]);
      var b := ConcatKeys(keys);
      assert b[..PAYLOAD_KEY_SIZE] == keys[0] && b[PAYLOAD_KEY_SIZE..] == ConcatKeys(keys[1..]);
    }
  }

  lemma {:induction false} KeyBytesRoundTrip(b: seq<byte>)
    requires |b| % PAYLOAD_KEY_SIZE == 0
    ensures ConcatKeys(KeysIn(b)) == b
  {
    if b != [] {
      KeyBytesRoundTrip(b[PAYLOAD_KEY_SIZE..]);
      assert b[..PAYLOAD_KEY_SIZE] + b[PAYLOAD_KEY_SIZE..] == b;
    }
  }

  /** A reply block can be read back exactly if it has at least one key. */
  lemma {:induction false} SurbRoundTrip(s: Surb)
    ensures SurbFromBytes(SurbToBytes(s)) == if s.payloadKeys != [] then Some(s) else None
  {
    HeaderRoundTrip(s.header);
    KeysRoundTrip(s.payloadKeys);
    var b, keys := SurbToBytes(s), HEADER_SIZE + NODE_ADDRESS_LENGTH;
    assert b[..HEADER_SIZE] == SphinxHeaders.ToBytes(s.header);
    assert b[HEADER_SIZE..keys] == s.firstHop && b[keys..] == ConcatKeys(s.payloadKeys);
  }

  /** Every reply block that is created is read back from its bytes. */
  lemma {:induction false} SurbIsReadBack(j: Journey)
    requires j.route != [] && |j.delays| == |j.route| ==> j.Valid()
    ensures NewSurb(j).Ok? ==> SurbFromBytes(SurbToBytes(NewSurb(j).value)) == Some(NewSurb(j).value)
  {
    hide SurbFromBytes, SurbToBytes, NewHeader;
    if NewSurb(j).Ok? {
      SurbRoundTrip(NewSurb(j).value);
    }
  }

  /** Every packet that a reply block is used for is read back from its bytes. */
  lemma {:induction false} ReplyIsReadBack(s: Surb, message: seq<byte>, payloadSize: nat)
    ensures var r := UseSurb(s, message, payloadSize);
      r.Ok? ==> PacketFromBytes(PacketToBytes(r.value.0)) == Some(r.value.0)
  {
    hide PacketFromBytes, PacketToBytes, EncryptedMessage;
    FitsExactly(message, s.payloadKeys, payloadSize);
    if Fits(message, s.payloadKeys, payloadSize) {
      PacketRoundTrip(UseSurb(s, message, payloadSize).value.0);
    }
  }

  lemma {:induction false} SurbBytesRoundTrip(b: seq<byte>)
    ensures SurbFromBytes(b).Some? <==> SurbLength(|b|)
    ensures SurbFromBytes(b).Some? ==> SurbToBytes(SurbFromBytes(b).value) == b
  {
    if SurbLength(|b|) {
      var keys := HEADER_SIZE + NODE_ADDRESS_LENGTH;
      HeaderBytesRoundTrip(b[..HEADER_SIZE]);
      KeyBytesRoundTrip(b[keys..]);
      assert b[..HEADER_SIZE] + b[HEADER_SIZE..keys] + b[keys..] == b;
    }
  }
}
