/**
 The routing information of a Sphinx header (header/filler.rs, header/routing/):
 the filler, the layers the sender adds, and the layer a node takes off.
 */
module SphinxRouting {
  import opened Wrappers
  import opened Bytes
  import opened SphinxKeys

  // ---- sizes --------------------------------------------------------------------

  const FLAG_LENGTH: nat := 1
  const VERSION_LENGTH: nat := 3
  const NODE_ADDRESS_LENGTH: nat := 2 * SECURITY_PARAMETER
  const DESTINATION_ADDRESS_LENGTH: nat := 2 * SECURITY_PARAMETER
  const IDENTIFIER_LENGTH: nat := SECURITY_PARAMETER
  const DELAY_LENGTH: nat := 8
  const HEADER_INTEGRITY_MAC_SIZE: nat := SECURITY_PARAMETER
  const NODE_META_INFO_SIZE: nat := NODE_ADDRESS_LENGTH + FLAG_LENGTH + DELAY_LENGTH + VERSION_LENGTH
  const FINAL_NODE_META_INFO_LENGTH: nat :=
    DESTINATION_ADDRESS_LENGTH + IDENTIFIER_LENGTH + FLAG_LENGTH + VERSION_LENGTH
  const FILLER_STEP: nat := NODE_META_INFO_SIZE + HEADER_INTEGRITY_MAC_SIZE
  const STREAM_CIPHER_OUTPUT_LENGTH: nat := FILLER_STEP * (MAX_PATH_LENGTH + 1)
  const ENCRYPTED_ROUTING_INFO_SIZE: nat := FILLER_STEP * MAX_PATH_LENGTH
  const TRUNCATED_ROUTING_INFO_SIZE: nat := ENCRYPTED_ROUTING_INFO_SIZE - FILLER_STEP

  const FORWARD_HOP: byte := 1
  const FINAL_HOP: byte := 2
  const VERSION: seq<byte> := [0, 1, 0]

  // ---- data -----------------------------------------------------------------------

  datatype Destination = Destination(address: Bytes32, identifier: Bytes16)

  type EncryptedInfo = s: seq<byte> | |s| == ENCRYPTED_ROUTING_INFO_SIZE witness Zeros(ENCRYPTED_ROUTING_INFO_SIZE)

  datatype Encapsulated = Encapsulated(info: EncryptedInfo, mac: Bytes16)

  datatype Parsed =
    | ForwardHop(address: Bytes32, delay: u64, next: Encapsulated)
    | FinalHop(destination: Bytes32, identifier: Bytes16)

  datatype RoutingError = InvalidMac | UnknownFlag(flag: byte)

  /** The pseudorandom bytes of one hop. */
  function Rho(key: Bytes16): (r: seq<byte>)
    ensures |r| == STREAM_CIPHER_OUTPUT_LENGTH
  {
    Stream(AesStream, key, 0, STREAM_CIPHER_OUTPUT_LENGTH)
  }

  function IntegrityMac(key: Bytes16, info: seq<byte>): Bytes16 {
    HmacSha256(key, info)[..HEADER_INTEGRITY_MAC_SIZE]
  }

  function WithMac(info: EncryptedInfo, keys: RoutingKeys): Encapsulated {
    Encapsulated(info, IntegrityMac(keys.macKey, info))
  }

  // ---- the filler -------------------------------------------------------------------

  /** Extends the filler by one step and XORs all of it with the end of the
      pseudorandom bytes. */
  function FillerStep(filler: seq<byte>, i: nat, rho: seq<byte>): (f: seq<byte>)
    requires 1 <= i <= MAX_PATH_LENGTH + 1
    requires |rho| == STREAM_CIPHER_OUTPUT_LENGTH && |filler| == FILLER_STEP * (i - 1)
    ensures |f| == FILLER_STEP * i
  {
    Xor(filler + Zeros(FILLER_STEP), rho[|rho| - i * FILLER_STEP..])
  }

  /** The filler of the first `n` hops. */
  function Filler(keys: seq<RoutingKeys>, n: nat): (f: seq<byte>)
    requires n <= |keys| && n <= MAX_PATH_LENGTH
    ensures |f| == FILLER_STEP * n
  {
    if n == 0 then [] else FillerStep(Filler(keys, n - 1), n, Rho(keys[n - 1].streamCipherKey))
  }

  method FillerStepInPlace(filler: seq<byte>, i: nat, rho: seq<byte>) returns (f: seq<byte>)
    requires 1 <= i <= MAX_PATH_LENGTH + 1
    requires |rho| == STREAM_CIPHER_OUTPUT_LENGTH && |filler| == FILLER_STEP * (i - 1)
    ensures f == FillerStep(filler, i, rho)
  {
    f := filler + Zeros(FILLER_STEP);
    var extended, tail := f, rho[|rho| - i * FILLER_STEP..];
    var j := 0;
    while j < |f|
      invariant j <= |f| == |extended|
      invariant forall k | 0 <= k < j :: f[k] == XorByte(extended[k], tail[k])
      invariant forall k | j <= k < |f| :: f[k] == extended[k]
    {
      f := f[j := XorByte(f[j], tail[j])];
      j := j + 1;
    }
  }

  /** The filler of all given hops; the program asserts that they are not too many. */
  method NewFiller(keys: seq<RoutingKeys>) returns (f: seq<byte>)
    requires |keys| <= MAX_PATH_LENGTH
    ensures f == Filler(keys, |keys|)
  {
    hide FillerStep;
    f := [];
    for i := 0 to |keys|
      invariant f == Filler(keys, i)
    {
      f := FillerStepInPlace(f, i + 1, Rho(keys[i].streamCipherKey));
    }
  }

  // ---- the layers of the sender --------------------------------------------------------

  /** The bytes that the last hop reads, before encryption. */
  function FinalComponents(dest: Destination, padding: seq<byte>): (c: seq<byte>)
    ensures |c| == FINAL_NODE_META_INFO_LENGTH + |padding|
  {
    [FINAL_HOP] + VERSION + dest.address + dest.identifier + padding
  }

  predicate PaddingFits(padding: seq<byte>, routeLen: nat) {
    |padding| + FILLER_STEP * (routeLen - 1) + FINAL_NODE_META_INFO_LENGTH == ENCRYPTED_ROUTING_INFO_SIZE
  }

  function FinalInfo(dest: Destination, keys: RoutingKeys, filler: seq<byte>, routeLen: nat, padding: seq<byte>): EncryptedInfo
    requires 1 <= routeLen <= MAX_PATH_LENGTH && PaddingFits(padding, routeLen)
    requires |filler| == FILLER_STEP * (routeLen - 1)
  {
    var c := FinalComponents(dest, padding);
    Xor(c, Rho(keys.streamCipherKey)[..|c|]) + filler
  }

  function ForwardComponents(address: Bytes32, delay: u64, next: Encapsulated): (c: seq<byte>)
    ensures |c| == ENCRYPTED_ROUTING_INFO_SIZE
  {
    [FORWARD_HOP] + VERSION + address + ToBE(delay, DELAY_LENGTH) + next.mac
      + next.info[..TRUNCATED_ROUTING_INFO_SIZE]
  }

  function ForwardInfo(address: Bytes32, delay: u64, next: Encapsulated, keys: RoutingKeys): EncryptedInfo {
    Xor(ForwardComponents(address, delay, next), Rho(keys.streamCipherKey)[..ENCRYPTED_ROUTING_INFO_SIZE])
  }

  /** All inputs of a header; `padding` are the random bytes behind the destination. */
  datatype Plan = Plan(
    addresses: seq<Bytes32>,
    delays: seq<u64>,
    destination: Destination,
    keys: seq<RoutingKeys>,
    padding: seq<byte>)
  {
    ghost predicate Valid() {
      && 1 <= |addresses| <= MAX_PATH_LENGTH
      && |delays| == |keys| == |addresses|
      && PaddingFits(padding, |addresses|)
    }
  }

  /** The routing information that reaches hop `k`. */
  function Routing(p: Plan, k: nat): Encapsulated
    requires p.Valid() && k < |p.addresses|
    decreases |p.addresses| - k
  {
    var last := |p.addresses| - 1;
    if k == last then
      WithMac(FinalInfo(p.destination, p.keys[k], Filler(p.keys, last), |p.addresses|, p.padding), p.keys[k])
    else
      WithMac(ForwardInfo(p.addresses[k + 1], p.delays[k], Routing(p, k + 1), p.keys[k]), p.keys[k])
  }

  // ---- the layer of a node ----------------------------------------------------------------

  /** Zero-extends the routing information and decrypts it. */
  function Decrypt(info: EncryptedInfo, key: Bytes16): (raw: seq<byte>)
    ensures |raw| == ENCRYPTED_ROUTING_INFO_SIZE + FILLER_STEP
  {
    Xor(info + Zeros(FILLER_STEP), Rho(key))
  }

  lemma {:induction false} DelayFits(b: seq<byte>)
    requires |b| == DELAY_LENGTH
    ensures FromBE(b) < 0x1_0000_0000_0000_0000
  {
    FromBERoundTrip(b);
    assert Pow256(8) == 0x1_0000_0000_0000_0000;
  }

  function ParseForward(raw: seq<byte>): Parsed
    requires |raw| == ENCRYPTED_ROUTING_INFO_SIZE + FILLER_STEP
  {
    DelayFits(raw[36..44]);
    ForwardHop(raw[4..36], FromBE(raw[36..44]), Encapsulated(raw[60..60 + ENCRYPTED_ROUTING_INFO_SIZE], raw[44..60]))
  }

  function ParseFinal(raw: seq<byte>): Parsed
    requires |raw| == ENCRYPTED_ROUTING_INFO_SIZE + FILLER_STEP
  {
    FinalHop(raw[4..36], raw[36..52])
  }

  function Parse(raw: seq<byte>): Result<Parsed, RoutingError>
    requires |raw| == ENCRYPTED_ROUTING_INFO_SIZE + FILLER_STEP
  {
    if raw[0] == FORWARD_HOP then Ok(ParseForward(raw))
    else if raw[0] == FINAL_HOP then Ok(ParseFinal(raw))
    else Err(UnknownFlag(raw[0]))
  }

  function Unwrap(e: Encapsulated, keys: RoutingKeys): Result<Parsed, RoutingError> {
    if IntegrityMac(keys.macKey, e.info) != e.mac then Err(InvalidMac)
    else Parse(Decrypt(e.info, keys.streamCipherKey))
  }

  // ---- decrypting at an index ---------------------------------------------------------------

  lemma {:induction false} DecryptAt(plain: seq<byte>, rest: seq<byte>, key: Bytes16, i: nat)
    requires |plain| + |rest| == ENCRYPTED_ROUTING_INFO_SIZE && i < |plain|
    ensures Decrypt(Xor(plain, Rho(key)[..|plain|]) + rest, key)[i] == plain[i]
  {
    var info := Xor(plain, Rho(key)[..|plain|]) + rest;
    assert (info + Zeros(FILLER_STEP))[i] == XorByte(plain[i], Rho(key)[i]);
    XorTwice(plain[i], Rho(key)[i]);
  }

  lemma {:induction false} DecryptEndAt(info: EncryptedInfo, key: Bytes16, i: nat)
    requires ENCRYPTED_ROUTING_INFO_SIZE <= i < ENCRYPTED_ROUTING_INFO_SIZE + FILLER_STEP
    ensures Decrypt(info, key)[i] == Rho(key)[i]
  {
    assert (info + Zeros(FILLER_STEP))[i] == 0;
    XorZero(Rho(key)[i]);
  }

  // ---- the filler invariant --------------------------------------------------------------------

  lemma {:induction false} FillerStepAt(filler: seq<byte>, i: nat, rho: seq<byte>, x: nat)
    requires 1 <= i <= MAX_PATH_LENGTH
    requires |rho| == STREAM_CIPHER_OUTPUT_LENGTH && |filler| == FILLER_STEP * (i - 1) && x < FILLER_STEP * i
    ensures FillerStep(filler, i, rho)[x]
            == XorByte(if x < |filler| then filler[x] else 0, rho[|rho| - i * FILLER_STEP + x])
  {
    assert rho[|rho| - i * FILLER_STEP..][x] == rho[|rho| - i * FILLER_STEP + x];
  }

  lemma {:induction false} ForwardInfoAt(address: Bytes32, delay: u64, next: Encapsulated, keys: RoutingKeys, i: nat)
    requires FILLER_STEP <= i < ENCRYPTED_ROUTING_INFO_SIZE
    ensures ForwardInfo(address, delay, next, keys)[i]
            == XorByte(next.info[i - FILLER_STEP], Rho(keys.streamCipherKey)[i])
  {
    var meta := [FORWARD_HOP] + VERSION + address + ToBE(delay, DELAY_LENGTH) + next.mac;
    assert ForwardComponents(address, delay, next) == meta + next.info[..TRUNCATED_ROUTING_INFO_SIZE];
  }

  ghost predicate EndsWith(info: seq<byte>, tail: seq<byte>) {
    |tail| <= |info| && forall x | 0 <= x < |tail| :: info[|info| - |tail| + x] == tail[x]
  }

  /** A forward layer turns information that ends with one more filler step into
      information that ends with the filler before. */
  lemma {:induction false} ForwardKeepsFiller(address: Bytes32, delay: u64, next: Encapsulated, keys: RoutingKeys,
                                              filler: seq<byte>, i: nat)
    requires 1 <= i <= MAX_PATH_LENGTH && |filler| == FILLER_STEP * (i - 1)
    requires EndsWith(next.info, FillerStep(filler, i, Rho(keys.streamCipherKey)))
    ensures EndsWith(ForwardInfo(address, delay, next, keys), filler)
  {
    hide ForwardInfo, FillerStep;
    var info, rho := ForwardInfo(address, delay, next, keys), Rho(keys.streamCipherKey);
    var longer := FillerStep(filler, i, rho);
    forall x | 0 <= x < |filler|
      ensures info[|info| - |filler| + x] == filler[x]
    {
      var at := |info| - |filler| + x;
      ForwardInfoAt(address, delay, next, keys, at);
      FillerStepAt(filler, i, rho, x);
      assert next.info[|next.info| - |longer| + x] == longer[x];
      XorTwice(filler[x], rho[at]);
    }
  }

  lemma {:induction false} FinalEndsWithFiller(dest: Destination, keys: RoutingKeys, filler: seq<byte>, routeLen: nat, padding: seq<byte>)
    requires 1 <= routeLen <= MAX_PATH_LENGTH && PaddingFits(padding, routeLen)
    requires |filler| == FILLER_STEP * (routeLen - 1)
    ensures EndsWith(FinalInfo(dest, keys, filler, routeLen, padding), filler)
  {
  }

  /** The filler-tail invariant: the routing information that reaches hop `k` ends
      with the filler of the `k` hops before it. */
  lemma {:induction false} FillerTail(p: Plan, k: nat)
    requires p.Valid() && k < |p.addresses|
    ensures EndsWith(Routing(p, k).info, Filler(p.keys, k))
    decreases |p.addresses| - k
  {
    hide ForwardInfo, FinalInfo, FillerStep, IntegrityMac, EndsWith;
    if k == |p.addresses| - 1 {
      FinalEndsWithFiller(p.destination, p.keys[k], Filler(p.keys, k), |p.addresses|, p.padding);
    } else {
      FillerTail(p, k + 1);
      ForwardKeepsFiller(p.addresses[k + 1], p.delays[k], Routing(p, k + 1), p.keys[k], Filler(p.keys, k), k + 1);
    }
  }

  // ---- what a node reads --------------------------------------------------------------------------

  /** Decrypting a forward layer gives the metadata followed by the complete next
      routing information: the part cut off is regenerated. */
  lemma {:induction false} ForwardDecrypts(address: Bytes32, delay: u64, next: Encapsulated, keys: RoutingKeys,
                                           filler: seq<byte>, i: nat)
    requires 1 <= i <= MAX_PATH_LENGTH && |filler| == FILLER_STEP * (i - 1)
    requires EndsWith(next.info, FillerStep(filler, i, Rho(keys.streamCipherKey)))
    ensures Decrypt(ForwardInfo(address, delay, next, keys), keys.streamCipherKey)
            == [FORWARD_HOP] + VERSION + address + ToBE(delay, DELAY_LENGTH) + next.mac + next.info
  {
    var key := keys.streamCipherKey;
    var info, rho := ForwardInfo(address, delay, next, keys), Rho(key);
    var plain := ForwardComponents(address, delay, next);
    var longer := FillerStep(filler, i, rho);
    var whole := [FORWARD_HOP] + VERSION + address + ToBE(delay, DELAY_LENGTH) + next.mac + next.info;
    assert info == Xor(plain, rho[..|plain|]) + [];
    assert plain == whole[..ENCRYPTED_ROUTING_INFO_SIZE];
    forall j | 0 <= j < |whole|
      ensures Decrypt(info, key)[j] == whole[j]
    {
      if j < ENCRYPTED_ROUTING_INFO_SIZE {
        DecryptAt(plain, [], key, j);
      } else {
        DecryptEndAt(info, key, j);
        var x := j - FILLER_STEP - (ENCRYPTED_ROUTING_INFO_SIZE - |longer|);
        FillerStepAt(filler, i, rho, x);
        XorZero(rho[j]);
        assert whole[j] == next.info[j - FILLER_STEP];
        assert next.info[|next.info| - |longer| + x] == longer[x];
      }
    }
  }

  lemma {:induction false} ParsesForward(address: Bytes32, delay: u64, next: Encapsulated)
    ensures Parse([FORWARD_HOP] + VERSION + address + ToBE(delay, DELAY_LENGTH) + next.mac + next.info)
            == Ok(ForwardHop(address, delay, next))
  {
    var raw := [FORWARD_HOP] + VERSION + address + ToBE(delay, DELAY_LENGTH) + next.mac + next.info;
    assert Pow256(8) == 0x1_0000_0000_0000_0000;
    BERoundTrip(delay, DELAY_LENGTH);
    assert raw[4..36] == address;
    assert raw[36..44] == ToBE(delay, DELAY_LENGTH);
    assert raw[44..60] == next.mac;
    assert raw[60..60 + ENCRYPTED_ROUTING_INFO_SIZE] == next.info;
  }

  lemma {:induction false} FinalParses(dest: Destination, keys: RoutingKeys, filler: seq<byte>, routeLen: nat, padding: seq<byte>)
    requires 1 <= routeLen <= MAX_PATH_LENGTH && PaddingFits(padding, routeLen)
    requires |filler| == FILLER_STEP * (routeLen - 1)
    ensures Parse(Decrypt(FinalInfo(dest, keys, filler, routeLen, padding), keys.streamCipherKey))
            == Ok(FinalHop(dest.address, dest.identifier))
  {
    var plain := FinalComponents(dest, padding);
    var raw := Decrypt(FinalInfo(dest, keys, filler, routeLen, padding), keys.streamCipherKey);
    forall i | 0 <= i < |plain|
      ensures raw[i] == plain[i]
    {
      DecryptAt(plain, filler, keys.streamCipherKey, i);
    }
    assert plain[4..36] == dest.address && plain[36..52] == dest.identifier;
    assert raw[4..36] == plain[4..36] && raw[36..52] == plain[36..52];
  }

  /** Every hop accepts its routing information. An intermediate hop reads the next
      address, its delay, and exactly the routing information for the next hop; the
      last one reads the destination. */
  lemma {:induction false} HopUnwraps(p: Plan, k: nat)
    requires p.Valid() && k < |p.addresses|
    ensures Unwrap(Routing(p, k), p.keys[k]) ==
            if k == |p.addresses| - 1 then Ok(FinalHop(p.destination.address, p.destination.identifier))
            else Ok(ForwardHop(p.addresses[k + 1], p.delays[k], Routing(p, k + 1)))
  {
    hide ForwardInfo, FinalInfo, FillerStep, IntegrityMac, Parse, Decrypt;
    var last := |p.addresses| - 1;
    if k == last {
      FinalParses(p.destination, p.keys[k], Filler(p.keys, last), |p.addresses|, p.padding);
    } else {
      var next := Routing(p, k + 1);
      FillerTail(p, k + 1);
      ForwardDecrypts(p.addresses[k + 1], p.delays[k], next, p.keys[k], Filler(p.keys, k), k + 1);
      ParsesForward(p.addresses[k + 1], p.delays[k], next);
    }
  }

  // ---- what is sent -------------------------------------------------------------------------------

  /** Decryption in bytes: the keystream of the key over the routing information and
      the zeros behind it. */
  lemma {:induction false} DecryptBytes(info: EncryptedInfo, key: Bytes16, i: nat)
    requires i < |info| + 60
    ensures Decrypt(info, key)[i] == XorByte(if i < |info| then info[i] else 0, AesStream(key, i))
  {
    assert (info + Zeros(FILLER_STEP))[i] == if i < |info| then info[i] else 0;
  }

  /** The tag that reaches hop `k` is the MAC of the information that reaches it. */
  lemma {:induction false} RoutingTag(p: Plan, k: nat)
    requires p.Valid() && k < |p.addresses|
    ensures Routing(p, k).mac == HmacSha256(p.keys[k].macKey, Routing(p, k).info)[..16]
  {
  }

  /** What reaches an intermediate hop: its metadata and the information for the next
      hop, without its last 60 bytes, under the keystream of the hop. */
  lemma {:induction false} ForwardBytes(p: Plan, k: nat)
    requires p.Valid() && k < |p.addresses| - 1
    ensures var info, next := Routing(p, k).info, Routing(p, k + 1);
      var meta := [1] + [0, 1, 0] + p.addresses[k + 1] + ToBE(p.delays[k], 8) + next.mac;
      |meta| == 60 && forall i | 0 <= i < |info| ::
        info[i] == XorByte(if i < 60 then meta[i] else next.info[i - 60], AesStream(p.keys[k].streamCipherKey, i))
  {
    hide ToBE, IntegrityMac, FinalInfo, FillerStep;
    var next, key := Routing(p, k + 1), p.keys[k].streamCipherKey;
    var meta := [1] + [0, 1, 0] + p.addresses[k + 1] + ToBE(p.delays[k], 8) + next.mac;
    var plain := ForwardComponents(p.addresses[k + 1], p.delays[k], next);
    assert plain == meta + next.info[..TRUNCATED_ROUTING_INFO_SIZE];
    assert Routing(p, k).info == ForwardInfo(p.addresses[k + 1], p.delays[k], next, p.keys[k]);
  }

  /** What reaches the last hop: the destination and the padding under the keystream of
      the hop, and then the filler of all hops before it. */
  lemma {:induction false} FinalBytes(p: Plan)
    requires p.Valid()
    ensures var n := |p.addresses| - 1;
      var info, filler := Routing(p, n).info, Filler(p.keys, n);
      var plain := [2] + [0, 1, 0] + p.destination.address + p.destination.identifier + p.padding;
      && |info| == |plain| + |filler|
      && (forall i | 0 <= i < |plain| :: info[i] == XorByte(plain[i], AesStream(p.keys[n].streamCipherKey, i)))
      && info[|plain|..] == filler
  {
    hide FillerStep, IntegrityMac;
  }

  /** The byte at place `x` of the filler of `n` hops: the keystreams of the hops whose
      steps reach that place, each read from where that hop had it. */
  lemma {:induction false} FillerBytes(keys: seq<RoutingKeys>, n: nat, x: nat)
    requires 0 < n <= |keys| && n <= MAX_PATH_LENGTH && x < 60 * n
    ensures Filler(keys, n)[x] == XorByte(if x < 60 * (n - 1) then Filler(keys, n - 1)[x] else 0,
      AesStream(keys[n - 1].streamCipherKey, 60 * (MAX_PATH_LENGTH + 1) - 60 * n + x))
  {
    FillerStepAt(Filler(keys, n - 1), n, Rho(keys[n - 1].streamCipherKey), x);
  }
}
