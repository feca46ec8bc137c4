/**
 One layer of an Aimless onion (format.rs): the hop block, its encryption and
 its tag, as functions on onion values. The foreign primitives are constants
 about which only the contract of their type is known; every such type has a
 witness, so the contracts can be met.
 */
module OnionFormat {
  import opened Wrappers
  import opened Bytes
  import opened NodeNames
  import opened Hibe

  // ---- constants ----------------------------------------------------------

  const PRIME: nat := 927659228076472818176252176283652096798126523793
  const INT_SIZE: nat := 20
  const HIBE_OVERHEAD: nat := 48 + 96 + 8
  const SHARE_SIZE: nat := INT_SIZE + HIBE_OVERHEAD
  const TAG_SIZE: nat := 32
  const NONCE_SIZE: nat := 16
  const HOP_MACCED_PREFIX_LEN: nat := 4
  const HOP_INFO_SIZE: nat := HOP_MACCED_PREFIX_LEN + TAG_SIZE

  type Share = s: seq<byte> | |s| == SHARE_SIZE witness Zeros(SHARE_SIZE)
  type Tag = s: seq<byte> | |s| == TAG_SIZE witness Zeros(TAG_SIZE)
  type Nonce = s: seq<byte> | |s| == NONCE_SIZE witness Zeros(NONCE_SIZE)

  function PerHopSize(numAuthorities: nat): nat {
    HOP_INFO_SIZE + 8 + 8 + numAuthorities * SHARE_SIZE
  }

  // ---- primitives ---------------------------------------------------------

  /** The keystream of AES in counter mode under the zero initialisation vector. */
  const CtrStream: StreamFn

  type MacFn = f: (seq<byte>, seq<byte>) -> seq<byte> | forall k, m :: |f(k, m)| == TAG_SIZE
    witness (k, m) => Zeros(TAG_SIZE)

  /** HMAC (section 2 of RFC 2104) of a message under a key. */
  const Hmac: MacFn

  /** `split(coin, secret, threshold)` yields one share value more than the
      threshold; `recover` takes pairs of an index, counted from 1, and a value. */
  datatype SharingScheme = SharingScheme(
    split: (nat, nat, nat) -> seq<nat>,
    recover: seq<(nat, nat)> -> nat)

  /** The first `threshold` shares, numbered from 1, give the secret back. */
  ghost predicate SharingContract(s: SharingScheme) {
    forall coin: nat, secret: nat, threshold: nat | secret < PRIME && threshold > 0 ::
      var values := s.split(coin, secret, threshold);
      && |values| == threshold + 1
      && (forall i | 0 <= i <= threshold :: values[i] < PRIME)
      && s.recover(Numbered(values[..threshold])) == secret
  }

  function Numbered(values: seq<nat>): (n: seq<(nat, nat)>)
    ensures |n| == |values|
    ensures forall i | 0 <= i < |values| :: n[i] == (i + 1, values[i])
  {
    seq(|values|, i requires 0 <= i < |values| => (i + 1, values[i]))
  }

  function Copies(n: nat, value: nat): (c: seq<nat>)
    ensures |c| == n && forall i | 0 <= i < n :: c[i] == value
  {
    seq(n, _ => value)
  }

  type Sharing = s: SharingScheme | SharingContract(s)
    witness SharingScheme(
      (coin, secret, threshold) => Copies(threshold + 1, secret),
      (shares: seq<(nat, nat)>) => if shares == [] then 0 else shares[0].1)

  const Shamir: Sharing

  /** `encrypt(coin, publicKey, node, message)` and `decrypt(publicKey, privateKey, ciphertext)`. */
  datatype KemScheme = KemScheme(
    encrypt: (nat, PublicKey, NodeName, seq<byte>) -> seq<byte>,
    decrypt: (PublicKey, PrivateKey, seq<byte>) -> Option<seq<byte>>)

  /** Ciphertexts have a fixed overhead, and the key of a node decrypts what was
      encrypted for that node. */
  ghost predicate KemContract(k: KemScheme) {
    forall coin, pk, node, message :: KemInverts(k, coin, pk, node, message)
  }

  ghost predicate KemInverts(k: KemScheme, coin: nat, pk: PublicKey, node: NodeName, message: seq<byte>) {
    var ciphertext := k.encrypt(coin, pk, node, message);
    && |ciphertext| == |message| + HIBE_OVERHEAD
    && forall msk, sk | IsSetup(pk, msk) && IsKeyFor(pk, msk, sk, MapIdentity(node)) ::
         k.decrypt(pk, sk, ciphertext) == Some(message)
  }

  type Kem = k: KemScheme | KemContract(k)
    witness KemScheme(
      (coin, pk, node, message) => message + Zeros(HIBE_OVERHEAD),
      (pk, sk, c) => if |c| < HIBE_OVERHEAD then None else Some(c[..|c| - HIBE_OVERHEAD]))

  const Bbg: Kem

  // ---- values -------------------------------------------------------------

  datatype HopInfo = HopInfo(delay: u32, tag: Tag)

  datatype OnionValue = OnionValue(identity: u64, shares: seq<Share>, header: seq<byte>, payload: seq<byte>) {

    predicate IsFinalDestination() {
      identity == 0 && forall i | 0 <= i < |shares| :: shares[i] == EmptyShare()
    }
  }

  /** Panics of the program are errors as well. */
  datatype OnionError = ShareDecryption | WrongShareCount | HeaderTooShort | MacMismatch | MalformedHop

  function EmptyShare(): Share {
    Zeros(SHARE_SIZE)
  }

  function Fresh(numAuthorities: nat, pathLength: nat, data: seq<byte>): OnionValue {
    OnionValue(0, seq<Share>(numAuthorities, _ => EmptyShare()),
               Zeros(pathLength * PerHopSize(numAuthorities)), data)
  }

  // ---- the hop block ------------------------------------------------------

  function Concat(shares: seq<Share>): (b: seq<byte>)
    ensures |b| == |shares| * SHARE_SIZE
  {
    if shares == [] then [] else shares[0] + Concat(shares[1..])
  }

  function SerializeHop(delay: u32, tag: Tag, identity: u64, shares: seq<Share>): (b: seq<byte>)
    ensures |b| == PerHopSize(|shares|)
  {
    ToLE(delay, 4) + tag + NextHop(identity, shares)
  }

  function NextHop(identity: u64, shares: seq<Share>): (b: seq<byte>)
    ensures |b| == 16 + |shares| * SHARE_SIZE
  {
    ToLE(identity, 8) + ToLE(|shares|, 8) + Concat(shares)
  }

  function ParseShares(b: seq<byte>, count: nat): Option<seq<Share>>
    decreases count
  {
    if count == 0 then Some([])
    else if |b| < SHARE_SIZE then None
    else
      match ParseShares(b[SHARE_SIZE..], count - 1)
      case None => None
      case Some(rest) => var first: Share := b[..SHARE_SIZE]; Some([first] + rest)
  }

  /** Bytes after the last share are ignored. */
  function DeserializeHop(b: seq<byte>): Option<(HopInfo, u64, seq<Share>)> {
    if |b| < PerHopSize(0) then None
    else
      FromLEFits(b[..4], 4);
      FromLEFits(b[36..44], 8);
      match ParseShares(b[52..], FromLE(b[44..52]))
      case None => None
      case Some(shares) =>
        Some((HopInfo(FromLE(b[..4]), b[4..36]), FromLE(b[36..44]), shares))
  }

  lemma {:induction false} Pow256Words()
    ensures Pow256(4) == 0x1_0000_0000
    ensures Pow256(8) == 0x1_0000_0000_0000_0000
    ensures Pow256(16) == 0x1_0000_0000_0000_0000_0000_0000_0000_0000
    ensures Pow256(20) == 0x1_0000_0000_0000_0000_0000_0000_0000_0000_0000_0000
  {
  }

  lemma {:induction false} FromLEFits(b: seq<byte>, k: nat)
    requires |b| == k
    ensures k == 4 ==> FromLE(b) < 0x1_0000_0000
    ensures k == 8 ==> FromLE(b) < 0x1_0000_0000_0000_0000
  {
    FromLERoundTrip(b);
    Pow256Words();
  }

  lemma {:induction false} ParseConcat(shares: seq<Share>)
    ensures ParseShares(Concat(shares), |shares|) == Some(shares)
  {
    if shares != [] {
      ParseConcat(shares[1..]);
      assert Concat(shares)[SHARE_SIZE..] == Concat(shares[1..]);
      assert Concat(shares)[..SHARE_SIZE] == shares[0];
      assert [shares[0]] + shares[1..] == shares;
    }
  }

  lemma {:induction false} HopRoundTrip(delay: u32, tag: Tag, identity: u64, shares: seq<Share>)
    requires |shares| < 0x1_0000_0000_0000_0000
    ensures DeserializeHop(SerializeHop(delay, tag, identity, shares))
            == Some((HopInfo(delay, tag), identity, shares))
  {
    hide ToLE, FromLE, Concat, Pow256;
    var b := SerializeHop(delay, tag, identity, shares);
    Pow256Words();
    LERoundTrip(delay, 4);
    LERoundTrip(identity, 8);
    LERoundTrip(|shares|, 8);
    assert b[..4] == ToLE(delay, 4);
    assert b[4..36] == tag;
    assert b[36..44] == ToLE(identity, 8);
    assert b[44..52] == ToLE(|shares|, 8);
    assert b[52..] == Concat(shares);
    ParseConcat(shares);
  }

  // ---- tags ---------------------------------------------------------------

  /** The tag covers everything except its own place in the header. */
  function MacInput(identity: u64, shares: seq<Share>, header: seq<byte>, payload: seq<byte>): seq<byte>
    requires |header| >= HOP_INFO_SIZE
  {
    NextHop(identity, shares) + header[..HOP_MACCED_PREFIX_LEN] + header[HOP_INFO_SIZE..] + payload
  }

  function TagOnion(key: seq<byte>, identity: u64, shares: seq<Share>, header: seq<byte>, payload: seq<byte>): Tag
    requires |header| >= HOP_INFO_SIZE
  {
    Hmac(key, MacInput(identity, shares, header, payload))
  }

  function AccessTag(header: seq<byte>): Tag
    requires |header| >= HOP_INFO_SIZE
  {
    header[HOP_MACCED_PREFIX_LEN..HOP_INFO_SIZE]
  }

  function SetTag(header: seq<byte>, tag: Tag): (h: seq<byte>)
    requires |header| >= HOP_INFO_SIZE
    ensures |h| == |header|
  {
    header[..HOP_MACCED_PREFIX_LEN] + tag + header[HOP_INFO_SIZE..]
  }

  lemma {:induction false} SetTagAt(header: seq<byte>, tag: Tag, i: nat)
    requires HOP_INFO_SIZE <= |header| && i < |header|
    ensures SetTag(header, tag)[i] ==
            if HOP_MACCED_PREFIX_LEN <= i < HOP_INFO_SIZE then tag[i - HOP_MACCED_PREFIX_LEN] else header[i]
  {
  }

  lemma {:induction false} Replaces(prefix: seq<byte>, tag: Tag, rest: seq<byte>, other: Tag)
    requires |prefix| == HOP_MACCED_PREFIX_LEN
    ensures SetTag(prefix + tag + rest, other) == prefix + other + rest
  {
  }

  lemma {:induction false} HopTag(delay: u32, tag: Tag, identity: u64, shares: seq<Share>, other: Tag)
    ensures SetTag(SerializeHop(delay, tag, identity, shares), other) == SerializeHop(delay, other, identity, shares)
  {
    Replaces(ToLE(delay, 4), tag, NextHop(identity, shares), other);
  }

  lemma {:induction false} TagIgnoresItself(key: seq<byte>, identity: u64, shares: seq<Share>, header: seq<byte>, payload: seq<byte>, tag: Tag)
    requires |header| >= HOP_INFO_SIZE
    ensures AccessTag(SetTag(header, tag)) == tag
    ensures TagOnion(key, identity, shares, SetTag(header, tag), payload)
            == TagOnion(key, identity, shares, header, payload)
  {
    var h := SetTag(header, tag);
    assert h[..HOP_MACCED_PREFIX_LEN] == header[..HOP_MACCED_PREFIX_LEN];
    assert h[HOP_INFO_SIZE..] == header[HOP_INFO_SIZE..];
  }

  // ---- shares of the nonce ------------------------------------------------

  function WrapShare(coin: nat, identity: u64, pk: PublicKey, share: nat): (s: Share)
    requires share < PRIME
  {
    Pow256Words();
    PaddedRoundTrip(share, INT_SIZE);
    var bytes := PadTo(MinLE(share), INT_SIZE);
    assert KemInverts(Bbg, coin, pk, Number(identity), bytes);
    Bbg.encrypt(coin, pk, Number(identity), bytes)
  }

  function UnwrapShare(s: Share, pk: PublicKey, sk: PrivateKey): Option<nat> {
    match Bbg.decrypt(pk, sk, s)
    case None => None
    case Some(bytes) => Some(FromLE(bytes))
  }

  /** The share values of a nonce, one for each authority. */
  function NonceShares(coin: nat, nonce: Nonce, n: nat): (v: seq<nat>)
    requires n > 0
    ensures |v| == n
    ensures forall i | 0 <= i < n :: v[i] < PRIME
    ensures Shamir.recover(Numbered(v)) == FromLE(nonce)
  {
    FromLERoundTrip(nonce);
    Pow256Words();
    Shamir.split(coin, FromLE(nonce), n)[..n]
  }

  /** The encrypted shares; `coins` are the random draws of the sender. */
  function MakeShares(coins: nat -> nat, nonce: Nonce, identity: u64, pks: seq<PublicKey>): (s: seq<Share>)
    requires pks != []
    ensures |s| == |pks|
  {
    var values := NonceShares(coins(0), nonce, |pks|);
    seq<Share>(|pks|, i requires 0 <= i < |pks| => WrapShare(coins(i + 1), identity, pks[i], values[i]))
  }

  /** Decrypts shares pairwise with the keys, up to the shortest list. */
  function UnwrapShares(shares: seq<Share>, pks: seq<PublicKey>, sks: seq<PrivateKey>): Option<seq<nat>>
    decreases |shares|
  {
    if shares == [] || pks == [] || sks == [] then Some([])
    else
      match UnwrapShare(shares[0], pks[0], sks[0])
      case None => None
      case Some(v) =>
        match UnwrapShares(shares[1..], pks[1..], sks[1..])
        case None => None
        case Some(rest) => Some([v] + rest)
  }

  /** The bytes of the recovered number, filled up to the size of a nonce. */
  function NonceBytes(secret: nat): (b: seq<byte>)
    ensures |b| >= NONCE_SIZE
  {
    PadTo(MinLE(secret), NONCE_SIZE)
  }

  /** `sks` are keys of the leaf of `identity`, one for each authority. */
  ghost predicate KeysFor(identity: u64, pks: seq<PublicKey>, sks: seq<PrivateKey>) {
    && |sks| == |pks|
    && forall i | 0 <= i < |pks| :: KeyFor(identity, pks[i], sks[i])
  }

  ghost predicate KeyFor(identity: u64, pk: PublicKey, sk: PrivateKey) {
    exists msk :: IsSetup(pk, msk) && IsKeyFor(pk, msk, sk, MapIdentity(Number(identity)))
  }

  lemma {:induction false} ShareRoundTrip(coin: nat, identity: u64, pk: PublicKey, sk: PrivateKey, share: nat)
    requires share < PRIME && KeyFor(identity, pk, sk)
    ensures UnwrapShare(WrapShare(coin, identity, pk, share), pk, sk) == Some(share)
  {
    Pow256Words();
    PaddedRoundTrip(share, INT_SIZE);
    assert KemInverts(Bbg, coin, pk, Number(identity), PadTo(MinLE(share), INT_SIZE));
  }

  lemma {:induction false} SharesRoundTrip(shares: seq<Share>, values: seq<nat>, pks: seq<PublicKey>, sks: seq<PrivateKey>)
    requires |shares| == |values| == |pks| == |sks|
    requires forall i | 0 <= i < |shares| :: UnwrapShare(shares[i], pks[i], sks[i]) == Some(values[i])
    ensures UnwrapShares(shares, pks, sks) == Some(values)
  {
    if shares != [] {
      SharesRoundTrip(shares[1..], values[1..], pks[1..], sks[1..]);
      assert [values[0]] + values[1..] == values;
    }
  }

  /** Splitting, padding, encrypting, decrypting and recovering gives the nonce back. */
  lemma {:induction false} NonceRoundTrip(coins: nat -> nat, nonce: Nonce, identity: u64, pks: seq<PublicKey>, sks: seq<PrivateKey>)
    requires pks != [] && KeysFor(identity, pks, sks)
    ensures var values := UnwrapShares(MakeShares(coins, nonce, identity, pks), pks, sks);
            values.Some? && |values.value| == |pks| && NonceBytes(Shamir.recover(Numbered(values.value))) == nonce
  {
    var values := NonceShares(coins(0), nonce, |pks|);
    var shares := MakeShares(coins, nonce, identity, pks);
    forall i | 0 <= i < |shares|
      ensures UnwrapShare(shares[i], pks[i], sks[i]) == Some(values[i])
    {
      assert KeyFor(identity, pks[i], sks[i]);
      ShareRoundTrip(coins(i + 1), identity, pks[i], sks[i], values[i]);
    }
    SharesRoundTrip(shares, values, pks, sks);
    FromLERoundTrip(nonce);
    PaddedRoundTrip(FromLE(nonce), NONCE_SIZE);
  }

  // ---- one layer ----------------------------------------------------------

  /** Encrypts a block in front of a header and cuts the result to the length of
      the header, as the sender does. */
  function Layered(block: seq<byte>, header: seq<byte>, key: seq<byte>): (enc: seq<byte>)
    ensures |enc| == |header|
  {
    Xor(block + header, Stream(CtrStream, key, 0, |block| + |header|))[..|header|]
  }

  /** Zero-extends a header and decrypts it, as the receiver does. */
  function Opened(header: seq<byte>, key: seq<byte>, b: nat): (plain: seq<byte>)
    ensures |plain| == |header| + b
  {
    Xor(header + Zeros(b), Stream(CtrStream, key, 0, |header| + b))
  }

  /** One step of the forward filler. */
  function FillerStep(header: seq<byte>, nonce: Nonce, phs: nat): (h: seq<byte>)
    ensures |h| == |header|
  {
    Opened(header, nonce, phs)[phs..]
  }

  /** The header of a new layer before its tag is written. */
  function WrapHeader(o: OnionValue, nonce: Nonce, delay: u32): (h: seq<byte>)
    ensures |h| == |o.header|
  {
    Layered(SerializeHop(delay, Zeros(TAG_SIZE), o.identity, o.shares), o.header, nonce)
  }

  function WrapValue(o: OnionValue, coins: nat -> nat, nonce: Nonce, identity: u64, pks: seq<PublicKey>, delay: u32):
    (w: OnionValue)
    requires |o.shares| == |pks| > 0 && |o.header| >= HOP_INFO_SIZE
    ensures |w.shares| == |o.shares| && |w.header| == |o.header| && |w.payload| == |o.payload|
  {
    var shares := MakeShares(coins, nonce, identity, pks);
    var header := WrapHeader(o, nonce, delay);
    var payload := Xor(o.payload, Stream(CtrStream, nonce, PerHopSize(|pks|) + |o.header|, |o.payload|));
    OnionValue(identity, shares, SetTag(header, TagOnion(nonce, identity, shares, header, payload)), payload)
  }

  function UnwrapValue(o: OnionValue, pks: seq<PublicKey>, sks: seq<PrivateKey>): Result<(HopInfo, OnionValue), OnionError> {
    match UnwrapShares(o.shares, pks, sks)
    case None => Err(ShareDecryption)
    case Some(values) =>
      if |values| != |o.shares| then Err(WrongShareCount)
      else if |o.header| < HOP_INFO_SIZE then Err(HeaderTooShort)
      else
        var nonce := NonceBytes(Shamir.recover(Numbered(values)));
        if TagOnion(nonce, o.identity, o.shares, o.header, o.payload) != AccessTag(o.header) then Err(MacMismatch)
        else
          DecryptLayer(o, nonce[..NONCE_SIZE], PerHopSize(|pks|))
  }

  /** Zero-extends the header, decrypts, and takes the first block off. */
  function DecryptLayer(o: OnionValue, key: Nonce, phs: nat): Result<(HopInfo, OnionValue), OnionError> {
    var header := Opened(o.header, key, phs);
    var payload := Xor(o.payload, Stream(CtrStream, key, |o.header| + phs, |o.payload|));
    match DeserializeHop(header[..phs])
    case None => Err(MalformedHop)
    case Some((hop, identity, shares)) =>
      Ok((hop, OnionValue(identity, shares, header[phs..], payload)))
  }

  // ---- peeling one layer --------------------------------------------------

  lemma {:induction false} OpenedAt(block: seq<byte>, header: seq<byte>, key: seq<byte>, tag: Tag, i: nat)
    requires HOP_INFO_SIZE <= |block| <= |header| && i < |header| + |block|
    requires i < HOP_MACCED_PREFIX_LEN || HOP_INFO_SIZE <= i
    ensures Opened(SetTag(Layered(block, header, key), tag), key, |block|)[i]
            == if i < |block| then block[i]
               else if i < |header| then header[i - |block|]
               else CtrStream(key, i)
  {
    var enc, k := Layered(block, header, key), CtrStream(key, i);
    var tagged := SetTag(enc, tag);
    assert Opened(tagged, key, |block|)[i] == XorByte((tagged + Zeros(|block|))[i], k);
    if i < |header| {
      SetTagAt(enc, tag, i);
      assert enc[i] == XorByte((block + header)[i], k);
      XorTwice((block + header)[i], k);
    } else {
      XorZero(k);
    }
  }

  /** The receiver sees the block, with other bytes in place of its tag, ... */
  lemma {:induction false} BlockPeels(block: seq<byte>, header: seq<byte>, key: seq<byte>, tag: Tag) returns (seen: Tag)
    requires HOP_INFO_SIZE <= |block| <= |header|
    ensures Opened(SetTag(Layered(block, header, key), tag), key, |block|)[..|block|] == SetTag(block, seen)
  {
    var plain := Opened(SetTag(Layered(block, header, key), tag), key, |block|);
    seen := plain[HOP_MACCED_PREFIX_LEN..HOP_INFO_SIZE];
    forall i | 0 <= i < |block|
      ensures plain[i] == SetTag(block, seen)[i]
    {
      SetTagAt(block, seen, i);
      if i < HOP_MACCED_PREFIX_LEN || HOP_INFO_SIZE <= i {
        OpenedAt(block, header, key, tag, i);
      }
    }
  }

  /** ... then the old header without its last block, then bare keystream. */
  lemma {:induction false} RestPeels(block: seq<byte>, header: seq<byte>, key: seq<byte>, tag: Tag)
    requires HOP_INFO_SIZE <= |block| <= |header|
    ensures var b, T := |block|, |header|;
      Opened(SetTag(Layered(block, header, key), tag), key, b)[b..] == header[..T - b] + Stream(CtrStream, key, T, b)
  {
    var b, T := |block|, |header|;
    var plain := Opened(SetTag(Layered(block, header, key), tag), key, b);
    var rest := header[..T - b] + Stream(CtrStream, key, T, b);
    forall i | 0 <= i < T
      ensures plain[b + i] == rest[i]
    {
      OpenedAt(block, header, key, tag, b + i);
    }
    assert plain[b..] == rest;
  }

  /** The keystream that follows the header restores the payload. */
  lemma {:induction false} PayloadPeels(payload: seq<byte>, key: seq<byte>, at: nat)
    ensures var ks := Stream(CtrStream, key, at, |payload|); Xor(Xor(payload, ks), ks) == payload
  {
    XorXor(payload, Stream(CtrStream, key, at, |payload|));
  }

  /** The receiver recovers the nonce and its tag check passes. */
  lemma {:induction false} TagVerifies(o: OnionValue, coins: nat -> nat, nonce: Nonce, identity: u64,
                    pks: seq<PublicKey>, sks: seq<PrivateKey>, delay: u32)
    requires 0 < |pks| == |o.shares| && |o.header| >= HOP_INFO_SIZE
    requires KeysFor(identity, pks, sks)
    ensures var w := WrapValue(o, coins, nonce, identity, pks, delay);
      && AccessTag(w.header) == TagOnion(nonce, identity, w.shares, WrapHeader(o, nonce, delay), w.payload)
      && w.header == SetTag(WrapHeader(o, nonce, delay), AccessTag(w.header))
      && UnwrapValue(w, pks, sks) == DecryptLayer(w, nonce, PerHopSize(|pks|))
  {
    assert nonce[..NONCE_SIZE] == nonce;
    var w := WrapValue(o, coins, nonce, identity, pks, delay);
    NonceRoundTrip(coins, nonce, identity, pks, sks);
    var header := WrapHeader(o, nonce, delay);
    TagIgnoresItself(nonce, identity, w.shares, header, w.payload,
                     TagOnion(nonce, identity, w.shares, header, w.payload));
  }

  /** One layer: for a header of at least one block, unwrapping a freshly wrapped
      onion gives back everything but the last block of the header, which becomes
      the keystream behind the header. */
  lemma {:induction false} OneLayer(o: OnionValue, coins: nat -> nat, nonce: Nonce, identity: u64,
                 pks: seq<PublicKey>, sks: seq<PrivateKey>, delay: u32)
    requires 0 < |pks| == |o.shares| < 0x1_0000_0000_0000_0000
    requires |o.header| >= PerHopSize(|pks|)
    requires KeysFor(identity, pks, sks)
    ensures var T, phs := |o.header|, PerHopSize(|pks|);
      var r := UnwrapValue(WrapValue(o, coins, nonce, identity, pks, delay), pks, sks);
      && r.Ok?
      && r.value.0.delay == delay
      && r.value.1 == o.(header := o.header[..T - phs] + Stream(CtrStream, nonce, T, phs))
  {
    hide WrapHeader, SetTag, DecryptLayer, UnwrapShares, TagOnion, MakeShares;
    var w := WrapValue(o, coins, nonce, identity, pks, delay);
    TagVerifies(o, coins, nonce, identity, pks, sks, delay);
    LayerDecrypts(o, w, nonce, delay, AccessTag(w.header));
  }

  lemma {:induction false} LayerDecrypts(o: OnionValue, w: OnionValue, nonce: Nonce, delay: u32, tag: Tag)
    requires |o.shares| < 0x1_0000_0000_0000_0000 && |o.header| >= PerHopSize(|o.shares|)
    requires w.header == SetTag(WrapHeader(o, nonce, delay), tag)
    requires w.payload == Xor(o.payload, Stream(CtrStream, nonce, |o.header| + PerHopSize(|o.shares|), |o.payload|))
    ensures var T, phs := |o.header|, PerHopSize(|o.shares|);
      var r := DecryptLayer(w, nonce, phs);
      && r.Ok?
      && r.value.0.delay == delay
      && r.value.1 == o.(header := o.header[..T - phs] + Stream(CtrStream, nonce, T, phs))
  {
    hide DeserializeHop, SerializeHop, SetTag;
    var T, phs := |o.header|, PerHopSize(|o.shares|);
    var block := SerializeHop(delay, Zeros(TAG_SIZE), o.identity, o.shares);
    var seen := BlockPeels(block, o.header, nonce, tag);
    RestPeels(block, o.header, nonce, tag);
    HopTag(delay, Zeros(TAG_SIZE), o.identity, o.shares, seen);
    HopRoundTrip(delay, seen, o.identity, o.shares);
    PayloadPeels(o.payload, nonce, T + phs);
  }

  // ---- changed onions -----------------------------------------------------

  lemma {:induction false} NextHopParts(identity: u64, shares: seq<Share>)
    ensures var b := NextHop(identity, shares);
      && b[..8] == ToLE(identity, 8) && b[8..16] == ToLE(|shares|, 8) && b[16..] == Concat(shares)
  {
  }

  /** The bytes of a next hop determine it. */
  lemma {:induction false} NextHopDetermines(i: u64, s: seq<Share>, j: u64, t: seq<Share>, rest: seq<byte>, other: seq<byte>)
    requires |s| < 0x1_0000_0000_0000_0000 && |t| < 0x1_0000_0000_0000_0000
    requires NextHop(i, s) + rest == NextHop(j, t) + other
    ensures i == j && s == t && rest == other
  {
    hide ToLE, FromLE, Concat, Pow256, NextHop;
    var m, n := NextHop(i, s), NextHop(j, t);
    NextHopParts(i, s);
    NextHopParts(j, t);
    assert (m + rest)[..8] == m[..8] && (n + other)[..8] == n[..8];
    assert (m + rest)[8..16] == m[8..16] && (n + other)[8..16] == n[8..16];
    Pow256Words();
    LERoundTrip(i, 8);
    LERoundTrip(j, 8);
    LERoundTrip(|s|, 8);
    LERoundTrip(|t|, 8);
    assert |m| == |n|;
    assert (m + rest)[..|m|] == m && (n + other)[..|n|] == n;
    assert (m + rest)[|m|..] == rest && (n + other)[|n|..] == other;
    ParseConcat(s);
    ParseConcat(t);
  }

  /** Among onions with the same header size, the input of the tag determines
      everything but the tag. */
  lemma {:induction false} MacInputDetermines(a: OnionValue, b: OnionValue)
    requires |a.shares| < 0x1_0000_0000_0000_0000 && |b.shares| < 0x1_0000_0000_0000_0000
    requires |a.header| == |b.header| >= HOP_INFO_SIZE && AccessTag(a.header) == AccessTag(b.header)
    requires MacInput(a.identity, a.shares, a.header, a.payload) == MacInput(b.identity, b.shares, b.header, b.payload)
    ensures a == b
  {
    hide NextHop;
    var x := a.header[..4] + a.header[HOP_INFO_SIZE..] + a.payload;
    var y := b.header[..4] + b.header[HOP_INFO_SIZE..] + b.payload;
    assert MacInput(a.identity, a.shares, a.header, a.payload) == NextHop(a.identity, a.shares) + x;
    assert MacInput(b.identity, b.shares, b.header, b.payload) == NextHop(b.identity, b.shares) + y;
    NextHopDetermines(a.identity, a.shares, b.identity, b.shares, x, y);
    RestDetermines(a.header, a.payload, b.header, b.payload);
  }

  lemma {:induction false} RestDetermines(h: seq<byte>, p: seq<byte>, g: seq<byte>, q: seq<byte>)
    requires |h| == |g| >= HOP_INFO_SIZE && AccessTag(h) == AccessTag(g)
    requires h[..4] + h[HOP_INFO_SIZE..] + p == g[..4] + g[HOP_INFO_SIZE..] + q
    ensures h == g && p == q
  {
    var x, n := h[..4] + h[HOP_INFO_SIZE..] + p, 4 + (|h| - HOP_INFO_SIZE);
    assert h[..4] == x[..4] == g[..4];
    assert h[HOP_INFO_SIZE..] == x[4..n] == g[HOP_INFO_SIZE..];
    assert p == x[n..] == q;
    assert h == h[..4] + AccessTag(h) + h[HOP_INFO_SIZE..];
    assert g == g[..4] + AccessTag(g) + g[HOP_INFO_SIZE..];
  }

  /** The nonce that a receiver recovers from the shares. */
  function RecoverNonce(shares: seq<Share>, pks: seq<PublicKey>, sks: seq<PrivateKey>): Option<seq<byte>> {
    match UnwrapShares(shares, pks, sks)
    case None => None
    case Some(values) => Some(NonceBytes(Shamir.recover(Numbered(values))))
  }

  /** Shares are only read up to the end of the shortest list. */
  lemma {:induction false} UnwrappedShares(shares: seq<Share>, pks: seq<PublicKey>, sks: seq<PrivateKey>)
    ensures var n, r := Shortest(|shares|, |pks|, |sks|), UnwrapShares(shares, pks, sks);
      && (r.None? <==> exists i | 0 <= i < n :: Bbg.decrypt(pks[i], sks[i], shares[i]).None?)
      && (r.Some? ==> |r.value| == n)
      && (r.Some? ==> forall i | 0 <= i < n ::
            Some(r.value[i]) == UnwrapShare(shares[i], pks[i], sks[i]) && Bbg.decrypt(pks[i], sks[i], shares[i]).Some?)
    decreases |shares|
  {
    hide FromLE;
    if shares != [] && pks != [] && sks != [] {
      UnwrappedShares(shares[1..], pks[1..], sks[1..]);
      var n := Shortest(|shares|, |pks|, |sks|);
      forall i | 0 < i < n
        ensures Bbg.decrypt(pks[i], sks[i], shares[i]) == Bbg.decrypt(pks[1..][i - 1], sks[1..][i - 1], shares[1..][i - 1])
      {
      }
      if i :| 0 <= i < n - 1 && Bbg.decrypt(pks[1..][i], sks[1..][i], shares[1..][i]).None? {
        assert Bbg.decrypt(pks[i + 1], sks[i + 1], shares[i + 1]).None?;
      }
    }
  }

  function Shortest(a: nat, b: nat, c: nat): nat {
    if a <= b && a <= c then a else if b <= c then b else c
  }

  /** Only onions with a key for each share, and with the tag of their own recovered
      nonce, are accepted. */
  lemma {:induction false} AcceptedTag(o: OnionValue, pks: seq<PublicKey>, sks: seq<PrivateKey>)
    requires UnwrapValue(o, pks, sks).Ok?
    ensures |o.shares| <= |pks| && |o.shares| <= |sks|
    ensures forall i | 0 <= i < |o.shares| :: Bbg.decrypt(pks[i], sks[i], o.shares[i]).Some?
    ensures var nonce := RecoverNonce(o.shares, pks, sks);
      && nonce.Some? && |o.header| >= HOP_INFO_SIZE
      && AccessTag(o.header) == Hmac(nonce.value, MacInput(o.identity, o.shares, o.header, o.payload))
  {
    hide DecryptLayer, UnwrapShares, NonceBytes, MacInput;
    UnwrappedShares(o.shares, pks, sks);
  }

  /** The errors before decryption: a share that does not decrypt, too few keys for the
      shares, a header without room for a tag, and a wrong tag. */
  lemma {:induction false} UnwrapRefuses(o: OnionValue, pks: seq<PublicKey>, sks: seq<PrivateKey>)
    ensures var r, n := UnwrapValue(o, pks, sks), Shortest(|o.shares|, |pks|, |sks|);
      var undecryptable := exists i | 0 <= i < n :: Bbg.decrypt(pks[i], sks[i], o.shares[i]).None?;
      var nonce := RecoverNonce(o.shares, pks, sks);
      && (r == Err(ShareDecryption) <==> undecryptable)
      && (r == Err(WrongShareCount) <==> !undecryptable && n < |o.shares|)
      && (r == Err(HeaderTooShort) <==> !undecryptable && n == |o.shares| && |o.header| < HOP_INFO_SIZE)
      && (n == |o.shares| && !undecryptable && |o.header| >= HOP_INFO_SIZE ==>
            (r == Err(MacMismatch) <==>
             AccessTag(o.header) != Hmac(nonce.value, MacInput(o.identity, o.shares, o.header, o.payload))))
      && (r == Err(MacMismatch) ==> n == |o.shares| && !undecryptable && |o.header| >= HOP_INFO_SIZE)
  {
    hide UnwrapShares, NonceBytes, MacInput, UnwrapShare, AccessTag, Opened, DeserializeHop;
    UnwrappedShares(o.shares, pks, sks);
  }

  /** A changed onion that keeps its tag and its header size is only accepted if two
      different inputs have the same MAC: under the nonce itself if the shares are
      unchanged, and under the nonce that the changed shares recover otherwise. */
  lemma {:induction false} ChangeIsDetected(o: OnionValue, coins: nat -> nat, nonce: Nonce, identity: u64,
                                            pks: seq<PublicKey>, sks: seq<PrivateKey>, delay: u32, changed: OnionValue)
    requires 0 < |pks| == |o.shares| < 0x1_0000_0000_0000_0000 && |o.header| >= HOP_INFO_SIZE
    requires |changed.shares| < 0x1_0000_0000_0000_0000
    requires KeysFor(identity, pks, sks)
    requires var w := WrapValue(o, coins, nonce, identity, pks, delay);
      changed != w && |changed.header| == |w.header| && AccessTag(changed.header) == AccessTag(w.header)
    requires UnwrapValue(changed, pks, sks).Ok?
    ensures var w, recovered := WrapValue(o, coins, nonce, identity, pks, delay), RecoverNonce(changed.shares, pks, sks);
      var m, n := MacInput(w.identity, w.shares, w.header, w.payload),
                  MacInput(changed.identity, changed.shares, changed.header, changed.payload);
      && m != n && recovered.Some? && Hmac(nonce, m) == Hmac(recovered.value, n)
      && (changed.shares == w.shares ==> recovered.value == nonce)
  {
    hide DecryptLayer, MacInput, AccessTag, SetTag, WrapHeader, UnwrapValue, UnwrapShares, NonceBytes, MakeShares;
    var w := WrapValue(o, coins, nonce, identity, pks, delay);
    NonceRoundTrip(coins, nonce, identity, pks, sks);
    TagVerifies(o, coins, nonce, identity, pks, sks, delay);
    var header := WrapHeader(o, nonce, delay);
    TagIgnoresItself(nonce, identity, w.shares, header, w.payload, AccessTag(w.header));
    AcceptedTag(changed, pks, sks);
    if MacInput(w.identity, w.shares, w.header, w.payload)
       == MacInput(changed.identity, changed.shares, changed.header, changed.payload) {
      MacInputDetermines(w, changed);
    }
  }

  // ---- what is sent -----------------------------------------------------------

  /** The bytes of a wrapped onion: the hop block and the old header under the keystream
      of the nonce, except for the tag, and the payload under the keystream after that. */
  lemma {:induction false} WrappedBytes(o: OnionValue, coins: nat -> nat, nonce: Nonce, identity: u64, pks: seq<PublicKey>, delay: u32)
    requires 0 < |pks| == |o.shares| && |o.header| >= HOP_INFO_SIZE
    ensures var w := WrapValue(o, coins, nonce, identity, pks, delay);
      var block, T := ToLE(delay, 4) + Zeros(32) + NextHop(o.identity, o.shares), |o.header|;
      && (forall i | 0 <= i < T && !(4 <= i < 36) :: w.header[i] == XorByte((block + o.header)[i], CtrStream(nonce, i)))
      && w.header[4..36] == Hmac(nonce, MacInput(identity, w.shares, w.header, w.payload))
      && (forall i | 0 <= i < |o.payload| ::
            w.payload[i] == XorByte(o.payload[i], CtrStream(nonce, |block| + T + i)))
  {
    hide MacInput, MakeShares, NextHop;
    var w := WrapValue(o, coins, nonce, identity, pks, delay);
    var header := WrapHeader(o, nonce, delay);
    var tag := TagOnion(nonce, identity, w.shares, header, w.payload);
    TagIgnoresItself(nonce, identity, w.shares, header, w.payload, tag);
    forall i | 0 <= i < |o.header| && !(4 <= i < 36)
      ensures w.header[i] == header[i]
    {
      SetTagAt(header, tag, i);
    }
  }

  /** The shares of a wrapped onion are shares of its nonce, in 20 little-endian bytes,
      each encrypted to one authority for the leaf of the identity. */
  lemma {:induction false} WrappedShares(coins: nat -> nat, nonce: Nonce, identity: u64, pks: seq<PublicKey>)
    requires pks != []
    ensures var shares, values := MakeShares(coins, nonce, identity, pks), Shamir.split(coins(0), FromLE(nonce), |pks|);
      |values| == |pks| + 1 && forall i | 0 <= i < |pks| ::
        shares[i] == Bbg.encrypt(coins(i + 1), pks[i], Number(identity), ToLE(values[i], 20))
  {
    hide PadTo, MinLE, ToLE;
    FromLERoundTrip(nonce);
    Pow256Words();
    assert SharingContract(Shamir);
    var values := NonceShares(coins(0), nonce, |pks|);
    forall i | 0 <= i < |pks|
      ensures PadTo(MinLE(values[i]), 20) == ToLE(values[i], 20)
    {
      PaddedRoundTrip(values[i], 20);
    }
  }

  // ---- the final onion ----------------------------------------------------------

  /** An onion is final exactly if its identity and all bytes of its shares are zero. */
  lemma {:induction false} FinalExactly(o: OnionValue)
    ensures o.IsFinalDestination() <==>
      o.identity == 0 && forall i, j | 0 <= i < |o.shares| && 0 <= j < |o.shares[i]| :: o.shares[i][j] == 0
  {
    forall i | 0 <= i < |o.shares|
      ensures o.shares[i] == EmptyShare() <==> forall j | 0 <= j < |o.shares[i]| :: o.shares[i][j] == 0
    {
    }
  }

  // ---- exactness ------------------------------------------------------------

  /** The layer is restored completely if and only if the last block of the old
      header was that keystream. */
  lemma {:induction false} OneLayerExact(o: OnionValue, coins: nat -> nat, nonce: Nonce, identity: u64,
                      pks: seq<PublicKey>, sks: seq<PrivateKey>, delay: u32)
    requires 0 < |pks| == |o.shares| < 0x1_0000_0000_0000_0000
    requires |o.header| >= PerHopSize(|pks|)
    requires KeysFor(identity, pks, sks)
    ensures var T, phs := |o.header|, PerHopSize(|pks|);
      var r := UnwrapValue(WrapValue(o, coins, nonce, identity, pks, delay), pks, sks);
      r.Ok? && (r.value.1 == o <==> o.header[T - phs..] == Stream(CtrStream, nonce, T, phs))
  {
    hide WrapValue, UnwrapValue;
    OneLayer(o, coins, nonce, identity, pks, sks, delay);
    var T, phs := |o.header|, PerHopSize(|pks|);
    var ks := Stream(CtrStream, nonce, T, phs);
    assert (o.header[..T - phs] + ks)[T - phs..] == ks;
    assert o.header[..T - phs] + o.header[T - phs..] == o.header;
  }
}
