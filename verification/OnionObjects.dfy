/**
 The onion as the program updates it (format.rs): a stateful stream cipher and
 an object whose header and payload are changed in place, proved against the
 functions on onion values.
 */
module OnionObjects {
  import opened Wrappers
  import opened Bytes
  import opened Hibe
  import opened OnionFormat
  import opened OnionPath

  /** A cipher in counter mode: successive calls continue the same keystream. */
  class StreamCipher {
    const key: Nonce
    var position: nat

    constructor (key: Nonce)
      ensures this.key == key && position == 0
    {
      this.key := key;
      position := 0;
    }

    method ApplyKeystream(data: seq<byte>) returns (out: seq<byte>)
      modifies this
      ensures out == Xor(data, Stream(CtrStream, key, old(position), |data|))
      ensures position == old(position) + |data|
    {
      out := data;
      var i := 0;
      while i < |data|
        invariant i <= |data| == |out|
        invariant position == old(position) + i
        invariant forall j | 0 <= j < i :: out[j] == XorByte(data[j], CtrStream(key, old(position) + j))
        invariant forall j | i <= j < |data| :: out[j] == data[j]
      {
        out := out[i := XorByte(data[i], CtrStream(key, position))];
        position := position + 1;
        i := i + 1;
      }
    }
  }

  class Onion {
    var identity: u64
    var shares: seq<Share>
    var header: seq<byte>
    var payload: seq<byte>

    ghost function Value(): OnionValue
      reads this
    {
      OnionValue(identity, shares, header, payload)
    }

    constructor (identity: u64, shares: seq<Share>, header: seq<byte>, payload: seq<byte>)
      ensures Value() == OnionValue(identity, shares, header, payload)
    {
      this.identity := identity;
      this.shares := shares;
      this.header := header;
      this.payload := payload;
    }

    constructor Fresh(numAuthorities: nat, pathLength: nat, data: seq<byte>)
      ensures Value() == OnionFormat.Fresh(numAuthorities, pathLength, data)
    {
      identity := 0;
      shares := seq<Share>(numAuthorities, _ => EmptyShare());
      header := Zeros(pathLength * PerHopSize(numAuthorities));
      payload := data;
    }

    /** Extends the header by one block of zeros, encrypts it, and drops its first block. */
    method ComputeFiller(nonce: Nonce)
      modifies this
      ensures Value() == old(Value()).(header := FillerStep(old(header), nonce, PerHopSize(|shares|)))
    {
      var cipher := new StreamCipher(nonce);
      var phs := PerHopSize(|shares|);
      header := header + Zeros(phs);
      header := cipher.ApplyKeystream(header);
      header := header[phs..];
    }

    /** A new onion with one more layer; this one stays as it is. */
    method WrapWithNonce(coins: nat -> nat, nonce: Nonce, identity: u64, publicKeys: seq<PublicKey>, delay: u32)
      returns (o: Onion)
      requires |shares| == |publicKeys| > 0 && |header| >= HOP_INFO_SIZE
      ensures fresh(o)
      ensures o.Value() == WrapValue(Value(), coins, nonce, identity, publicKeys, delay)
    {
      hide TagOnion, MakeShares, WrapShare, PerHopSize, SetTag;
      var shares := MakeShares(coins, nonce, identity, publicKeys);
      var header := SerializeHop(delay, Zeros(TAG_SIZE), this.identity, this.shares);
      header := header + this.header;
      var cipher := new StreamCipher(nonce);
      header := cipher.ApplyKeystream(header);
      header := header[..|this.header|];
      assert header == WrapHeader(Value(), nonce, delay);
      var payload := cipher.ApplyKeystream(this.payload);
      var tag := TagOnion(nonce, identity, shares, header, payload);
      header := SetTag(header, tag);
      o := new Onion(identity, shares, header, payload);
    }

    /** Decrypts the shares of the nonce one authority after the other. */
    method DecryptShares(publicKeys: seq<PublicKey>, privateKeys: seq<PrivateKey>) returns (r: Option<seq<nat>>)
      ensures r == UnwrapShares(shares, publicKeys, privateKeys)
    {
      var values: seq<nat> := [];
      var i := 0;
      PrependNothing(UnwrapShares(shares, publicKeys, privateKeys));
      assert shares[0..] == shares && publicKeys[0..] == publicKeys && privateKeys[0..] == privateKeys;
      while i < |shares| && i < |publicKeys| && i < |privateKeys|
        invariant |values| == i <= |shares| && i <= |publicKeys| && i <= |privateKeys|
        invariant UnwrapShares(shares, publicKeys, privateKeys)
                  == Prepend(values, UnwrapShares(shares[i..], publicKeys[i..], privateKeys[i..]))
      {
        hide UnwrapShare;
        var value := UnwrapShare(shares[i], publicKeys[i], privateKeys[i]);
        assert shares[i..][1..] == shares[i + 1..] && publicKeys[i..][1..] == publicKeys[i + 1..]
            && privateKeys[i..][1..] == privateKeys[i + 1..];
        if value.None? {
          return None;
        }
        PrependStep(values, value.value, UnwrapShares(shares[i + 1..], publicKeys[i + 1..], privateKeys[i + 1..]));
        values := values + [value.value];
        i := i + 1;
      }
      r := Some(values);
      assert values + [] == values;
    }

    /** Recovers the nonce, checks the tag, and takes one layer off in place. */
    method Unwrap(publicKeys: seq<PublicKey>, privateKeys: seq<PrivateKey>) returns (r: Result<HopInfo, OnionError>)
      modifies this
      ensures match UnwrapValue(old(Value()), publicKeys, privateKeys)
              case Ok((hop, o)) => r == Ok(hop) && Value() == o
              case Err(e) => r == Err(e)
    {
      hide UnwrapShares, TagOnion, AccessTag, DecryptLayer, NonceBytes;
      var values := DecryptShares(publicKeys, privateKeys);
      if values.None? {
        return Err(ShareDecryption);
      } else if |values.value| != |shares| {
        return Err(WrongShareCount);
      } else if |header| < HOP_INFO_SIZE {
        return Err(HeaderTooShort);
      }
      var nonce := PadNonce(Shamir.recover(Numbered(values.value)));
      if TagOnion(nonce, identity, shares, header, payload) != AccessTag(header) {
        return Err(MacMismatch);
      }
      r := TakeLayer(nonce[..NONCE_SIZE], PerHopSize(|publicKeys|));
    }

    /** The cipher part of unwrapping. */
    method TakeLayer(key: Nonce, phs: nat) returns (r: Result<HopInfo, OnionError>)
      modifies this
      ensures match DecryptLayer(old(Value()), key, phs)
              case Ok((hop, o)) => r == Ok(hop) && Value() == o
              case Err(e) => r == Err(e)
    {
      hide DeserializeHop;
      var cipher := new StreamCipher(key);
      header := header + Zeros(phs);
      header := cipher.ApplyKeystream(header);
      payload := cipher.ApplyKeystream(payload);
      assert header == Opened(old(header), key, phs);
      var thisHeader := header[..phs];
      header := header[phs..];
      match DeserializeHop(thisHeader)
      case None => return Err(MalformedHop);
      case Some((hop, nextIdentity, nextShares)) =>
        identity := nextIdentity;
        shares := nextShares;
        return Ok(hop);
    }
  }

  /** Fills the bytes of the recovered number up to the size of a nonce. */
  method PadNonce(secret: nat) returns (nonce: seq<byte>)
    ensures nonce == NonceBytes(secret)
  {
    hide MinLE;
    nonce := MinLE(secret);
    ghost var minimal := nonce;
    while |nonce| < NONCE_SIZE
      invariant |minimal| <= |nonce|
      invariant nonce == minimal + Zeros(|nonce| - |minimal|)
      invariant |nonce| <= NONCE_SIZE || nonce == minimal
      decreases NONCE_SIZE - |nonce|
    {
      nonce := nonce + [0];
    }
  }

  function Prepend<T>(prefix: seq<T>, rest: Option<seq<T>>): Option<seq<T>> {
    match rest
    case None => None
    case Some(s) => Some(prefix + s)
  }

  lemma {:induction false} PrependNothing<T>(rest: Option<seq<T>>)
    ensures Prepend([], rest) == rest
  {
    if rest.Some? {
      assert [] + rest.value == rest.value;
    }
  }

  lemma {:induction false} PrependStep<T>(prefix: seq<T>, x: T, rest: Option<seq<T>>)
    ensures Prepend(prefix, Prepend([x], rest)) == Prepend(prefix + [x], rest)
  {
    if rest.Some? {
      assert prefix + ([x] + rest.value) == prefix + [x] + rest.value;
    }
  }

  datatype WrapError = LengthMismatch

  /** Wraps the data for all identities: the forward filler over all nonces, then
      the layers from the last hop to the first. */
  method Wrap(p: Path) returns (r: Result<Onion, WrapError>)
    requires |p.nonces| == |p.identities| && 0 < |p.publicKeys| < 0x1_0000_0000_0000_0000
    ensures r.Err? <==> |p.identities| != |p.delays|
    ensures r.Ok? ==> fresh(r.value) && r.value.Value() == Layer(p, 0)
  {
    if |p.identities| != |p.delays| {
      return Err(LengthMismatch);
    }
    hide Filler, Layer, Fresh;
    var onion := new Onion.Fresh(|p.publicKeys|, |p.identities|, p.data);
    FillerStarts(p);
    ComputeFillers(onion, p);
    LayersStart(p);
    onion := AddLayers(onion, p);
    r := Ok(onion);
  }

  method ComputeFillers(onion: Onion, p: Path)
    requires p.Valid()
    requires onion.Value() == Fresh(|p.publicKeys|, |p.identities|, p.data).(header := Filler(p, 0))
    modifies onion
    ensures onion.Value() == Fresh(|p.publicKeys|, |p.identities|, p.data).(header := Filler(p, |p.identities|))
  {
    hide FillerStep, Filler, Fresh;
    var i := 0;
    while i < |p.nonces|
      invariant i <= |p.nonces|
      invariant onion.Value() == Fresh(|p.publicKeys|, |p.identities|, p.data).(header := Filler(p, i))
    {
      FillerContinues(p, i);
      onion.ComputeFiller(p.nonces[i]);
      i := i + 1;
    }
  }

  method AddLayers(innermost: Onion, p: Path) returns (onion: Onion)
    requires p.Valid() && innermost.Value() == Layer(p, |p.identities|)
    ensures onion == innermost || fresh(onion)
    ensures onion.Value() == Layer(p, 0)
  {
    hide WrapValue, Layer;
    onion := innermost;
    var i := |p.identities|;
    while i > 0
      invariant 0 <= i <= |p.identities|
      invariant onion == innermost || fresh(onion)
      invariant onion.Value() == Layer(p, i)
    {
      i := i - 1;
      LayersContinue(p, i);
      onion := onion.WrapWithNonce(p.coins(i), p.nonces[i], p.identities[i], p.publicKeys, p.delays[i]);
    }
  }

  lemma {:induction false} FillerStarts(p: Path)
    requires p.Valid()
    ensures Fresh(|p.publicKeys|, |p.identities|, p.data).header == Filler(p, 0)
  {
    BlocksIsProduct(|p.identities|, p.BlockSize());
  }

  lemma {:induction false} FillerContinues(p: Path, i: nat)
    requires p.Valid() && i < |p.identities|
    ensures FillerStep(Filler(p, i), p.nonces[i], PerHopSize(|p.publicKeys|)) == Filler(p, i + 1)
    ensures |Fresh(|p.publicKeys|, |p.identities|, p.data).shares| == |p.publicKeys|
  {
  }

  lemma {:induction false} LayersStart(p: Path)
    requires p.Valid()
    ensures Layer(p, |p.identities|)
            == Fresh(|p.publicKeys|, |p.identities|, p.data).(header := Filler(p, |p.identities|))
  {
  }

  lemma {:induction false} LayersContinue(p: Path, i: nat)
    requires p.Valid() && i < |p.identities|
    ensures |Layer(p, i + 1).header| >= HOP_INFO_SIZE
    ensures Layer(p, i)
            == WrapValue(Layer(p, i + 1), p.coins(i), p.nonces[i], p.identities[i], p.publicKeys, p.delays[i])
  {
    hide WrapValue;
  }
}
