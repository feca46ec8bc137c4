/**
 Whole onions (format.rs): the forward filler over all nonces, the layers added
 in reverse, and the hops that peel them off again.
 */
module OnionPath {
  import opened Wrappers
  import opened Bytes
  import opened Hibe
  import opened OnionFormat

  /** All inputs of wrapping: the path, the sender's random choices, and the
      data. `coins(k)` are the draws made while hop `k` is added. */
  datatype Path = Path(
    identities: seq<u64>,
    delays: seq<u32>,
    nonces: seq<Nonce>,
    coins: nat -> (nat -> nat),
    publicKeys: seq<PublicKey>,
    data: seq<byte>)
  {
    ghost predicate Valid() {
      && |identities| == |delays| == |nonces|
      && 0 < |publicKeys| < 0x1_0000_0000_0000_0000
    }

    function BlockSize(): nat {
      PerHopSize(|publicKeys|)
    }

    function HeaderSize(): nat {
      Blocks(|identities|, BlockSize())
    }
  }

  /** The size of `n` blocks of `b` bytes, which is `n * b`. */
  function Blocks(n: nat, b: nat): nat {
    if n == 0 then 0 else Blocks(n - 1, b) + b
  }

  lemma {:induction false} BlocksIsProduct(n: nat, b: nat)
    ensures Blocks(n, b) == n * b
  {
    if n > 0 {
      BlocksIsProduct(n - 1, b);
      assert n * b == (n - 1) * b + b;
    }
  }

  lemma {:induction false} BlocksMonotone(m: nat, n: nat, b: nat)
    requires m <= n
    ensures Blocks(m, b) <= Blocks(n, b)
  {
    if m < n {
      BlocksMonotone(m, n - 1, b);
    }
  }

  // ---- specification ------------------------------------------------------

  /** The forward filler after the first `k` nonces. */
  function Filler(p: Path, k: nat): (h: seq<byte>)
    requires k <= |p.nonces|
    ensures |h| == p.HeaderSize()
  {
    if k == 0 then Zeros(p.HeaderSize()) else FillerStep(Filler(p, k - 1), p.nonces[k - 1], p.BlockSize())
  }

  /** The onion that hop `k` receives: the layers of hops `k` and later are on. */
  function Layer(p: Path, k: nat): (o: OnionValue)
    requires p.Valid() && k <= |p.identities|
    ensures |o.shares| == |p.publicKeys| && |o.header| == p.HeaderSize() && |o.payload| == |p.data|
    decreases |p.identities| - k
  {
    if k == |p.identities| then
      Fresh(|p.publicKeys|, |p.identities|, p.data).(header := Filler(p, k))
    else
      WrapValue(Layer(p, k + 1), p.coins(k), p.nonces[k], p.identities[k], p.publicKeys, p.delays[k])
  }

  /** What the hops see one after the other: the hop information and the onion
      that each of them passes on. */
  function Peel(o: OnionValue, pks: seq<PublicKey>, keys: seq<seq<PrivateKey>>):
    Result<seq<(HopInfo, OnionValue)>, OnionError>
    decreases |keys|
  {
    if keys == [] then Ok([])
    else
      match UnwrapValue(o, pks, keys[0])
      case Err(e) => Err(e)
      case Ok(hop) =>
        match Peel(hop.1, pks, keys[1..])
        case Err(e) => Err(e)
        case Ok(rest) => Ok([hop] + rest)
  }

  // ---- the filler invariant -----------------------------------------------

  lemma {:induction false} FillerStepAt(header: seq<byte>, nonce: Nonce, phs: nat, i: nat)
    requires i < |header|
    ensures FillerStep(header, nonce, phs)[i]
            == XorByte(if i + phs < |header| then header[i + phs] else 0, CtrStream(nonce, i + phs))
  {
    var extended := header + Zeros(phs);
    assert Opened(header, nonce, phs)[i + phs] == XorByte(extended[i + phs], CtrStream(nonce, i + phs));
  }

  lemma {:induction false} WrapHeaderAt(o: OnionValue, nonce: Nonce, delay: u32, i: nat)
    requires PerHopSize(|o.shares|) <= i < |o.header|
    ensures WrapHeader(o, nonce, delay)[i]
            == XorByte(o.header[i - PerHopSize(|o.shares|)], CtrStream(nonce, i))
  {
    var block := SerializeHop(delay, Zeros(TAG_SIZE), o.identity, o.shares);
    assert (block + o.header)[i] == o.header[i - |block|];
  }

  ghost predicate AgreeFrom(a: seq<byte>, b: seq<byte>, start: nat) {
    |a| == |b| && forall i | start <= i < |a| :: a[i] == b[i]
  }

  /** One layer moves the agreement with the filler up by one block. */
  lemma {:induction false} ShiftedAgreement(o: OnionValue, nonce: Nonce, delay: u32, tag: Tag, before: seq<byte>, start: nat)
    requires |before| == |o.header| >= HOP_INFO_SIZE
    requires AgreeFrom(o.header, FillerStep(before, nonce, PerHopSize(|o.shares|)), start)
    ensures AgreeFrom(SetTag(WrapHeader(o, nonce, delay), tag), before, start + PerHopSize(|o.shares|))
  {
    var phs := PerHopSize(|o.shares|);
    var wrapped := WrapHeader(o, nonce, delay);
    forall i | start + phs <= i < |o.header|
      ensures SetTag(wrapped, tag)[i] == before[i]
    {
      SetTagAt(wrapped, tag, i);
      WrapHeaderAt(o, nonce, delay, i);
      FillerStepAt(before, nonce, phs, i - phs);
      XorTwice(before[i], CtrStream(nonce, i));
    }
  }

  /** The last block that a filler step produces is bare keystream. */
  lemma {:induction false} FillerEnd(before: seq<byte>, nonce: Nonce, phs: nat)
    requires phs <= |before|
    ensures FillerStep(before, nonce, phs)[|before| - phs..] == Stream(CtrStream, nonce, |before|, phs)
  {
    var after, ks := FillerStep(before, nonce, phs), Stream(CtrStream, nonce, |before|, phs);
    forall i | 0 <= i < phs
      ensures after[|before| - phs + i] == ks[i]
    {
      FillerStepAt(before, nonce, phs, |before| - phs + i);
      XorZero(ks[i]);
    }
  }

  /** The header of a layer, as the header of the layer below and some tag. */
  lemma {:induction false} LayerHeader(p: Path, k: nat) returns (tag: Tag)
    requires p.Valid() && k < |p.identities|
    ensures Layer(p, k).header == SetTag(WrapHeader(Layer(p, k + 1), p.nonces[k], p.delays[k]), tag)
  {
    var inner := Layer(p, k + 1);
    var shares := MakeShares(p.coins(k), p.nonces[k], p.identities[k], p.publicKeys);
    tag := TagOnion(p.nonces[k], p.identities[k], shares, WrapHeader(inner, p.nonces[k], p.delays[k]), Layer(p, k).payload);
  }

  /** The filler invariant: the onion that hop `k` receives agrees with the forward
      filler after `k` nonces on every block from number `n - k` on. */
  lemma {:induction false} FillerInvariant(p: Path, k: nat)
    requires p.Valid() && k <= |p.identities|
    ensures AgreeFrom(Layer(p, k).header, Filler(p, k), Blocks(|p.identities| - k, p.BlockSize()))
    decreases |p.identities| - k
  {
    hide WrapValue, WrapHeader, FillerStep, SetTag;
    if k < |p.identities| {
      FillerInvariant(p, k + 1);
      var tag := LayerHeader(p, k);
      ShiftedAgreement(Layer(p, k + 1), p.nonces[k], p.delays[k], tag, Filler(p, k),
                       Blocks(|p.identities| - k - 1, p.BlockSize()));
    }
  }

  /** So the block that truncation drops is the one that unwrapping regenerates. */
  lemma {:induction false} LastBlockIsKeystream(p: Path, k: nat)
    requires p.Valid() && k < |p.identities|
    ensures var T, b := p.HeaderSize(), p.BlockSize();
            T >= b && Layer(p, k + 1).header[T - b..] == Stream(CtrStream, p.nonces[k], T, b)
  {
    hide WrapValue, FillerStep, PerHopSize, Layer;
    var n, b, T := |p.identities|, p.BlockSize(), p.HeaderSize();
    FillerInvariant(p, k + 1);
    FillerEnd(Filler(p, k), p.nonces[k], b);
    BlocksMonotone(n - (k + 1), n - 1, b);
    assert T == Blocks(n - 1, b) + b;
    var header, filler := Layer(p, k + 1).header, Filler(p, k + 1);
    assert AgreeFrom(header, filler, T - b);
    assert header[T - b..] == filler[T - b..];
  }

  // ---- the full peel ------------------------------------------------------

  /** Every hop's keys belong to its identity. */
  ghost predicate KeysOnPath(p: Path, keys: seq<seq<PrivateKey>>) {
    && |keys| == |p.identities|
    && forall k | 0 <= k < |keys| :: KeysFor(p.identities[k], p.publicKeys, keys[k])
  }

  /** Each hop restores exactly the onion that the sender had before adding its layer. */
  lemma {:induction false} PeelOne(p: Path, k: nat, sks: seq<PrivateKey>)
    requires p.Valid() && k < |p.identities|
    requires KeysFor(p.identities[k], p.publicKeys, sks)
    ensures var r := UnwrapValue(Layer(p, k), p.publicKeys, sks);
            r.Ok? && r.value.0.delay == p.delays[k] && r.value.1 == Layer(p, k + 1)
  {
    hide WrapValue, UnwrapValue;
    LastBlockIsKeystream(p, k);
    OneLayer(Layer(p, k + 1), p.coins(k), p.nonces[k], p.identities[k], p.publicKeys, sks, p.delays[k]);
    OneLayerExact(Layer(p, k + 1), p.coins(k), p.nonces[k], p.identities[k], p.publicKeys, sks, p.delays[k]);
  }

  ghost predicate Unwraps(o: OnionValue, pks: seq<PublicKey>, sks: seq<PrivateKey>, hop: (HopInfo, OnionValue)) {
    UnwrapValue(o, pks, sks) == Ok(hop)
  }

  /** If every onion unwraps to the next, the hops see these onions. */
  lemma {:induction false} PeelSees(o: OnionValue, pks: seq<PublicKey>, keys: seq<seq<PrivateKey>>, seen: seq<(HopInfo, OnionValue)>)
    requires |seen| == |keys|
    requires keys != [] ==> Unwraps(o, pks, keys[0], seen[0])
    requires forall i | 1 <= i < |keys| :: Unwraps(seen[i - 1].1, pks, keys[i], seen[i])
    ensures Peel(o, pks, keys) == Ok(seen)
    decreases |keys|
  {
    hide UnwrapValue;
    if keys != [] {
      PeelSees(seen[0].1, pks, keys[1..], seen[1..]);
      assert [seen[0]] + seen[1..] == seen;
    }
  }

  lemma {:induction false} LayerFields(p: Path, k: nat)
    requires p.Valid() && k <= |p.identities|
    ensures k < |p.identities| ==> Layer(p, k).identity == p.identities[k]
    ensures k < |p.identities| && p.identities[k] != 0 ==> !Layer(p, k).IsFinalDestination()
    ensures k == |p.identities| ==> Layer(p, k).IsFinalDestination() && Layer(p, k).payload == p.data
  {
  }

  /** What hop `k` sees. */
  ghost function Seen(p: Path, k: nat, sks: seq<PrivateKey>): (hop: (HopInfo, OnionValue))
    requires p.Valid() && k < |p.identities| && KeysFor(p.identities[k], p.publicKeys, sks)
    ensures Unwraps(Layer(p, k), p.publicKeys, sks, hop)
    ensures hop.0.delay == p.delays[k] && hop.1 == Layer(p, k + 1)
  {
    PeelOne(p, k, sks);
    UnwrapValue(Layer(p, k), p.publicKeys, sks).value
  }

  /** The full peel: on every path, all hops accept their tags, hop `i` reads
      `delays[i]` and passes on an onion of unchanged size for `identities[i + 1]`,
      which is not final if this identity is not zero, and the last one ends up with a final onion that carries the data. */
  lemma {:induction false} FullPeel(p: Path, keys: seq<seq<PrivateKey>>)
    requires p.Valid() && KeysOnPath(p, keys)
    ensures var n, r := |p.identities|, Peel(Layer(p, 0), p.publicKeys, keys);
      && r.Ok? && |r.value| == n
      && (n > 0 ==> Layer(p, 0).identity == p.identities[0])
      && (forall i | 0 <= i < n :: r.value[i].0.delay == p.delays[i])
      && (forall i | 0 <= i < n - 1 :: r.value[i].1.identity == p.identities[i + 1])
      && (forall i | 0 <= i < n - 1 && p.identities[i + 1] != 0 :: !r.value[i].1.IsFinalDestination())
      && (forall i | 0 <= i < n ::
            && |r.value[i].1.header| == |Layer(p, 0).header|
            && |r.value[i].1.shares| == |Layer(p, 0).shares| == |p.publicKeys|
            && |r.value[i].1.payload| == |Layer(p, 0).payload|)
      && var last := if n == 0 then Layer(p, 0) else r.value[n - 1].1;
         last.IsFinalDestination() && last.payload == p.data
  {
    hide UnwrapValue, Layer, KeysFor, OnionValue.IsFinalDestination;
    var n := |p.identities|;
    forall k | 0 <= k <= n
      ensures k < n ==> Layer(p, k).identity == p.identities[k]
      ensures k < n && p.identities[k] != 0 ==> !Layer(p, k).IsFinalDestination()
      ensures k == n ==> Layer(p, k).IsFinalDestination() && Layer(p, k).payload == p.data
    {
      LayerFields(p, k);
    }
    var seen := seq(n, k requires 0 <= k < n && KeysFor(p.identities[k], p.publicKeys, keys[k]) => Seen(p, k, keys[k]));
    forall i | 0 <= i < n
      ensures seen[i] == Seen(p, i, keys[i])
    {
    }
    PeelSees(Layer(p, 0), p.publicKeys, keys, seen);
  }
}
