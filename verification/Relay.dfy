/**
 How a relay obtains the private key of one identity from the subtree keys an
 authority gave it (relay.rs).
 */
module Relay {
  import opened Wrappers
  import opened Bytes
  import opened Group
  import opened NodeNames
  import opened Hibe

  datatype LiveAuthority = LiveAuthority(
    publicKey: PublicKey,
    receivedKeys: map<NodeName, (CachedBbgKeygen, PrivateKey)>)
  {
    ghost predicate Valid() {
      && |publicKey.h| == HIERARCHY_DEPTH
      && forall name | name in receivedKeys :: ValidEntry(name)
    }

    ghost predicate ValidEntry(name: NodeName)
      requires name in receivedKeys
    {
      var (cache, key) := receivedKeys[name];
      && name.Valid()
      && cache.Valid()
      && cache.publicKey == publicKey
      && cache.maxDepth == HIERARCHY_DEPTH
      && |key.b| == HIERARCHY_DEPTH - name.len
    }

    /** Every received key is one that the setup's master key yields for its node. */
    ghost predicate Genuine(msk: MasterKey)
      requires Valid()
    {
      forall name | name in receivedKeys ::
        IsKeyFor(publicKey, msk, receivedKeys[name].1, MapIdentity(name))
    }

    /** There is a key exactly when some received cell contains the identity, and it
        is derived from the key of such a cell. */
    ghost predicate Returns(identity: u64, rng: nat -> Scalar, r: Option<PrivateKey>)
      requires Valid()
    {
      match r
      case None => forall name | name in receivedKeys :: !name.Contains(Number(identity))
      case Some(key) => exists name | name in receivedKeys :: DerivedFrom(name, identity, rng, key)
    }

    ghost predicate DerivedFrom(name: NodeName, identity: u64, rng: nat -> Scalar, key: PrivateKey)
      requires Valid() && name in receivedKeys
    {
      && name.Contains(Number(identity)) && ValidEntry(name)
      && key == Chain(publicKey, receivedKeys[name].1, Number(identity), name.len, HIERARCHY_DEPTH, rng)
    }

    /** Scans the received cells in an arbitrary order and derives level by level
        from the first cell that contains the identity. The generator `rng` yields
        the derivation scalars in the order they are drawn. */
    method GetPrivateKey(identity: u64, rng: nat -> Scalar) returns (r: Option<PrivateKey>)
      requires Valid()
      ensures Returns(identity, rng, r)
      ensures r.Some? <==> exists name | name in receivedKeys ::
        name.len <= HIERARCHY_DEPTH && Covers(name, identity % LeafCount())
    {
      ReturnsByLeaf(this, identity, rng);
      var node := Number(identity);
      var todo := receivedKeys.Keys;
      while todo != {}
        invariant todo <= receivedKeys.Keys
        invariant forall name | name in receivedKeys && name !in todo :: !name.Contains(node)
        decreases todo
      {
        var name :| name in todo;
        todo := todo - {name};
        if name.Contains(node) {
          assert ValidEntry(name);
          var (cache, start) := receivedKeys[name];
          var key := DeriveDown(cache, start, name, node, rng);
          assert DerivedFrom(name, identity, rng, key);
          return Some(key);
        }
      }
      r := None;
    }
  }

  /** There is a key exactly if a received cell covers the leaf `identity`, modulo the
      number of leaves. */
  lemma {:induction false} ReturnsByLeaf(a: LiveAuthority, identity: u64, rng: nat -> Scalar)
    requires a.Valid()
    ensures forall r | a.Returns(identity, rng, r) ::
      r.Some? <==> exists name | name in a.receivedKeys :: name.len <= HIERARCHY_DEPTH && Covers(name, identity % LeafCount())
  {
    hide Chain;
    forall name | name in a.receivedKeys
      ensures name.Contains(Number(identity)) <==> Covers(name, identity % LeafCount())
    {
      assert a.ValidEntry(name);
      ContainsIdentity(name, identity);
    }
  }

  /** Derives from the key of `name` along the walk to the leaf `node`. */
  method DeriveDown(cache: CachedBbgKeygen, start: PrivateKey, name: NodeName, node: NodeName, rng: nat -> Scalar)
    returns (key: PrivateKey)
    requires cache.Valid() && cache.maxDepth == |cache.publicKey.h| == HIERARCHY_DEPTH
    requires name.len <= HIERARCHY_DEPTH && node.Valid() && node.IsLeaf()
    requires |start.b| == HIERARCHY_DEPTH - name.len
    ensures key == Chain(cache.publicKey, start, node, name.len, HIERARCHY_DEPTH, rng)
  {
    hide Derived, MapIdentity, CachedBbgKeygen.Valid;
    key := start;
    var path := Walk(node);
    for i := 0 to |path|
      invariant var level := if i <= name.len then name.len else i;
        key == Chain(cache.publicKey, start, node, name.len, level, rng)
    {
      var subnode := path[i];
      if subnode.len <= name.len {
        continue;
      }
      AncestorIdentity(node, subnode.len);
      var id := MapIdentity(subnode);
      var child, parent := id[i], id[..i];
      assert parent == MapIdentity(node)[..i] && child == MapIdentity(node)[i];
      var derived := cache.DeriveKey(rng(i - name.len), key, parent, child);
      key := derived.value;
    }
  }

  /** The key reached from `start`, the key of the prefix of length `base`, by
      deriving down to the prefix of length `level`. */
  function Chain(pk: PublicKey, start: PrivateKey, leaf: NodeName, base: nat, level: nat, rng: nat -> Scalar):
    (sk: PrivateKey)
    requires leaf.Valid() && base <= level <= leaf.len <= |pk.h|
    requires |start.b| == |pk.h| - base
    ensures |sk.b| == |pk.h| - level
    decreases level
  {
    if level == base then start
    else
      Derived(pk, Chain(pk, start, leaf, base, level - 1, rng),
              MapIdentity(leaf)[..level - 1], MapIdentity(leaf)[level - 1], rng(level - 1 - base))
  }

  /** `r` plus the first `n` scalars drawn. */
  function PlusDraws(r: Scalar, rng: nat -> Scalar, n: nat): Scalar {
    if n == 0 then r else Add(PlusDraws(r, rng, n - 1), rng(n - 1))
  }

  /** Deriving from a cell key with randomness `r` reaches the key of the leaf
      with randomness `r` plus all scalars drawn on the way. */
  lemma {:induction false} ChainIsKeyAt(pk: PublicKey, msk: MasterKey, leaf: NodeName, base: nat, level: nat,
                                        r: Scalar, rng: nat -> Scalar)
    requires leaf.Valid() && base <= level <= leaf.len <= |pk.h|
    ensures Chain(pk, KeyAt(pk, msk, MapIdentity(leaf)[..base], r), leaf, base, level, rng)
            == KeyAt(pk, msk, MapIdentity(leaf)[..level], PlusDraws(r, rng, level - base))
    decreases level
  {
    hide Derived, KeyAt, MapIdentity, Add;
    if base < level {
      ChainIsKeyAt(pk, msk, leaf, base, level - 1, r, rng);
      var id := MapIdentity(leaf);
      DerivedIsKeyAt(pk, msk, id[..level - 1], id[level - 1],
                     PlusDraws(r, rng, level - 1 - base), rng(level - 1 - base));
      assert id[..level - 1] + [id[level - 1]] == id[..level];
    }
  }

  /** The derivation chain: from a genuine cell key, the key that a relay derives
      for a leaf below the cell is the one generated directly for the leaf. */
  lemma {:induction false} ChainFromCell(pk: PublicKey, msk: MasterKey, cell: NodeName, leaf: NodeName, r: Scalar, rng: nat -> Scalar)
    requires |pk.h| == HIERARCHY_DEPTH
    requires cell.Valid() && leaf.Valid() && leaf.IsLeaf() && cell.Contains(leaf)
    ensures Chain(pk, KeyAt(pk, msk, MapIdentity(cell), r), leaf, cell.len, HIERARCHY_DEPTH, rng)
            == KeyAt(pk, msk, MapIdentity(leaf), PlusDraws(r, rng, HIERARCHY_DEPTH - cell.len))
  {
    ContainsIsAncestor(cell, leaf);
    AncestorIdentity(leaf, cell.len);
    ChainIsKeyAt(pk, msk, leaf, cell.len, HIERARCHY_DEPTH, r, rng);
    assert MapIdentity(leaf)[..HIERARCHY_DEPTH] == MapIdentity(leaf);
  }

  /** What a relay with genuine cell keys gets is a key for the leaf. */
  lemma {:induction false} DerivedKeyIsGenuine(a: LiveAuthority, msk: MasterKey, identity: u64, rng: nat -> Scalar, key: PrivateKey)
    requires a.Valid() && a.Genuine(msk) && a.Returns(identity, rng, Some(key))
    ensures IsKeyFor(a.publicKey, msk, key, MapIdentity(Number(identity)))
  {
    var name :| name in a.receivedKeys && a.DerivedFrom(name, identity, rng, key);
    var r: Scalar :| a.receivedKeys[name].1 == KeyAt(a.publicKey, msk, MapIdentity(name), r);
    ChainFromCell(a.publicKey, msk, name, Number(identity), r, rng);
  }

  /** So it satisfies the equation by which keys decrypt, for the leaf `identity`
      modulo the number of leaves. */
  lemma {:induction false} DerivedKeyOpens(a: LiveAuthority, msk: MasterKey, identity: u64, rng: nat -> Scalar, key: PrivateKey)
    requires a.Valid() && a.Genuine(msk) && a.Returns(identity, rng, Some(key)) && IsSetup(a.publicKey, msk)
    ensures Opens(a.publicKey, key, MapIdentity(NodeName(HIERARCHY_DEPTH, identity % LeafCount())))
  {
    hide LiveAuthority.Valid, LiveAuthority.Genuine, LiveAuthority.Returns, IsKeyFor, IsSetup, Opens;
    DerivedKeyIsGenuine(a, msk, identity, rng, key);
    NumberIsModulo(identity);
    KeyOpens(a.publicKey, msk, key, MapIdentity(Number(identity)));
  }
}
