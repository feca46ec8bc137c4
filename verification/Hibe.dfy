/**
 Boneh-Boyen-Goh key generation with cached products (hibe.rs), and the
 identity vectors of tree nodes (nodename.rs).
 */
module Hibe {
  import opened Wrappers
  import opened Powers
  import opened Group
  import opened NodeNames

  datatype PublicKey = PublicKey(g: Elem, g1: Elem, g2: Elem, g3: Elem, h: seq<Elem>)

  type MasterKey = Elem

  datatype PrivateKey = PrivateKey(k0: Elem, k1: Elem, b: seq<Elem>)

  type Identity = seq<Scalar>

  /** Panics of the program are errors as well. */
  datatype KeygenError = IdentityTooLong | Panic

  // ---- what a key is ------------------------------------------------------

  /** The sum of the first `n` public elements, each scaled by its identity element. */
  function HashSum(h: seq<Elem>, id: Identity, n: nat): Elem
    requires n <= |h| && n <= |id|
  {
    if n == 0 then 0 else Add(HashSum(h, id, n - 1), Scale(h[n - 1], id[n - 1]))
  }

  /** The key of `id` under randomness `r`, computed without any cache. */
  function KeyAt(pk: PublicKey, msk: MasterKey, id: Identity, r: Scalar): (sk: PrivateKey)
    requires |id| <= |pk.h|
    ensures |sk.b| == |pk.h| - |id|
  {
    PrivateKey(
      Add(msk, Scale(Add(HashSum(pk.h, id, |id|), pk.g3), r)),
      Scale(pk.g, r),
      seq<Elem>(|pk.h| - |id|, i requires 0 <= i < |pk.h| - |id| => Scale(pk.h[|id| + i], r)))
  }

  /** A public key and its master key, as the setup produces them. */
  ghost predicate IsSetup(pk: PublicKey, msk: MasterKey) {
    && pk.g != 0
    && |pk.h| == HIERARCHY_DEPTH
    && exists alpha: Scalar :: pk.g1 == Scale(pk.g, alpha) && msk == Scale(pk.g2, alpha)
  }

  lemma {:induction false} SetupExists() returns (pk: PublicKey, msk: MasterKey)
    ensures IsSetup(pk, msk)
  {
    pk, msk := PublicKey(1, 0, 0, 0, seq<Elem>(HIERARCHY_DEPTH, _ => 0)), 0;
    assert pk.g1 == Scale(pk.g, 0) && msk == Scale(pk.g2, 0);
  }

  /** `sk` is a key for `id`: it is the one of some randomness. */
  ghost predicate IsKeyFor(pk: PublicKey, msk: MasterKey, sk: PrivateKey, id: Identity) {
    |id| <= |pk.h| && exists r: Scalar :: sk == KeyAt(pk, msk, id, r)
  }

  // ---- the cached generator -----------------------------------------------

  datatype CachedBbgKeygen = CachedBbgKeygen(
    maxDepth: nat, products: map<(nat, Scalar), Elem>, publicKey: PublicKey)
  {
    ghost predicate Valid() {
      forall e | e in products :: e.0 < |publicKey.h| && products[e] == Scale(publicKey.h[e.0], e.1)
    }

    function Product(index: nat, identity: Scalar): Elem
      requires index < |publicKey.h|
    {
      if (index, identity) in products then products[(index, identity)]
      else Scale(publicKey.h[index], identity)
    }

    function ProductSum(id: Identity, n: nat): Elem
      requires n <= |publicKey.h| && n <= |id|
    {
      if n == 0 then 0 else Add(ProductSum(id, n - 1), Product(n - 1, id[n - 1]))
    }

    /** Panics on an identity that is longer than the public key allows. */
    function GenerateKey(r: Scalar, msk: MasterKey, id: Identity): Result<PrivateKey, KeygenError> {
      if |id| > maxDepth then Err(IdentityTooLong)
      else if |id| > |publicKey.h| then Err(Panic)
      else
        Ok(PrivateKey(
          Add(msk, Scale(Add(ProductSum(id, |id|), publicKey.g3), r)),
          Scale(publicKey.g, r),
          seq<Elem>(|publicKey.h| - |id|,
                    i requires 0 <= i < |publicKey.h| - |id| => Scale(publicKey.h[|id| + i], r))))
    }

    /** The key one level below `parentName`, with fresh randomness `t` mixed in.
        It panics if there is no element to descend with, if the name is as long as
        the public key, or if the subtraction from the maximal depth underflows. */
    method DeriveKey(t: Scalar, parentKey: PrivateKey, parentName: Identity, child: Scalar)
      returns (r: Result<PrivateKey, KeygenError>)
      requires Valid()
      ensures r ==
        if maxDepth == 0 then Err(Panic)
        else if |parentName| >= maxDepth then Err(IdentityTooLong)
        else if parentKey.b == [] || |parentName| >= |publicKey.h| then Err(Panic)
        else Ok(Derived(publicKey, parentKey, parentName, child, t))
      ensures forall msk | r.Ok? && IsSetup(publicKey, msk) && IsKeyFor(publicKey, msk, parentKey, parentName) ::
        Opens(publicKey, r.value, parentName + [child])
    {
      hide Add, Scale, HashSum, Opens, IsSetup, KeyAt;
      if maxDepth == 0 {
        return Err(Panic);
      }
      if |parentName| > maxDepth - 1 {
        return Err(IdentityTooLong);
      }
      if parentKey.b == [] || |parentName| + 1 > |publicKey.h| {
        return Err(Panic);
      }
      var first := parentKey.b[0];
      var b := parentKey.b[1..];
      var i := 0;
      while i < |b| && |parentName| + 1 + i < |publicKey.h|
        invariant i <= |b| == |parentKey.b| - 1
        invariant |parentName| + 1 + i <= |publicKey.h|
        invariant forall j | 0 <= j < i ::
          b[j] == Refreshed(publicKey, parentKey.b[1..][j], |parentName| + 1 + j, t)
        invariant forall j | i <= j < |b| :: b[j] == parentKey.b[1..][j]
      {
        b := b[i := Add(b[i], Scale(publicKey.h[|parentName| + 1 + i], t))];
        i := i + 1;
      }
      var name := parentName + [child];
      ProductSumIsHashSum(this, name, |name|);
      r := Ok(PrivateKey(
        Add(Add(parentKey.k0, Scale(first, child)),
            Scale(Add(ProductSum(name, |name|), publicKey.g3), t)),
        Add(parentKey.k1, Scale(publicKey.g, t)),
        b));
      forall j | 0 <= j < |b|
        ensures b[j] == Refreshed(publicKey, parentKey.b[j + 1], |parentName| + 1 + j, t)
      {
        assert parentKey.b[1..][j] == parentKey.b[j + 1];
      }
      assert r.value.b == Derived(publicKey, parentKey, parentName, child, t).b;
      forall msk | IsSetup(publicKey, msk) && IsKeyFor(publicKey, msk, parentKey, parentName)
        ensures Opens(publicKey, r.value, name)
      {
        DerivedOpens(publicKey, msk, parentKey, parentName, child, t);
      }
    }
  }

  /** Fills the cache with the products of the listed identity elements, level by level,
      up to the levels of the public key. */
  method Generate(maxDepth: nat, pk: PublicKey, identities: seq<seq<Scalar>>)
    returns (r: Result<CachedBbgKeygen, KeygenError>)
    ensures r == Err(IdentityTooLong) <==> |identities| > maxDepth
    ensures r.Err? <==> |identities| > maxDepth
    ensures r.Ok? ==> r.value.Valid() && r.value.maxDepth == maxDepth && r.value.publicKey == pk
    ensures r.Ok? ==> forall i, x ::
      (i, x) in r.value.products <==> 0 <= i < |identities| && i < |pk.h| && x in identities[i]
  {
    if |identities| > maxDepth {
      return Err(IdentityTooLong);
    }
    var products: map<(nat, Scalar), Elem> := map[];
    var levels := if |pk.h| < |identities| then |pk.h| else |identities|;
    for idx := 0 to levels
      invariant CachedBbgKeygen(maxDepth, products, pk).Valid()
      invariant forall i, x :: (i, x) in products <==> 0 <= i < idx && x in identities[i]
    {
      for k := 0 to |identities[idx]|
        invariant CachedBbgKeygen(maxDepth, products, pk).Valid()
        invariant forall i, x :: (i, x) in products <==>
          (0 <= i < idx && x in identities[i]) || (i == idx && x in identities[idx][..k])
      {
        var identity := identities[idx][k];
        products := products[(idx, identity) := Scale(pk.h[idx], identity)];
        assert identities[idx][..k + 1] == identities[idx][..k] + [identity];
      }
      assert identities[idx][..|identities[idx]|] == identities[idx];
    }
    r := Ok(CachedBbgKeygen(maxDepth, products, pk));
  }

  /** An element of a parent key for some level, with fresh randomness mixed in. */
  function Refreshed(pk: PublicKey, b: Elem, level: nat, t: Scalar): Elem {
    if level < |pk.h| then Add(b, Scale(pk.h[level], t)) else b
  }

  /** What deriving computes from any parent key, without any cache. Elements of the
      parent key beyond the levels of the public key stay as they are. */
  function Derived(pk: PublicKey, parent: PrivateKey, name: Identity, child: Scalar, t: Scalar): (sk: PrivateKey)
    requires |name| < |pk.h| && parent.b != []
    ensures |sk.b| == |parent.b| - 1
  {
    PrivateKey(
      Add(Add(parent.k0, Scale(parent.b[0], child)),
          Scale(Add(HashSum(pk.h, name + [child], |name| + 1), pk.g3), t)),
      Add(parent.k1, Scale(pk.g, t)),
      seq<Elem>(|parent.b| - 1, i requires 0 <= i < |parent.b| - 1 =>
        Refreshed(pk, parent.b[i + 1], |name| + 1 + i, t)))
  }

  // ---- the cache changes nothing ------------------------------------------

  lemma {:induction false} ProductSumIsHashSum(c: CachedBbgKeygen, id: Identity, n: nat)
    requires c.Valid() && n <= |c.publicKey.h| && n <= |id|
    ensures c.ProductSum(id, n) == HashSum(c.publicKey.h, id, n)
  {
    if n > 0 {
      ProductSumIsHashSum(c, id, n - 1);
      if (n - 1, id[n - 1]) in c.products {
        var e := (n - 1, id[n - 1]);
        assert c.products[e] == Scale(c.publicKey.h[e.0], e.1);
      }
    }
  }

  /** Whatever is cached, the generated key is the uncached one. */
  lemma {:induction false} GenerateKeyIsKeyAt(c: CachedBbgKeygen, r: Scalar, msk: MasterKey, id: Identity)
    requires c.Valid()
    ensures c.GenerateKey(r, msk, id) ==
            if |id| > c.maxDepth then Err(IdentityTooLong)
            else if |id| > |c.publicKey.h| then Err(Panic)
            else Ok(KeyAt(c.publicKey, msk, id, r))
  {
    if |id| <= c.maxDepth && |id| <= |c.publicKey.h| {
      ProductSumIsHashSum(c, id, |id|);
    }
  }

  // ---- deriving adds randomness -------------------------------------------

  lemma {:induction false} HashSumPrefix(h: seq<Elem>, id: Identity, more: Identity, n: nat)
    requires n <= |h| && n <= |id|
    ensures HashSum(h, id + more, n) == HashSum(h, id, n)
  {
    if n > 0 {
      HashSumPrefix(h, id, more, n - 1);
    }
  }

  /** Deriving from the key of the parent with randomness `r` gives the key of
      the child with randomness `r + t`. */
  lemma {:induction false} DerivedIsKeyAt(pk: PublicKey, msk: MasterKey, name: Identity, child: Scalar, r: Scalar, t: Scalar)
    requires |name| < |pk.h|
    ensures Derived(pk, KeyAt(pk, msk, name, r), name, child, t)
            == KeyAt(pk, msk, name + [child], Add(r, t))
  {
    hide Add, Scale;
    var parent := KeyAt(pk, msk, name, r);
    var id := name + [child];
    var P := HashSum(pk.h, name, |name|);
    HashSumPrefix(pk.h, name, [child], |name|);
    assert HashSum(pk.h, id, |id|) == Add(P, Scale(pk.h[|name|], child));
    MainElement(msk, P, pk.h[|name|], pk.g3, child, r, t);
    ScaleSum(pk.g, r, t);
    var d, k := Derived(pk, parent, name, child, t), KeyAt(pk, msk, id, Add(r, t));
    assert d.b == k.b by {
      forall i | 0 <= i < |d.b|
        ensures d.b[i] == k.b[i]
      {
        var h := pk.h[|name| + 1 + i];
        assert parent.b[i + 1] == Scale(h, r) && k.b[i] == Scale(h, Add(r, t));
        assert d.b[i] == Refreshed(pk, parent.b[i + 1], |name| + 1 + i, t);
        ScaleSum(h, r, t);
      }
    }
  }

  /** The identity behind the first key element, over sums `P`, `h`, `g3`. */
  lemma {:induction false} MainElement(msk: Elem, P: Elem, h: Elem, g3: Elem, child: Scalar, r: Scalar, t: Scalar)
    ensures
      var Q := Add(Add(P, Scale(h, child)), g3);
      Add(Add(Add(msk, Scale(Add(P, g3), r)), Scale(Scale(h, r), child)), Scale(Q, t))
      == Add(msk, Scale(Q, Add(r, t)))
  {
    var x := Scale(h, child);
    var Q := Add(Add(P, x), g3);
    calc {
      Add(Add(Add(msk, Scale(Add(P, g3), r)), Scale(Scale(h, r), child)), Scale(Q, t));
      { ScaleComm(h, r, child); }
      Add(Add(Add(msk, Scale(Add(P, g3), r)), Scale(x, r)), Scale(Q, t));
      { AddAssoc(msk, Scale(Add(P, g3), r), Scale(x, r)); }
      Add(Add(msk, Add(Scale(Add(P, g3), r), Scale(x, r))), Scale(Q, t));
      { ScaleDistributes(Add(P, g3), x, r); }
      Add(Add(msk, Scale(Add(Add(P, g3), x), r)), Scale(Q, t));
      { AddAssoc(P, g3, x); AddComm(g3, x); AddAssoc(P, x, g3); }
      Add(Add(msk, Scale(Q, r)), Scale(Q, t));
      { AddAssoc(msk, Scale(Q, r), Scale(Q, t)); }
      Add(msk, Add(Scale(Q, r), Scale(Q, t)));
      { ScaleSum(Q, r, t); }
      Add(msk, Scale(Q, Add(r, t)));
    }
  }

  // ---- what a key is good for ---------------------------------------------

  /** The sum of the first `n` public elements times the identity elements, before
      any reduction. */
  function HashTerms(h: seq<Elem>, id: Identity, n: nat): nat
    requires n <= |h| && n <= |id|
  {
    if n == 0 then 0
    else
      var x: nat, y: nat := h[n - 1], id[n - 1];
      HashTerms(h, id, n - 1) + x * y
  }

  lemma {:induction false} HashSumIsModulo(h: seq<Elem>, id: Identity, n: nat)
    requires n <= |h| && n <= |id|
    ensures HashSum(h, id, n) == Reduce(HashTerms(h, id, n))
  {
    if n > 0 {
      hide Add, Scale, Reduce;
      HashSumIsModulo(h, id, n - 1);
      AddProduct(HashTerms(h, id, n - 1), h[n - 1], id[n - 1]);
    }
  }

  lemma {:induction false} HashSumIsRemainder(h: seq<Elem>, id: Identity, n: nat)
    requires n <= |h| && n <= |id|
    ensures HashSum(h, id, n) == HashTerms(h, id, n) % ORDER
  {
    HashSumIsModulo(h, id, n);
    ReduceIsRemainder(HashTerms(h, id, n));
  }

  lemma {:induction false} AddProduct(a: nat, h: Elem, x: Scalar)
    ensures Add(Reduce(a), Scale(h, x)) == Reduce(a + h * x)
  {
    AddIsModulo(a, h * x);
    ReduceIsRemainder(a + h * x);
  }

  /** The equation by which a key decrypts: pairing its first element with the
      generator gives the secret of the public key, blinded by the identity and the
      second element. The other elements carry the same randomness. */
  ghost predicate Opens(pk: PublicKey, sk: PrivateKey, id: Identity) {
    && |id| <= |pk.h| && |sk.b| == |pk.h| - |id|
    && pk.g * sk.k0 % ORDER == (pk.g1 * pk.g2 + (HashTerms(pk.h, id, |id|) + pk.g3) * sk.k1) % ORDER
    && forall i | 0 <= i < |sk.b| :: pk.g * sk.b[i] % ORDER == pk.h[|id| + i] * sk.k1 % ORDER
  }

  lemma {:induction false} ScaleSwaps(g: Elem, x: Elem, r: Scalar)
    ensures Scale(g, Scale(x, r)) == Scale(x, Scale(g, r))
  {
    ScaleSym(g, Scale(x, r));
    ScaleSym(x, Scale(g, r));
    ScaleComm(x, r, g);
    ScaleComm(g, r, x);
    ScaleSym(g, x);
  }

  /** The same equation in the group. */
  lemma {:induction false} MainEquation(pk: PublicKey, msk: MasterKey, Q: Elem, r: Scalar)
    requires IsSetup(pk, msk)
    ensures Scale(pk.g, Add(msk, Scale(Q, r))) == Add(Scale(pk.g1, pk.g2), Scale(Q, Scale(pk.g, r)))
  {
    hide Add, Scale;
    var alpha: Scalar :| pk.g1 == Scale(pk.g, alpha) && msk == Scale(pk.g2, alpha);
    ScaleSym(pk.g, Add(msk, Scale(Q, r)));
    ScaleDistributes(msk, Scale(Q, r), pk.g);
    ScaleSym(msk, pk.g);
    ScaleSym(Scale(Q, r), pk.g);
    ScaleSwaps(pk.g, pk.g2, alpha);
    ScaleSym(pk.g1, pk.g2);
    ScaleSwaps(pk.g, Q, r);
  }

  lemma {:induction false} InPlainArithmetic(g: Elem, k0: Elem, g1: Elem, g2: Elem, terms: nat, g3: Elem, k1: Elem)
    requires Scale(g, k0) == Add(Scale(g1, g2), Scale(Add(Reduce(terms), g3), k1))
    ensures g * k0 % ORDER == (g1 * g2 + (terms + g3) * k1) % ORDER
  {
    ReduceIsRemainder(g * k0);
    ReduceAdd(terms, g3);
    ReduceMul(terms + g3, k1);
    AddIsModulo(g1 * g2, (terms + g3) * k1);
  }

  /** Every key satisfies the equation. */
  lemma {:induction false} KeyOpens(pk: PublicKey, msk: MasterKey, sk: PrivateKey, id: Identity)
    requires IsSetup(pk, msk) && IsKeyFor(pk, msk, sk, id)
    ensures Opens(pk, sk, id)
  {
    hide Add, Scale, Reduce, IsSetup, HashSum, HashTerms;
    var r: Scalar :| sk == KeyAt(pk, msk, id, r);
    HashSumIsModulo(pk.h, id, |id|);
    MainEquation(pk, msk, Add(HashSum(pk.h, id, |id|), pk.g3), r);
    assert sk.k1 == Scale(pk.g, r);
    InPlainArithmetic(pk.g, sk.k0, pk.g1, pk.g2, HashTerms(pk.h, id, |id|), pk.g3, sk.k1);
    forall i | 0 <= i < |sk.b|
      ensures pk.g * sk.b[i] % ORDER == pk.h[|id| + i] * sk.k1 % ORDER
    {
      ElementOpens(pk.g, pk.h[|id| + i], r);
    }
  }

  lemma {:induction false} ElementOpens(g: Elem, h: Elem, r: Scalar)
    ensures g * Scale(h, r) % ORDER == h * Scale(g, r) % ORDER
  {
    ScaleSwaps(g, h, r);
    ReduceIsRemainder(g * Scale(h, r));
    ReduceIsRemainder(h * Scale(g, r));
  }

  /** So does every key that is generated, with the second element fixed by the randomness, ... */
  lemma {:induction false} GeneratedOpens(c: CachedBbgKeygen, r: Scalar, msk: MasterKey, id: Identity)
    requires c.Valid() && IsSetup(c.publicKey, msk) && c.GenerateKey(r, msk, id).Ok?
    ensures Opens(c.publicKey, c.GenerateKey(r, msk, id).value, id)
    ensures c.GenerateKey(r, msk, id).value.k1 == c.publicKey.g * r % ORDER
  {
    GenerateKeyIsKeyAt(c, r, msk, id);
    KeyOpens(c.publicKey, msk, c.GenerateKey(r, msk, id).value, id);
    ReduceIsRemainder(c.publicKey.g * r);
  }

  /** ... and every key that is derived from such a key. */
  lemma {:induction false} DerivedOpens(pk: PublicKey, msk: MasterKey, parent: PrivateKey, name: Identity, child: Scalar, t: Scalar)
    requires IsSetup(pk, msk) && IsKeyFor(pk, msk, parent, name) && |name| < |pk.h|
    ensures parent.b != [] && Opens(pk, Derived(pk, parent, name, child, t), name + [child])
    ensures Derived(pk, parent, name, child, t).k1 == (parent.k1 + pk.g * t) % ORDER
  {
    hide Derived, KeyAt, Opens, IsSetup;
    var r: Scalar :| parent == KeyAt(pk, msk, name, r);
    DerivedIsKeyAt(pk, msk, name, child, r, t);
    KeyOpens(pk, msk, Derived(pk, parent, name, child, t), name + [child]);
    SecondElement(pk, parent, name, child, t);
  }

  lemma {:induction false} SecondElement(pk: PublicKey, parent: PrivateKey, name: Identity, child: Scalar, t: Scalar)
    requires |name| < |pk.h| && parent.b != []
    ensures Derived(pk, parent, name, child, t).k1 == (parent.k1 + pk.g * t) % ORDER
  {
    AddIsModulo(parent.k1, pk.g * t);
  }

  // ---- identity vectors of nodes ------------------------------------------

  /** The scalar that one path bit is hashed to. Left uninterpreted. */
  const HashBit: nat -> Scalar

  /** Bit `i` of the path of a node, counted from the root, starting at 1. */
  function PathBit(n: NodeName, i: nat): nat
    requires 1 <= i <= n.len
  {
    ShiftRight(n.path, n.len - i) % 2
  }

  function MapIdentity(n: NodeName): (id: Identity)
    ensures |id| == n.len
  {
    seq<Scalar>(n.len, i requires 0 <= i < n.len => HashBit(PathBit(n, i + 1)))
  }

  /** The path bits spell the way from the root: a child has the bits of its parent
      and then a 0 on the left, a 1 on the right. */
  lemma {:induction false} ChildBits(n: NodeName)
    requires n.Valid() && n.len < HIERARCHY_DEPTH
    ensures PathBit(n.Left(), n.len + 1) == 0 && PathBit(n.Right(), n.len + 1) == 1
    ensures MapIdentity(n.Left()) == MapIdentity(n) + [HashBit(0)]
    ensures MapIdentity(n.Right()) == MapIdentity(n) + [HashBit(1)]
  {
    var left, right := n.Left(), n.Right();
    LastBit(left);
    LastBit(right);
    ParentIsAncestor(left, n.len + 1);
    ParentIsAncestor(right, n.len + 1);
    WholeAncestor(left);
    WholeAncestor(right);
    AncestorIdentity(left, n.len);
    AncestorIdentity(right, n.len);
  }

  lemma {:induction false} LastBit(n: NodeName)
    requires n.len > 0
    ensures PathBit(n, n.len) == n.path % 2
  {
    assert Pow2(0) == 1;
  }

  lemma {:induction false} WholeAncestor(n: NodeName)
    requires n.Valid()
    ensures Ancestor(n, n.len) == n
  {
    assert Pow2(0) == 1;
  }

  /** The identity of an ancestor is a prefix of the identity of the node. */
  lemma {:induction false} AncestorIdentity(n: NodeName, k: nat)
    requires n.Valid() && k <= n.len
    ensures MapIdentity(Ancestor(n, k)) == MapIdentity(n)[..k]
  {
    var a := Ancestor(n, k);
    forall i | 0 <= i < k
      ensures MapIdentity(a)[i] == MapIdentity(n)[i]
    {
      ShiftShift(n.path, n.len - k, k - (i + 1));
      assert n.len - k + (k - (i + 1)) == n.len - (i + 1);
      assert PathBit(a, i + 1) == PathBit(n, i + 1);
    }
  }
}
