/**
 The components together: the relay that the authorities name for an identity
 is the one that can open the onion layer of that identity.
 */
module Delivery {
  import opened Wrappers
  import opened Bytes
  import opened Group
  import opened NodeNames
  import opened Hibe
  import opened Relay
  import opened Allocation
  import opened AllocationAgreement
  import opened Authority
  import opened OnionFormat
  import opened OnionPath

  // ---- receiving keys ---------------------------------------------------------

  /** `a` is what the relay `key` received from the authority with table `t`. */
  ghost predicate Holds(a: LiveAuthority, t: AllocationTable, key: RelayKey) {
    && a.Valid() && a.publicKey == t.publicParams && a.Genuine(t.masterKey)
    && key in t.allocations
    && (forall name | name in a.receivedKeys :: name in t.allocations[key].nodes)
    && (forall c | c in t.allocations[key].nodes :: c in a.receivedKeys)
  }

  /** The relay stores the keys it is sent, each with a cache. */
  method Collect(publicKey: PublicKey, cache: CachedBbgKeygen, pairs: seq<(Cell, PrivateKey)>) returns (a: LiveAuthority)
    requires cache.Valid() && cache.publicKey == publicKey
    requires cache.maxDepth == |publicKey.h| == HIERARCHY_DEPTH
    requires forall p | p in pairs :: |p.1.b| == HIERARCHY_DEPTH - p.0.len
    ensures a.Valid() && a.publicKey == publicKey
    ensures forall name | name in a.receivedKeys :: (name, a.receivedKeys[name].1) in pairs
    ensures forall p | p in pairs :: p.0 in a.receivedKeys
  {
    var received: map<NodeName, (CachedBbgKeygen, PrivateKey)> := map[];
    for i := 0 to |pairs|
      invariant LiveAuthority(publicKey, received).Valid()
      invariant forall name | name in received :: (name, received[name].1) in pairs[..i]
      invariant forall p | p in pairs[..i] :: p.0 in received
    {
      var (name, key) := pairs[i];
      assert pairs[i] in pairs;
      received := received[name := (cache, key)];
      assert pairs[..i + 1] == pairs[..i] + [pairs[i]];
    }
    assert pairs[..|pairs|] == pairs;
    a := LiveAuthority(publicKey, received);
  }

  /** Keys collected from what `GetHibeKeys` sends are genuine and cover exactly
      the cells of the relay. */
  lemma {:induction false} CollectedHolds(a: LiveAuthority, t: AllocationTable, key: RelayKey,
                                          pairs: seq<(Cell, PrivateKey)>, coins: nat -> Scalar)
    requires |t.publicParams.h| == HIERARCHY_DEPTH && key in t.allocations
    requires |pairs| == |t.allocations[key].nodes|
    requires forall i | 0 <= i < |pairs| ::
      var node := t.allocations[key].nodes[i];
      pairs[i] == (node, KeyAt(t.publicParams, t.masterKey, MapIdentity(node), coins(i)))
    requires a.Valid() && a.publicKey == t.publicParams
    requires forall name | name in a.receivedKeys :: (name, a.receivedKeys[name].1) in pairs
    requires forall p | p in pairs :: p.0 in a.receivedKeys
    ensures Holds(a, t, key)
  {
    hide KeyAt, MapIdentity;
    var nodes := t.allocations[key].nodes;
    forall name | name in a.receivedKeys
      ensures name in nodes && IsKeyFor(a.publicKey, t.masterKey, a.receivedKeys[name].1, MapIdentity(name))
    {
      var i :| 0 <= i < |pairs| && pairs[i] == (name, a.receivedKeys[name].1);
      assert nodes[i] == name;
    }
    forall c | c in nodes
      ensures c in a.receivedKeys
    {
      var i :| 0 <= i < |nodes| && nodes[i] == c;
      assert pairs[i] in pairs;
    }
  }

  // ---- owners and keys ----------------------------------------------------------

  /** A relay obtains a key for an identity exactly if the authority names it as the owner. */
  lemma {:induction false} OwnerHasKey(a: LiveAuthority, t: AllocationTable, key: RelayKey, identity: u64,
                                       rng: nat -> Scalar, r: Option<PrivateKey>)
    requires Holds(a, t, key) && a.Returns(identity, rng, r)
    ensures r.Some? <==> IsOwner(t, key, identity)
  {
    hide Chain;
    if IsOwner(t, key, identity) {
      var c :| c in t.allocations[key].nodes && c.Contains(Number(identity));
      assert c in a.receivedKeys;
    }
    if r.Some? {
      var name :| name in a.receivedKeys && a.DerivedFrom(name, identity, rng, r.value);
      assert name in t.allocations[key].nodes && name.Contains(Number(identity));
    }
  }

  /** Tables computed from the same relays and weights, whatever the identifiers and
      the order of the computation, give every relay the same cells. */
  lemma {:induction false} TablesAgree(s: RequestTable, t: RequestTable, u: AllocationTable, v: AllocationTable, key: RelayKey)
    requires RequestsInv(s) && RequestsInv(t) && s.requests.Keys == t.requests.Keys
    requires forall k | k in s.requests :: s.requests[k].weight == t.requests[k].weight
    requires Allocates(s, u, false) && Allocates(t, v, false)
    requires key in s.requests
    ensures key in u.allocations && key in v.allocations
    ensures u.allocations[key].nodes == v.allocations[key].nodes
  {
    hide Distributed;
    var a, ea := AllocatedOrder(s, u);
    var b, eb := AllocatedOrder(t, v);
    OrdersAgree(s.requests, t.requests, a, b, ea, eb, u.allocations, v.allocations, key);
  }

  /** The allocations are those of the requests, enumerated in this order. */
  ghost predicate Distributed(requests: map<RelayKey, Request>, order: seq<Request>, entries: seq<Entry>,
                              allocations: map<RelayKey, Allotment>)
  {
    Enumerates(requests, order) && SumWeight(order) > 0 && Outcome(order, entries) && ByKey(order, entries, allocations)
  }

  lemma {:induction false} AllocatedOrder(t: RequestTable, u: AllocationTable) returns (order: seq<Request>, entries: seq<Entry>)
    requires Allocates(t, u, false)
    ensures Distributed(t.requests, order, entries, u.allocations)
  {
    hide Outcome, IsSetup, ByKey, Enumerates, SumWeight;
    order :| Enumerates(t.requests, order) && SumWeight(order) != 0 && Yields(order, u.allocations);
    entries :| Outcome(order, entries) && ByKey(order, entries, u.allocations);
  }

  lemma {:induction false} OrdersAgree(s: map<RelayKey, Request>, t: map<RelayKey, Request>, a: seq<Request>, b: seq<Request>,
                                       ea: seq<Entry>, eb: seq<Entry>,
                                       u: map<RelayKey, Allotment>, v: map<RelayKey, Allotment>, key: RelayKey)
    requires s.Keys == t.Keys && key in s
    requires forall k | k in s :: s[k].key == k && t[k].key == k && s[k].weight == t[k].weight
    requires Distributed(s, a, ea, u) && Distributed(t, b, eb, v)
    ensures key in u && key in v && u[key].nodes == v[key].nodes
  {
    hide Outcome, SumWeight, KeyWeights, DistinctRequests, EntrySet;
    EnumeratedWeights(s, t, a, b);
    EnumeratedWeights(t, s, b, a);
    assert s[key] in a && t[key] in b;
    var i :| 0 <= i < |a| && a[i] == s[key];
    var j :| 0 <= j < |b| && b[j] == t[key];
    AuthoritiesAgree(a, b, ea, eb, i, j);
  }

  lemma {:induction false} EnumeratedWeights(s: map<RelayKey, Request>, t: map<RelayKey, Request>, a: seq<Request>, b: seq<Request>)
    requires Enumerates(s, a) && Enumerates(t, b) && s.Keys == t.Keys
    requires forall k | k in t :: t[k].key == k
    requires forall k | k in s :: s[k].weight == t[k].weight
    ensures KeyWeights(a) <= KeyWeights(b)
  {
    forall p | p in KeyWeights(a)
      ensures p in KeyWeights(b)
    {
      var r :| r in a && (r.key, r.weight) == p;
      assert t[r.key] in b;
    }
  }

  // ---- the whole path --------------------------------------------------------------

  /** The authorities of a path: all of them allocated the same relays and weights,
      each in its own order and with its own keys. */
  ghost predicate Authorities(p: Path, requests: seq<RequestTable>, tables: seq<AllocationTable>) {
    && |requests| == |tables| == |p.publicKeys| > 0
    && forall j | 0 <= j < |tables| ::
         && RequestsInv(requests[j]) && Allocates(requests[j], tables[j], false)
         && SameRelays(requests[0], requests[j])
         && p.publicKeys[j] == tables[j].publicParams
  }

  ghost predicate SameRelays(s: RequestTable, t: RequestTable) {
    && s.requests.Keys == t.requests.Keys
    && forall k | k in s.requests :: s.requests[k].weight == t.requests[k].weight
  }

  /** The relays of a path and what they obtain: relay `owners[k]`, which the first
      authority names as the owner of the identity of hop `k`, holds the keys that
      every authority `j` sent it, and gets `answers[k][j]` for that identity. Every
      query draws its own scalars. */
  ghost predicate RelaysAnswer(p: Path, tables: seq<AllocationTable>, live: seq<seq<LiveAuthority>>, owners: seq<RelayKey>,
                               rng: (nat, nat) -> (nat -> Scalar), answers: seq<seq<Option<PrivateKey>>>)
  {
    && |live| == |owners| == |answers| == |p.identities|
    && |tables| > 0
    && forall k | 0 <= k < |answers| ::
         && IsOwner(tables[0], owners[k], p.identities[k])
         && |live[k]| == |answers[k]| == |tables|
         && forall j | 0 <= j < |tables| ::
              && Holds(live[k][j], tables[j], owners[k])
              && live[k][j].Returns(p.identities[k], rng(k, j), answers[k][j])
  }

  /** The keys among the answers: a relay goes on with those that it got. */
  function Present(answers: seq<Option<PrivateKey>>): (keys: seq<PrivateKey>)
    ensures |keys| <= |answers|
  {
    if answers == [] then []
    else (if answers[0].Some? then [answers[0].value] else []) + Present(answers[1..])
  }

  lemma {:induction false} AllPresent(answers: seq<Option<PrivateKey>>)
    requires forall j | 0 <= j < |answers| :: answers[j].Some?
    ensures |Present(answers)| == |answers|
    ensures forall j | 0 <= j < |answers| :: Present(answers)[j] == answers[j].value
  {
    if answers != [] {
      AllPresent(answers[1..]);
    }
  }

  lemma {:induction false} AllocatedRegistered(s: RequestTable, u: AllocationTable, key: RelayKey)
    requires RequestsInv(s) && Allocates(s, u, false) && key in u.allocations
    ensures key in s.requests
  {
    hide Outcome, IsSetup, SumWeight;
    var order :| Enumerates(s.requests, order) && SumWeight(order) != 0 && Yields(order, u.allocations);
    EnumeratedKeys(s.requests, order);
  }

  /** The owner that the first authority names is the owner at every authority. */
  lemma {:induction false} OwnerEverywhere(p: Path, requests: seq<RequestTable>, tables: seq<AllocationTable>,
                                           j: nat, key: RelayKey, identity: u64)
    requires Authorities(p, requests, tables) && j < |tables|
    requires IsOwner(tables[0], key, identity)
    ensures IsOwner(tables[j], key, identity)
  {
    hide RequestsInv, Allocates;
    AllocatedRegistered(requests[0], tables[0], key);
    TablesAgree(requests[0], requests[j], tables[0], tables[j], key);
  }

  /** So every query succeeds, and with a key for the identity. */
  lemma {:induction false} OwnerGetsKey(p: Path, requests: seq<RequestTable>, tables: seq<AllocationTable>, j: nat,
                                        a: LiveAuthority, key: RelayKey, identity: u64,
                                        rng: nat -> Scalar, r: Option<PrivateKey>)
    requires Authorities(p, requests, tables) && j < |tables|
    requires IsOwner(tables[0], key, identity) && Holds(a, tables[j], key) && a.Returns(identity, rng, r)
    ensures r.Some? && KeyFor(identity, p.publicKeys[j], r.value)
  {
    hide IsOwner, IsKeyFor, IsSetup, Yields, Enumerates, SumWeight, LiveAuthority.Returns;
    OwnerEverywhere(p, requests, tables, j, key, identity);
    OwnerHasKey(a, tables[j], key, identity, rng, r);
    DerivedKeyIsGenuine(a, tables[j].masterKey, identity, rng, r.value);
  }

  /** Onions for the identity are sent to the address of this relay. */
  ghost predicate Addressed(t: AllocationTable, key: RelayKey, identity: u64) {
    AllocationsInv(t) && key in t.addresses && AddressOf(t, identity) == Some(t.addresses[key])
  }

  lemma {:induction false} OwnerIsAddressed(s: RequestTable, t: AllocationTable, key: RelayKey, identity: u64)
    requires RequestsInv(s) && Allocates(s, t, false) && IsOwner(t, key, identity)
    ensures Addressed(t, key, identity)
  {
    hide IsOwner, Allocates, RequestsInv, AllocationsInv, AddressOf;
    AllocatesInv(s, t, false);
    OwnersAddress(t, key, identity);
  }

  function PrivateKeys(answers: seq<seq<Option<PrivateKey>>>): (keys: seq<seq<PrivateKey>>)
    ensures |keys| == |answers|
    ensures forall k | 0 <= k < |answers| :: keys[k] == Present(answers[k])
  {
    seq(|answers|, k requires 0 <= k < |answers| => Present(answers[k]))
  }

  /** Hops with these keys open all layers, read their delays, pass the onion on to the
      identities of the path, and the last one ends up with the data. */
  ghost predicate Delivered(p: Path, keys: seq<seq<PrivateKey>>)
    requires p.Valid()
  {
    var n, r := |p.identities|, Peel(Layer(p, 0), p.publicKeys, keys);
    && r.Ok? && |r.value| == n
    && (forall i | 0 <= i < n :: r.value[i].0.delay == p.delays[i])
    && (forall i | 0 <= i < n - 1 :: r.value[i].1.identity == p.identities[i + 1])
    && (forall i | 0 <= i < n - 1 && p.identities[i + 1] != 0 :: !r.value[i].1.IsFinalDestination())
    && (n > 0 ==> r.value[n - 1].1.IsFinalDestination() && r.value[n - 1].1.payload == p.data)
  }

  /** Delivery. Each onion is sent to the address that the first authority names; the
      relay there obtains a key from every authority, whatever scalars are drawn, opens
      its layer, and passes on the next onion. The last one ends up with the data. */
  lemma {:induction false} PathDelivers(p: Path, requests: seq<RequestTable>, tables: seq<AllocationTable>,
                                        live: seq<seq<LiveAuthority>>, owners: seq<RelayKey>,
                                        rng: (nat, nat) -> (nat -> Scalar), answers: seq<seq<Option<PrivateKey>>>)
    requires p.Valid() && Authorities(p, requests, tables)
    requires RelaysAnswer(p, tables, live, owners, rng, answers)
    ensures forall k | 0 <= k < |owners| :: Addressed(tables[0], owners[k], p.identities[k])
    ensures forall k, j | 0 <= k < |answers| && 0 <= j < |answers[k]| :: answers[k][j].Some?
    ensures Delivered(p, PrivateKeys(answers))
  {
    hide Layer, Peel, KeyFor, Allocates, RequestsInv, IsOwner, Holds, LiveAuthority.Returns, Present, Addressed,
         SameRelays, OnionValue.IsFinalDestination;
    var keys := PrivateKeys(answers);
    forall k | 0 <= k < |owners|
      ensures Addressed(tables[0], owners[k], p.identities[k])
    {
      OwnerIsAddressed(requests[0], tables[0], owners[k], p.identities[k]);
    }
    forall k | 0 <= k < |answers|
      ensures KeysFor(p.identities[k], p.publicKeys, keys[k])
      ensures forall j | 0 <= j < |answers[k]| :: answers[k][j].Some?
    {
      forall j | 0 <= j < |tables|
        ensures answers[k][j].Some? && KeyFor(p.identities[k], p.publicKeys[j], answers[k][j].value)
      {
        OwnerGetsKey(p, requests, tables, j, live[k][j], owners[k], p.identities[k], rng(k, j), answers[k][j]);
      }
      AllPresent(answers[k]);
    }
    FullPeel(p, keys);
  }
}
