/** The shared tables of the authority as objects that its handlers update (authority.rs). */
module AuthorityObjects {
  import opened Wrappers
  import opened Bytes
  import opened Group
  import opened NodeNames
  import opened Hibe
  import opened Allocation
  import opened AllocationSteps
  import opened AllocationAgreement
  import opened Allocator
  import opened Authority

  class InnerRequests {
    var requests: map<RelayKey, Request>
    var addresses: map<RelayKey, Address>
    var counter: nat

    ghost function Value(): RequestTable
      reads this
    {
      RequestTable(requests, addresses, counter)
    }

    constructor ()
      ensures Value() == NO_REQUESTS
    {
      requests := map[];
      addresses := map[];
      counter := 0;
    }

    method Insert(relayKey: RelayKey, address: Address, weight: u32)
      modifies this
      ensures Value() == Inserted(old(Value()), relayKey, address, weight)
    {
      if counter >= COUNTER_MAX {
        return;
      }
      var nextId := counter;
      counter := counter + 1;
      requests := requests[relayKey := Request(nextId, relayKey, weight)];
      addresses := addresses[relayKey := address];
    }

    method UpdateFrom(other: InnerRequests)
      modifies this
      ensures Value() == old(other.Value())
    {
      addresses := other.addresses;
      requests := other.requests;
      counter := other.counter;
    }

    method Clear()
      modifies this
      ensures Value() == NO_REQUESTS
    {
      addresses := map[];
      requests := map[];
      counter := 0;
    }
  }

  class InnerAllocations {
    var allocations: map<RelayKey, Allotment>
    var addresses: map<RelayKey, Address>
    var publicParams: PublicKey
    var masterKey: MasterKey

    ghost function Value(): AllocationTable
      reads this
    {
      AllocationTable(allocations, addresses, publicParams, masterKey)
    }

    constructor ()
      ensures Value() == NO_ALLOCATIONS
    {
      allocations := map[];
      addresses := map[];
      publicParams := NO_ALLOCATIONS.publicParams;
      masterKey := NO_ALLOCATIONS.masterKey;
    }

    /** Scans the relays in an arbitrary order; the lookup of the address never misses. The
        address is that of the relay with the leaf `identity`, modulo the number of leaves. */
    method GetAddress(identity: u64) returns (r: Option<Address>)
      requires AllocationsInv(Value())
      ensures r == AddressOf(Value(), identity)
      ensures forall key | key in allocations && Owns(allocations[key], identity % LeafCount()) ::
        key in addresses && r == Some(addresses[key])
      ensures r.None? ==> forall key | key in allocations :: !Owns(allocations[key], identity % LeafCount())
    {
      hide AllocationsInv, AddressOf, Owns;
      AddressByLeaf(Value(), identity);
      OwnersAreAllocated(Value(), identity);
      var leaf := Number(identity);
      var todo := allocations.Keys;
      while todo != {}
        invariant todo <= allocations.Keys
        invariant forall key | key in allocations && key !in todo :: !IsOwner(Value(), key, identity)
        decreases todo
      {
        var key :| key in todo;
        todo := todo - {key};
        var owns := exists c | c in allocations[key].nodes :: c.Contains(leaf);
        if owns {
          assert IsOwner(Value(), key, identity);
          OwnersAddress(Value(), key, identity);
          return Some(addresses[key]);
        }
      }
      r := None;
    }

    /** A fresh key for every cell of a relay, and nothing for an unknown relay. */
    method GetHibeKeys(relayKey: RelayKey, coins: nat -> Scalar) returns (pairs: seq<(Cell, PrivateKey)>)
      requires |publicParams.h| == HIERARCHY_DEPTH
      ensures relayKey !in allocations ==> pairs == []
      ensures relayKey in allocations ==>
        && |pairs| == |allocations[relayKey].nodes|
        && forall i | 0 <= i < |pairs| ::
             var node := allocations[relayKey].nodes[i];
             pairs[i] == (node, KeyAt(publicParams, masterKey, MapIdentity(node), coins(i)))
      ensures IsSetup(publicParams, masterKey) ==>
        forall i | 0 <= i < |pairs| :: Opens(publicParams, pairs[i].1, MapIdentity(pairs[i].0))
    {
      hide KeyAt, Opens, IsSetup;
      pairs := [];
      if relayKey in allocations {
        var nodes := allocations[relayKey].nodes;
        for i := 0 to |nodes|
          invariant |pairs| == i
          invariant forall j | 0 <= j < i ::
            pairs[j] == (nodes[j], KeyAt(publicParams, masterKey, MapIdentity(nodes[j]), coins(j)))
        {
          pairs := pairs + [(nodes[i], KeyAt(publicParams, masterKey, MapIdentity(nodes[i]), coins(i)))];
        }
        forall i | 0 <= i < |pairs| && IsSetup(publicParams, masterKey)
          ensures Opens(publicParams, pairs[i].1, MapIdentity(pairs[i].0))
        {
          KeyOpens(publicParams, masterKey, pairs[i].1, MapIdentity(nodes[i]));
        }
      }
    }

    method UpdateFrom(other: InnerAllocations)
      modifies this
      ensures Value() == old(other.Value())
    {
      addresses := other.addresses;
      allocations := other.allocations;
      publicParams := other.publicParams;
      masterKey := other.masterKey;
    }

    method Clear()
      modifies this
      ensures Value() == NO_ALLOCATIONS
    {
      addresses := map[];
      allocations := map[];
      publicParams := NO_ALLOCATIONS.publicParams;
      masterKey := NO_ALLOCATIONS.masterKey;
    }
  }

  // ---- allocating the registered requests -----------------------------------------

  /** The requests in some order. */
  method ListValues(requests: map<RelayKey, Request>) returns (order: seq<Request>)
    requires forall key | key in requests :: requests[key].key == key
    ensures Enumerates(requests, order)
  {
    order := [];
    var todo := requests.Keys;
    while todo != {}
      invariant todo <= requests.Keys
      invariant DistinctRequests(order)
      invariant forall r | r in order :: r.key in requests && requests[r.key] == r && r.key !in todo
      invariant forall key | key in requests && key !in todo :: requests[key] in order
      decreases todo
    {
      var key :| key in todo;
      todo := todo - {key};
      forall i | 0 <= i < |order|
        ensures order[i].key != key
      {
        assert order[i] in order;
      }
      order := order + [requests[key]];
    }
  }

  /** The relay key of every request identifier. */
  method ReverseKeys(order: seq<Request>) returns (reverseKeys: map<nat, RelayKey>)
    requires DistinctIds(order)
    ensures forall j | 0 <= j < |order| :: order[j].id in reverseKeys && reverseKeys[order[j].id] == order[j].key
  {
    reverseKeys := map[];
    for i := 0 to |order|
      invariant forall j | 0 <= j < i :: order[j].id in reverseKeys && reverseKeys[order[j].id] == order[j].key
    {
      reverseKeys := reverseKeys[order[i].id := order[i].key];
    }
  }

  /** Turns cells by request identifier into cells by relay key; no identifier misses its key. */
  method Rekey(order: seq<Request>, cells: map<nat, seq<Cell>>) returns (allocations: map<RelayKey, Allotment>)
    requires DistinctRequests(order) && DistinctIds(order)
    requires cells.Keys == set r | r in order :: r.id
    ensures ByKey(order, EntriesOf(order, cells), allocations)
  {
    var reverseKeys := ReverseKeys(order);
    allocations := map[];
    var todo := cells.Keys;
    while todo != {}
      invariant todo <= cells.Keys
      invariant allocations.Keys <= set r | r in order :: r.key
      invariant forall j | 0 <= j < |order| && order[j].id !in todo ::
        order[j].key in allocations && allocations[order[j].key] == Allotment(order[j].id, cells[order[j].id])
      decreases todo
    {
      var id :| id in todo;
      todo := todo - {id};
      ghost var k := IndexOfId(order, id);
      assert order[k] in order;
      allocations := allocations[reverseKeys[id] := Allotment(id, cells[id])];
    }
    assert forall j | 0 <= j < |order| :: order[j] in order;
  }

  lemma {:induction false} IndexOfId(order: seq<Request>, id: nat) returns (k: nat)
    requires DistinctIds(order) && DistinctRequests(order) && id in set r | r in order :: r.id
    ensures k < |order| && order[k].id == id
    ensures forall j | 0 <= j < |order| && j != k :: order[j].id != id && order[j].key != order[k].key
  {
    var r :| r in order && r.id == id;
    k :| 0 <= k < |order| && order[k] == r;
  }

  lemma {:induction false} SomeRequest(t: RequestTable, order: seq<Request>)
    requires RequestsInv(t) && t.requests != map[] && Enumerates(t.requests, order)
    ensures order != [] && DistinctRequests(order) && DistinctIds(order)
  {
    var key :| key in t.requests;
    assert t.requests[key] in order;
    EnumeratedIds(t, order);
  }

  /** Runs the allocation with both tables locked. The result says whether the task
      panicked in the allocator, which is never an overflow; then the requests are
      gone and only their addresses have reached the new table. */
  method AllocateTables(requests: InnerRequests, allocations: InnerAllocations, publicParams: PublicKey, masterKey: MasterKey)
    returns (panics: bool)
    requires IsSetup(publicParams, masterKey)
    requires RequestsInv(requests.Value()) && requests.requests != map[]
    modifies requests, allocations
    ensures requests.Value() == NO_REQUESTS
    ensures Allocates(old(requests.Value()), allocations.Value(), panics)
  {
    hide IsSetup, Outcome, Allotted, EntriesOf, Enumerates, DistinctRequests, DistinctIds, ByKey, SumWeight;
    ghost var t := requests.Value();
    allocations.allocations := map[];
    allocations.addresses := requests.addresses;
    allocations.publicParams := publicParams;
    allocations.masterKey := masterKey;
    var order := ListValues(requests.requests);
    SomeRequest(t, order);
    TotalFits(t, order);
    hide RequestsInv;
    requests.Clear();
    var cells := Allocate(order);
    panics := cells.None?;
    if cells.Some? {
      allocations.allocations := Rekey(order, cells.value);
    }
    assert Yields(order, allocations.allocations);
  }

  /** The four steps of the switchover, without anything in between. */
  method Advance(currentRequests: InnerRequests, newRequests: InnerRequests,
                 currentAllocations: InnerAllocations, newAllocations: InnerAllocations)
    requires currentRequests != newRequests && currentAllocations != newAllocations
    modifies currentRequests, newRequests, currentAllocations, newAllocations
    ensures currentRequests.Value() == old(newRequests.Value()) && newRequests.Value() == NO_REQUESTS
    ensures currentAllocations.Value() == old(newAllocations.Value()) && newAllocations.Value() == NO_ALLOCATIONS
  {
    currentRequests.UpdateFrom(newRequests);
    currentAllocations.UpdateFrom(newAllocations);
    newRequests.Clear();
    newAllocations.Clear();
  }
}
