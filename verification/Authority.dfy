/**
 The authority (authority.rs): relays register, requests are allocated, and the
 new tables become the current ones in four separate steps, between which other
 requests may be served.
 */
module Authority {
  import opened Wrappers
  import opened Bytes
  import opened Powers
  import opened NodeNames
  import opened Hibe
  import opened Allocation
  import opened AllocationSteps
  import opened Placement
  import opened AllocationAgreement

  datatype Address = Address(host: string, port: nat)

  datatype Allotment = Allotment(id: nat, nodes: seq<Cell>)

  const COUNTER_MAX: nat := 0xFFFF_FFFF

  datatype RequestTable = RequestTable(
    requests: map<RelayKey, Request>,
    addresses: map<RelayKey, Address>,
    counter: nat)

  datatype AllocationTable = AllocationTable(
    allocations: map<RelayKey, Allotment>,
    addresses: map<RelayKey, Address>,
    publicParams: PublicKey,
    masterKey: MasterKey)

  const NO_REQUESTS: RequestTable := RequestTable(map[], map[], 0)

  const NO_ALLOCATIONS: AllocationTable := AllocationTable(map[], map[], PublicKey(0, 0, 0, 0, []), 0)

  // ---- operations on the tables ----------------------------------------------

  /** A registration replaces an earlier one of the same key and takes a new
      identifier. When the identifiers are used up, the request handler panics
      before it changes anything. */
  function Inserted(t: RequestTable, key: RelayKey, address: Address, weight: u32): RequestTable {
    if t.counter >= COUNTER_MAX then t
    else RequestTable(t.requests[key := Request(t.counter, key, weight)], t.addresses[key := address], t.counter + 1)
  }

  /** `order` lists the values of the map, in some order. */
  ghost predicate Enumerates(requests: map<RelayKey, Request>, order: seq<Request>) {
    && DistinctRequests(order)
    && (forall r | r in order :: r.key in requests && requests[r.key] == r)
    && forall key | key in requests :: requests[key] in order
  }

  /** The allocations by relay key. */
  ghost predicate ByKey(order: seq<Request>, entries: seq<Entry>, allocations: map<RelayKey, Allotment>) {
    && |entries| == |order|
    && allocations.Keys == (set r | r in order :: r.key)
    && forall i | 0 <= i < |order| ::
         order[i].key in allocations && allocations[order[i].key] == Allotment(order[i].id, entries[i].cells)
  }

  /** What allocating the requests, enumerated in this order, yields: nothing if
      the total weight is zero, because the program panics then. */
  ghost predicate Yields(order: seq<Request>, allocations: map<RelayKey, Allotment>) {
    if SumWeight(order) == 0 then allocations == map[]
    else exists entries :: Outcome(order, entries) && ByKey(order, entries, allocations)
  }

  ghost predicate Allocates(t: RequestTable, u: AllocationTable, panics: bool) {
    && u.addresses == t.addresses
    && IsSetup(u.publicParams, u.masterKey)
    && exists order ::
         Enumerates(t.requests, order) && (panics <==> SumWeight(order) == 0) && Yields(order, u.allocations)
  }

  // ---- the server --------------------------------------------------------------

  /** `Switching(n)`: `n` of the four steps of the switchover are done. After a
      panic, the task that allocates is gone. */
  datatype Phase = Waiting | Switching(done: nat) | Crashed

  datatype Server = Server(
    currentRequests: RequestTable,
    newRequests: RequestTable,
    currentAllocations: AllocationTable,
    newAllocations: AllocationTable,
    phase: Phase)

  const START: Server := Server(NO_REQUESTS, NO_REQUESTS, NO_ALLOCATIONS, NO_ALLOCATIONS, Waiting)

  ghost predicate Registers(s: Server, t: Server) {
    exists key: RelayKey, address: Address, weight: u32 ::
      t == s.(newRequests := Inserted(s.newRequests, key, address, weight))
  }

  /** Fewer than two relays: the epoch is skipped. */
  ghost predicate AllocatesEpoch(s: Server, t: Server) {
    && s.phase == Waiting
    && |s.newRequests.addresses| >= 2
    && Allocates(s.newRequests, t.newAllocations, t.phase == Crashed)
    && (t.phase == Crashed || t.phase == Switching(0))
    && t == s.(newRequests := NO_REQUESTS, newAllocations := t.newAllocations, phase := t.phase)
  }

  ghost predicate Switches(s: Server, t: Server) {
    match s.phase
    case Switching(0) => t == s.(currentRequests := s.newRequests, phase := Switching(1))
    case Switching(1) => t == s.(currentAllocations := s.newAllocations, phase := Switching(2))
    case Switching(2) => t == s.(newRequests := NO_REQUESTS, phase := Switching(3))
    case Switching(3) => t == s.(newAllocations := NO_ALLOCATIONS, phase := Waiting)
    case _ => false
  }

  ghost predicate Steps(s: Server, t: Server) {
    Registers(s, t) || AllocatesEpoch(s, t) || Switches(s, t)
  }

  ghost predicate IsRun(run: seq<Server>) {
    && run != [] && run[0] == START
    && forall i | 0 <= i < |run| - 1 :: Steps(run[i], run[i + 1])
  }

  // ---- the invariant -------------------------------------------------------------

  ghost predicate RequestsInv(t: RequestTable) {
    && t.requests.Keys == t.addresses.Keys
    && t.counter <= COUNTER_MAX
    && (forall key | key in t.requests ::
          var r := t.requests[key];
          r.key == key && r.id < t.counter && r.weight < 0x1_0000_0000)
    && forall k, l | k in t.requests && l in t.requests && k != l :: t.requests[k].id != t.requests[l].id
  }

  ghost predicate Owns(a: Allotment, x: nat) {
    exists c | c in a.nodes :: Covers(c, x)
  }

  /** No leaf belongs to two relays. */
  ghost predicate Disjoint(allocations: map<RelayKey, Allotment>) {
    forall k, l, x | k in allocations && l in allocations && 0 <= x < LeafCount() ::
      Owns(allocations[k], x) && Owns(allocations[l], x) ==> k == l
  }

  /** Every relay has the leaves that its weight is worth, out of a common total, in
      the order from right to left in which they were given away. */
  ghost predicate Proportional(allocations: map<RelayKey, Allotment>) {
    allocations == map[] || exists order, entries ::
      SumWeight(order) > 0 && Allotted(order, entries) && Arranged(order, entries) && ByKey(order, entries, allocations)
  }

  ghost predicate AllocationsInv(t: AllocationTable) {
    t.allocations.Keys == t.addresses.Keys && Disjoint(t.allocations) && Proportional(t.allocations)
  }

  ghost predicate ServerInv(s: Server) {
    && RequestsInv(s.currentRequests) && RequestsInv(s.newRequests)
    && AllocationsInv(s.currentAllocations)
    && if s.phase == Crashed then
         s.newAllocations.allocations == map[] && |s.newAllocations.addresses| >= 2
       else AllocationsInv(s.newAllocations)
  }

  lemma {:induction false} InsertKeepsInv(t: RequestTable, key: RelayKey, address: Address, weight: u32)
    requires RequestsInv(t)
    ensures RequestsInv(Inserted(t, key, address, weight))
  {
  }

  /** Cells that the allocator gives to different keys are disjoint. */
  lemma {:induction false} AllottedIsDisjoint(order: seq<Request>, entries: seq<Entry>, allocations: map<RelayKey, Allotment>)
    requires SumWeight(order) > 0 && Allotted(order, entries) && ByKey(order, entries, allocations)
    ensures Disjoint(allocations)
  {
    forall k, l, x | k in allocations && l in allocations && 0 <= x < LeafCount()
      && Owns(allocations[k], x) && Owns(allocations[l], x)
      ensures k == l
    {
      var i :| 0 <= i < |order| && order[i].key == k;
      var j :| 0 <= j < |order| && order[j].key == l;
      OneOwner(order, entries, i, j, x);
    }
  }

  lemma {:induction false} EnumeratedKeys(requests: map<RelayKey, Request>, order: seq<Request>)
    requires Enumerates(requests, order)
    requires forall key | key in requests :: requests[key].key == key
    ensures (set r | r in order :: r.key) == requests.Keys
  {
    forall key | key in requests
      ensures key in (set r | r in order :: r.key)
    {
      assert requests[key] in order;
    }
  }

  /** Some relay has registered with a positive weight. */
  ghost predicate HasWeight(t: RequestTable) {
    exists key | key in t.requests :: t.requests[key].weight > 0
  }

  lemma {:induction false} PositiveSum(requests: seq<Request>)
    ensures SumWeight(requests) > 0 <==> exists r | r in requests :: r.weight > 0
  {
    if requests != [] {
      PositiveSum(requests[1..]);
      assert requests == [requests[0]] + requests[1..];
    }
  }

  /** The allocator panics exactly if no relay has a positive weight. */
  lemma {:induction false} PanicsExactly(t: RequestTable, u: AllocationTable, panics: bool)
    requires Allocates(t, u, panics)
    ensures panics <==> !HasWeight(t)
  {
    hide Yields, IsSetup;
    var order :| Enumerates(t.requests, order) && (panics <==> SumWeight(order) == 0) && Yields(order, u.allocations);
    PositiveSum(order);
    if HasWeight(t) {
      var key :| key in t.requests && t.requests[key].weight > 0;
      assert t.requests[key] in order;
    }
  }

  lemma {:induction false} DistinctBelow(ids: seq<nat>, n: nat)
    requires forall i, j | 0 <= i < j < |ids| :: ids[i] != ids[j]
    requires forall i | 0 <= i < |ids| :: ids[i] < n
    ensures |ids| <= n
  {
    if ids != [] {
      assert ids[0] < n;
      if k :| 0 <= k < |ids| && ids[k] == n - 1 {
        DistinctBelow(ids[..k] + ids[k + 1..], n - 1);
      } else {
        DistinctBelow(ids, n - 1);
      }
    }
  }

  lemma {:induction false} EnumeratedIds(t: RequestTable, order: seq<Request>)
    requires RequestsInv(t) && Enumerates(t.requests, order)
    ensures forall i, j | 0 <= i < j < |order| :: order[i].id != order[j].id
    ensures forall i | 0 <= i < |order| :: order[i].id < t.counter && order[i].weight < 0x1_0000_0000
  {
    forall i | 0 <= i < |order|
      ensures order[i].id < t.counter && order[i].weight < 0x1_0000_0000
    {
      assert order[i] in order;
    }
    forall i, j | 0 <= i < j < |order|
      ensures order[i].id != order[j].id
    {
      assert order[i] in order && order[j] in order;
      assert order[i].key != order[j].key;
    }
  }

  lemma {:induction false} SumAtMost(requests: seq<Request>, w: nat)
    requires forall i | 0 <= i < |requests| :: requests[i].weight <= w
    ensures SumWeight(requests) <= |requests| * w
  {
    if requests != [] {
      SumAtMost(requests[1..], w);
      MulOneMore(|requests| - 1, w);
    }
  }

  /** The total weight of registered relays always fits into 64 bits: there are fewer
      than `2^32` identifiers, and every weight is below `2^32`. */
  lemma {:induction false} TotalFits(t: RequestTable, order: seq<Request>)
    requires RequestsInv(t) && Enumerates(t.requests, order)
    ensures SumWeight(order) < 0x1_0000_0000_0000_0000
  {
    hide SumWeight, Enumerates;
    EnumeratedIds(t, order);
    DistinctBelow(seq(|order|, i requires 0 <= i < |order| => order[i].id), t.counter);
    SumAtMost(order, 0xFFFF_FFFF);
    MulMonotone(|order|, COUNTER_MAX, 0xFFFF_FFFF);
  }

  lemma {:induction false} AllocatesInv(t: RequestTable, u: AllocationTable, panics: bool)
    requires RequestsInv(t) && Allocates(t, u, panics)
    ensures u.addresses == t.addresses
    ensures if panics then u.allocations == map[] else AllocationsInv(u)
  {
    hide Outcome, Allotted, Arranged, IsSetup;
    var order :| Enumerates(t.requests, order) && (panics <==> SumWeight(order) == 0) && Yields(order, u.allocations);
    EnumeratedKeys(t.requests, order);
    if !panics {
      var entries :| Outcome(order, entries) && ByKey(order, entries, u.allocations);
      OutcomeIsAllotted(order, entries);
      AllottedIsDisjoint(order, entries, u.allocations);
    }
  }

  lemma {:induction false} EmptyInv()
    ensures RequestsInv(NO_REQUESTS) && AllocationsInv(NO_ALLOCATIONS)
  {
  }

  lemma {:induction false} StepKeepsInv(s: Server, t: Server)
    requires ServerInv(s) && Steps(s, t)
    ensures ServerInv(t)
  {
    hide RequestsInv, AllocationsInv, Allocates, Inserted;
    EmptyInv();
    if Registers(s, t) {
      var key: RelayKey, address: Address, weight: u32 :|
        t == s.(newRequests := Inserted(s.newRequests, key, address, weight));
      InsertKeepsInv(s.newRequests, key, address, weight);
    } else if AllocatesEpoch(s, t) {
      AllocatesInv(s.newRequests, t.newAllocations, t.phase == Crashed);
    }
  }

  /** In every state of every run: request identifiers are distinct and below the
      counter, requests and addresses have the same keys, and the cells of
      different relays are disjoint. */
  lemma {:induction false} RunKeepsInv(run: seq<Server>, i: nat)
    requires IsRun(run) && i < |run|
    ensures ServerInv(run[i])
  {
    hide RequestsInv, AllocationsInv, Steps;
    if i == 0 {
      EmptyInv();
    } else {
      RunKeepsInv(run, i - 1);
      assert Steps(run[i - 1], run[i - 1 + 1]);
      StepKeepsInv(run[i - 1], run[i]);
    }
  }

  ghost predicate NewKeysCoincide(s: Server) {
    s.newAllocations.allocations.Keys == s.newAllocations.addresses.Keys
  }

  lemma {:induction false} CoincideUnlessCrashed(s: Server)
    requires ServerInv(s)
    ensures NewKeysCoincide(s) <==> s.phase != Crashed
  {
    var t := s.newAllocations;
    assert t.allocations == map[] ==> t.allocations.Keys == {};
    assert |t.addresses| == |t.addresses.Keys|;
  }

  /** After an allocation the keys of the new allocations and their addresses
      coincide exactly if some registered relay had a positive weight. */
  lemma {:induction false} EpochKeysCoincide(s: Server, t: Server)
    requires ServerInv(s) && AllocatesEpoch(s, t)
    ensures NewKeysCoincide(t) <==> HasWeight(s.newRequests)
  {
    hide ServerInv, Allocates, NewKeysCoincide, HasWeight;
    StepKeepsInv(s, t);
    CoincideUnlessCrashed(t);
    PanicsExactly(s.newRequests, t.newAllocations, t.phase == Crashed);
  }

  /** No epoch before step `i` of the run was allocated without any weight. */
  ghost predicate AllWeighted(run: seq<Server>, i: nat)
    requires i < |run|
  {
    forall k | 0 <= k < i :: AllocatesEpoch(run[k], run[k + 1]) ==> HasWeight(run[k].newRequests)
  }

  lemma {:induction false} CrashedExactly(run: seq<Server>, i: nat)
    requires IsRun(run) && i < |run|
    ensures run[i].phase == Crashed <==> !AllWeighted(run, i)
  {
    hide Allocates, HasWeight, Inserted;
    if i > 0 {
      var s, t := run[i - 1], run[i - 1 + 1];
      CrashedExactly(run, i - 1);
      assert Steps(s, t);
      if AllocatesEpoch(s, t) {
        PanicsExactly(s.newRequests, t.newAllocations, t.phase == Crashed);
      }
      assert AllWeighted(run, i) <==> AllWeighted(run, i - 1) && (AllocatesEpoch(s, t) ==> HasWeight(s.newRequests));
    }
  }

  /** In every run, the keys of the current allocations and their addresses coincide.
      Those of the new ones coincide exactly as long as in every epoch so far some
      registered relay had a positive weight. */
  lemma {:induction false} KeysCoincide(run: seq<Server>, i: nat)
    requires IsRun(run) && i < |run|
    ensures run[i].currentAllocations.allocations.Keys == run[i].currentAllocations.addresses.Keys
    ensures NewKeysCoincide(run[i]) <==> AllWeighted(run, i)
  {
    hide AllWeighted, NewKeysCoincide;
    RunKeepsInv(run, i);
    CoincideUnlessCrashed(run[i]);
    CrashedExactly(run, i);
  }

  /** A run in which two relays without weight register, and their epoch is allocated. */
  function WeightlessRun(first: Address, second: Address, pk: PublicKey, msk: MasterKey): seq<Server> {
    var one := START.(newRequests := Inserted(NO_REQUESTS, 1, first, 0));
    var two := one.(newRequests := Inserted(one.newRequests, 2, second, 0));
    var three := two.(newRequests := NO_REQUESTS, phase := Crashed,
                      newAllocations := AllocationTable(map[], two.newRequests.addresses, pk, msk));
    [START, one, two, three]
  }

  /** It leaves addresses without allocations behind. */
  lemma {:induction false} WeightlessRunFails(first: Address, second: Address, pk: PublicKey, msk: MasterKey)
    requires IsSetup(pk, msk)
    ensures var run := WeightlessRun(first, second, pk, msk);
      && IsRun(run)
      && run[3].newAllocations.allocations.Keys == {}
      && run[3].newAllocations.addresses == map[1 := first, 2 := second]
  {
    hide IsSetup;
    var run := WeightlessRun(first, second, pk, msk);
    var t := run[2].newRequests;
    var order := [Request(0, 1, 0), Request(1, 2, 0)];
    assert Registers(run[0], run[1]);
    assert Registers(run[1], run[2]);
    assert t.requests == map[1 := order[0], 2 := order[1]];
    assert t.addresses == map[1 := first, 2 := second];
    assert |t.addresses.Keys| == |{1, 2}|;
    assert order[1..] == [order[1]];
    assert Enumerates(t.requests, order) && SumWeight(order) == 0;
    assert Allocates(t, run[3].newAllocations, true);
    forall i | 0 <= i < 3
      ensures Steps(run[i], run[i + 1])
    {
      assert i == 0 || i == 1 || i == 2;
    }
  }

  /** A complete switchover, with any registrations in between, makes the allocations
      that were new at its start the current ones. */
  lemma {:induction false} SwitchoverTakesOver(run: seq<Server>, i: nat, j: nat)
    requires IsRun(run) && i < j < |run| && run[i].phase == Switching(0)
    requires forall k | i <= k < j :: run[k].phase.Switching?
    ensures run[j].phase == Waiting ==>
      run[j].currentAllocations == run[i].newAllocations && run[j].newAllocations == NO_ALLOCATIONS
    ensures run[j].phase.Switching? ==>
      && run[j].newAllocations == run[i].newAllocations
      && run[j].phase.done <= 3
      && (run[j].phase.done >= 2 ==> run[j].currentAllocations == run[i].newAllocations)
  {
    hide Inserted;
    if i + 1 < j {
      SwitchoverTakesOver(run, i, j - 1);
    }
    assert Steps(run[j - 1], run[j - 1 + 1]);
  }

  /** After the first step of a switchover, the requests that were new then stay the
      current ones until the next switchover begins. */
  lemma {:induction false} SwitchoverRequests(run: seq<Server>, i: nat, j: nat)
    requires IsRun(run) && i < j < |run| && run[i].phase == Switching(0) && run[i + 1].phase == Switching(1)
    requires forall k | i < k < j :: run[k].phase != Switching(0)
    ensures run[j].currentRequests == run[i].newRequests
  {
    hide Inserted;
    assert Steps(run[j - 1], run[j - 1 + 1]);
    if i + 1 < j {
      SwitchoverRequests(run, i, j - 1);
    }
  }

  /** The third step leaves no new request, whatever has registered since the first one,
      and does not change the current ones. */
  lemma {:induction false} SwitchoverClears(run: seq<Server>, i: nat)
    requires IsRun(run) && i + 1 < |run| && run[i].phase == Switching(2) && run[i + 1].phase == Switching(3)
    ensures run[i + 1].newRequests.requests == map[] && run[i + 1].newRequests.addresses == map[]
    ensures run[i + 1].currentRequests == run[i].currentRequests
  {
    assert Steps(run[i], run[i + 1]);
  }

  // ---- registrations -------------------------------------------------------------------

  datatype Registration = Registration(key: RelayKey, address: Address, weight: u32)

  /** The table after some registrations. */
  function Registered(regs: seq<Registration>): RequestTable {
    if regs == [] then NO_REQUESTS
    else
      var n := |regs| - 1;
      Inserted(Registered(regs[..n]), regs[n].key, regs[n].address, regs[n].weight)
  }

  lemma {:induction false} RegisteredCount(regs: seq<Registration>)
    requires |regs| <= COUNTER_MAX
    ensures Registered(regs).counter == |regs|
  {
    if regs != [] {
      RegisteredCount(regs[..|regs| - 1]);
    }
  }

  /** The last registration of a relay counts: its weight, its address, and its place
      as the identifier. */
  lemma {:induction false} LastRegistration(regs: seq<Registration>, i: nat)
    requires |regs| <= COUNTER_MAX && i < |regs|
    requires forall j | i < j < |regs| :: regs[j].key != regs[i].key
    ensures var t, r := Registered(regs), regs[i];
      && r.key in t.requests && t.requests[r.key] == Request(i, r.key, r.weight)
      && r.key in t.addresses && t.addresses[r.key] == r.address
  {
    var n := |regs| - 1;
    RegisteredCount(regs[..n]);
    if i < n {
      LastRegistration(regs[..n], i);
      assert regs[n].key != regs[i].key;
    }
  }

  /** No other relay is in the table. */
  lemma {:induction false} OnlyRegistered(regs: seq<Registration>, key: RelayKey)
    ensures key in Registered(regs).requests || key in Registered(regs).addresses ==> exists i | 0 <= i < |regs| :: regs[i].key == key
  {
    if regs != [] {
      var n := |regs| - 1;
      OnlyRegistered(regs[..n], key);
      if i :| 0 <= i < n && regs[..n][i].key == key {
        assert regs[i].key == key;
      }
    }
  }

  /** When the identifiers are used up, further registrations change nothing. */
  lemma {:induction false} RegistrationsEnd(regs: seq<Registration>)
    requires |regs| > COUNTER_MAX
    ensures Registered(regs) == Registered(regs[..COUNTER_MAX])
  {
    var n := |regs| - 1;
    if n > COUNTER_MAX {
      RegistrationsEnd(regs[..n]);
      assert regs[..n][..COUNTER_MAX] == regs[..COUNTER_MAX];
    }
    RegisteredCount(regs[..COUNTER_MAX]);
  }

  // ---- looking up an address -------------------------------------------------------

  ghost predicate IsOwner(t: AllocationTable, key: RelayKey, identity: u64) {
    key in t.allocations && exists c | c in t.allocations[key].nodes :: c.Contains(Number(identity))
  }

  /** The owner of an identity is the relay with the leaf of this number, modulo the
      number of leaves. */
  lemma {:induction false} OwnerByLeaf(t: AllocationTable, key: RelayKey, identity: u64)
    requires key in t.allocations
    ensures IsOwner(t, key, identity) <==> Owns(t.allocations[key], identity % LeafCount())
  {
    forall c | c in t.allocations[key].nodes
      ensures c.Contains(Number(identity)) <==> Covers(c, identity % LeafCount())
    {
      ContainsIdentity(c, identity);
    }
  }

  /** At most one relay is responsible for an identity, so the address found does not
      depend on the order in which the relays are searched. */
  lemma {:induction false} OwnerIsUnique(t: AllocationTable, k: RelayKey, l: RelayKey, identity: u64)
    requires AllocationsInv(t) && IsOwner(t, k, identity) && IsOwner(t, l, identity)
    ensures k == l && k in t.addresses
  {
    OwnerByLeaf(t, k, identity);
    OwnerByLeaf(t, l, identity);
    ModAtMost(identity, LeafCount());
  }

  /** The address found for an identity is that of the relay with its leaf. */
  lemma {:induction false} AddressByLeaf(t: AllocationTable, identity: u64)
    requires AllocationsInv(t)
    ensures forall key | key in t.allocations && Owns(t.allocations[key], identity % LeafCount()) ::
      key in t.addresses && AddressOf(t, identity) == Some(t.addresses[key])
    ensures AddressOf(t, identity).None? <==> forall key | key in t.allocations :: !Owns(t.allocations[key], identity % LeafCount())
  {
    hide AllocationsInv, IsOwner, Owns;
    forall key | key in t.allocations
      ensures IsOwner(t, key, identity) <==> Owns(t.allocations[key], identity % LeafCount())
      ensures IsOwner(t, key, identity) ==> key in t.addresses && AddressOf(t, identity) == Some(t.addresses[key])
    {
      OwnerByLeaf(t, key, identity);
      if IsOwner(t, key, identity) {
        OwnersAddress(t, key, identity);
      }
    }
    OwnersAreAllocated(t, identity);
  }

  lemma {:induction false} OwnersAreAllocated(t: AllocationTable, identity: u64)
    ensures forall key | IsOwner(t, key, identity) :: key in t.allocations
  {
  }

  lemma {:induction false} OwnersAddress(t: AllocationTable, key: RelayKey, identity: u64)
    requires AllocationsInv(t) && IsOwner(t, key, identity)
    ensures key in t.addresses && AddressOf(t, identity) == Some(t.addresses[key])
  {
    hide IsOwner, AllocationsInv, AddressOf;
    OwnerIsUnique(t, key, key, identity);
    var other :| IsOwner(t, other, identity) && other in t.addresses && AddressOf(t, identity).value == t.addresses[other];
    OwnerIsUnique(t, key, other, identity);
  }

  ghost function AddressOf(t: AllocationTable, identity: u64): (r: Option<Address>)
    requires AllocationsInv(t)
    ensures r.Some? ==> exists key :: IsOwner(t, key, identity) && key in t.addresses && r.value == t.addresses[key]
    ensures r.None? ==> forall key :: !IsOwner(t, key, identity)
  {
    if exists key :: IsOwner(t, key, identity) then
      var key :| IsOwner(t, key, identity);
      Some(t.addresses[key])
    else None
  }
}
