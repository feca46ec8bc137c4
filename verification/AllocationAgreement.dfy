/**
 With distinct relay keys the allocator is deterministic up to the order of its
 input: what it gives to each key depends only on the keys and weights.
 */
module AllocationAgreement {
  import opened NodeNames
  import opened Allocation
  import opened AllocationSteps
  import opened Placement

  // ---- the run without an order of the relays -------------------------------

  datatype Unordered = Unordered(entries: set<Entry>, free: seq<Cell>, level: nat)

  ghost function EntrySet(entries: seq<Entry>): set<Entry> {
    set e | e in entries
  }

  ghost function Forget(s: State): Unordered {
    Unordered(EntrySet(s.entries), s.free, s.level)
  }

  ghost predicate DistinctKeys(entries: seq<Entry>) {
    forall i, j | 0 <= i < j < |entries| :: entries[i].key != entries[j].key
  }

  ghost predicate DistinctRequests(requests: seq<Request>) {
    forall i, j | 0 <= i < j < |requests| :: requests[i].key != requests[j].key
  }

  /** `e` is served next. */
  ghost predicate Serves(u: Unordered, e: Entry) {
    && e in u.entries
    && (forall f | f in u.entries :: AtMost(f, e))
    && e.rem > 0
    && u.level <= HIERARCHY_DEPTH
    && if e.rem < CellSize(u.level) then forall c | c in u.free :: c.len < HIERARCHY_DEPTH
       else u.free != []
  }

  ghost function Serve(u: Unordered, e: Entry): Unordered
    requires Serves(u, e)
  {
    if e.rem < CellSize(u.level) then Unordered(u.entries, Split(u.free), u.level + 1)
    else
      var last := |u.free| - 1;
      Unordered(u.entries - {e} + {Granted(e, u.free[last], CellSize(u.level))}, u.free[..last], u.level)
  }

  ghost function Next(u: Unordered): Unordered {
    if exists e :: Serves(u, e) then
      var e :| Serves(u, e);
      Serve(u, e)
    else u
  }

  ghost function Run(u: Unordered, n: nat): Unordered {
    if n == 0 then u else Next(Run(u, n - 1))
  }

  ghost predicate Halted(u: Unordered) {
    forall e | e in u.entries :: e.rem == 0
  }

  /** The entries that the allocator ends up with. */
  ghost predicate Outcome(requests: seq<Request>, entries: seq<Entry>)
    requires SumWeight(requests) > 0
  {
    && |entries| == |requests|
    && (forall i | 0 <= i < |entries| :: entries[i].key == requests[i].key)
    && exists n :: HaltsWith(requests, n, EntrySet(entries))
  }

  ghost predicate HaltsWith(requests: seq<Request>, n: nat, entries: set<Entry>)
    requires SumWeight(requests) > 0
  {
    var u := Run(Forget(Init(requests)), n);
    Halted(u) && u.entries == entries
  }

  // ---- one step ---------------------------------------------------------------

  lemma {:induction false} EntryIndex(entries: seq<Entry>, e: Entry) returns (i: nat)
    requires e in EntrySet(entries)
    ensures i < |entries| && entries[i] == e
  {
    i :| 0 <= i < |entries| && entries[i] == e;
  }

  lemma {:induction false} ServedIsUnique(s: State, k: nat, e: Entry)
    requires k < |s.entries| && DistinctKeys(s.entries) && IsLargest(s.entries, k)
    requires Serves(Forget(s), e)
    ensures e == s.entries[k]
  {
    var i := EntryIndex(s.entries, e);
    assert AtMost(e, s.entries[k]);
    assert s.entries[k] in EntrySet(s.entries);
    assert AtMost(s.entries[k], e);
    assert e.key == s.entries[k].key;
  }

  lemma {:induction false} ReplaceInSet(entries: seq<Entry>, k: nat, g: Entry)
    requires k < |entries| && DistinctKeys(entries)
    ensures EntrySet(entries[k := g]) == EntrySet(entries) - {entries[k]} + {g}
  {
    var updated := entries[k := g];
    forall e
      ensures e in EntrySet(updated) <==> e in EntrySet(entries) - {entries[k]} + {g}
    {
      if e in EntrySet(updated) {
        var i := EntryIndex(updated, e);
        if i != k {
          assert entries[i] == e && entries[i].key != entries[k].key;
        }
      }
      if e in EntrySet(entries) && e != entries[k] {
        var i := EntryIndex(entries, e);
        assert updated[i] == e;
      }
      assert updated[k] == g;
    }
  }

  /** Serving a largest relay is the step of the unordered run. */
  lemma {:induction false} StepIsNext(s: State, k: nat)
    requires Safe(s, k) && DistinctKeys(s.entries) && IsLargest(s.entries, k) && s.entries[k].rem > 0
    ensures Forget(Step(s, k)) == Next(Forget(s))
  {
    var u, e := Forget(s), s.entries[k];
    assert e in EntrySet(s.entries);
    forall f | f in u.entries
      ensures AtMost(f, e)
    {
      var i := EntryIndex(s.entries, f);
    }
    assert Serves(u, e);
    var served :| Serves(u, served) && Next(u) == Serve(u, served);
    ServedIsUnique(s, k, served);
    if e.rem >= CellSize(s.level) {
      ReplaceInSet(s.entries, k, Granted(e, s.free[|s.free| - 1], CellSize(s.level)));
    }
  }

  lemma {:induction false} HaltedStays(u: Unordered)
    requires Halted(u)
    ensures Next(u) == u
  {
    assert forall e | Serves(u, e) :: e in u.entries && e.rem > 0;
  }

  lemma {:induction false} HaltedForever(u: Unordered, m: nat, n: nat)
    requires m <= n && Halted(Run(u, m))
    ensures Run(u, n) == Run(u, m)
  {
    if m < n {
      HaltedForever(u, m, n - 1);
      HaltedStays(Run(u, m));
    }
  }

  // ---- every outcome is a fair allotment ----------------------------------------

  lemma {:induction false} LargestExists(entries: seq<Entry>) returns (k: nat)
    requires entries != []
    ensures k < |entries| && IsLargest(entries, k)
  {
    if |entries| == 1 {
      k := 0;
    } else {
      var j := LargestExists(entries[1..]);
      k := if AtMost(entries[0], entries[j + 1]) then j + 1 else 0;
      forall i | 0 <= i < |entries|
        ensures AtMost(entries[i], entries[k])
      {
        if i > 0 {
          assert AtMost(entries[1..][i - 1], entries[1..][j]);
        }
      }
    }
  }

  ghost predicate SameKeys(requests: seq<Request>, entries: seq<Entry>) {
    |entries| == |requests| && forall i | 0 <= i < |entries| :: entries[i].key == requests[i].key
  }

  lemma {:induction false} NextInOrder(requests: seq<Request>, q: seq<nat>, t: State) returns (s: State)
    requires DistinctRequests(requests) && Inv(t, q) && Placed(t, q) && SameKeys(requests, t.entries)
    ensures Inv(s, q) && Placed(s, q) && SameKeys(requests, s.entries)
    ensures Forget(s) == Next(Forget(t))
  {
    hide Placed;
    var k := LargestExists(t.entries);
    if t.entries[k].rem == 0 {
      s := t;
      forall e | e in Forget(t).entries
        ensures e.rem == 0
      {
        var i := EntryIndex(t.entries, e);
        assert AtMost(t.entries[i], t.entries[k]);
      }
      HaltedStays(Forget(t));
    } else {
      StepPreservesInv(t, q, k);
      StepPreservesPlaced(t, q, k);
      StepIsNext(t, k);
      s := Step(t, k);
    }
  }

  /** Every point of the unordered run is one of a run in the order of the requests. */
  lemma {:induction false} RunInOrder(requests: seq<Request>, n: nat) returns (s: State)
    requires SumWeight(requests) > 0 && DistinctRequests(requests)
    ensures Inv(s, Quotas(requests)) && Placed(s, Quotas(requests)) && SameKeys(requests, s.entries)
    ensures Forget(s) == Run(Forget(Init(requests)), n)
  {
    hide Inv, Placed, Forget, Next, Quotas, SumWeight;
    if n == 0 {
      s := Init(requests);
      InitInv(requests);
      InitPlaced(requests);
    } else {
      hide Init;
      var t := RunInOrder(requests, n - 1);
      s := NextInOrder(requests, Quotas(requests), t);
    }
  }

  lemma {:induction false} SameSetSameOrder(requests: seq<Request>, a: seq<Entry>, b: seq<Entry>)
    requires DistinctRequests(requests) && SameKeys(requests, a) && SameKeys(requests, b)
    requires EntrySet(a) == EntrySet(b)
    ensures a == b
  {
    forall i | 0 <= i < |a|
      ensures a[i] == b[i]
    {
      assert a[i] in EntrySet(a);
      var j := EntryIndex(b, a[i]);
      assert requests[i].key == requests[j].key;
    }
  }

  lemma {:induction false} OutcomeIsAllotted(requests: seq<Request>, entries: seq<Entry>)
    requires SumWeight(requests) > 0 && DistinctRequests(requests) && Outcome(requests, entries)
    ensures Allotted(requests, entries) && Arranged(requests, entries)
  {
    hide Inv, Placed, Allotted, Arranged, Quotas;
    var n :| HaltsWith(requests, n, EntrySet(entries));
    var s := RunInOrder(requests, n);
    SameSetSameOrder(requests, entries, s.entries);
    forall i | 0 <= i < |s.entries|
      ensures s.entries[i].rem == 0
    {
      assert s.entries[i] in EntrySet(s.entries);
    }
    HaltedIsAllotted(requests, s);
    HaltedIsArranged(requests, s);
  }

  // ---- authorities agree ----------------------------------------------------------

  ghost function KeyWeights(requests: seq<Request>): set<(RelayKey, nat)> {
    set r | r in requests :: (r.key, r.weight)
  }

  lemma {:induction false} SumWeightWithout(requests: seq<Request>, j: nat)
    requires j < |requests|
    ensures SumWeight(requests) == requests[j].weight + SumWeight(requests[..j] + requests[j + 1..])
  {
    var rest := requests[..j] + requests[j + 1..];
    if j == 0 {
      assert rest == requests[1..];
    } else {
      SumWeightWithout(requests[1..], j - 1);
      assert rest[1..] == requests[1..][..j - 1] + requests[1..][j..];
    }
  }

  lemma {:induction false} KeyWeightsWithout(requests: seq<Request>, j: nat)
    requires j < |requests| && DistinctRequests(requests)
    ensures KeyWeights(requests[..j] + requests[j + 1..])
            == KeyWeights(requests) - {(requests[j].key, requests[j].weight)}
    ensures DistinctRequests(requests[..j] + requests[j + 1..])
  {
    var rest := requests[..j] + requests[j + 1..];
    var pair := (requests[j].key, requests[j].weight);
    forall p
      ensures p in KeyWeights(rest) <==> p in KeyWeights(requests) - {pair}
    {
      if p in KeyWeights(rest) {
        var i :| 0 <= i < |rest| && (rest[i].key, rest[i].weight) == p;
        var at := if i < j then i else i + 1;
        assert rest[i] == requests[at] && requests[at].key != requests[j].key;
      }
      if p in KeyWeights(requests) && p != pair {
        var i :| 0 <= i < |requests| && (requests[i].key, requests[i].weight) == p;
        assert requests[i] == rest[if i < j then i else i - 1];
      }
    }
  }

  lemma {:induction false} NoKeyWeights(requests: seq<Request>)
    ensures KeyWeights(requests) == {} ==> requests == []
  {
    if requests != [] {
      assert (requests[0].key, requests[0].weight) in KeyWeights(requests);
    }
  }

  lemma {:induction false} SameSumWeight(a: seq<Request>, b: seq<Request>)
    requires DistinctRequests(a) && DistinctRequests(b) && KeyWeights(a) == KeyWeights(b)
    ensures SumWeight(a) == SumWeight(b)
  {
    if a == [] {
      NoKeyWeights(b);
    } else {
      var pair := (a[0].key, a[0].weight);
      assert pair in KeyWeights(b);
      var j :| 0 <= j < |b| && (b[j].key, b[j].weight) == pair;
      KeyWeightsWithout(a, 0);
      KeyWeightsWithout(b, j);
      SumWeightWithout(b, j);
      assert a[..0] + a[1..] == a[1..];
      SameSumWeight(a[1..], b[..j] + b[j + 1..]);
    }
  }

  lemma {:induction false} InitEntries(a: seq<Request>, b: seq<Request>)
    requires SumWeight(a) == SumWeight(b) > 0 && KeyWeights(a) == KeyWeights(b)
    ensures EntrySet(Init(a).entries) <= EntrySet(Init(b).entries)
  {
    forall e | e in EntrySet(Init(a).entries)
      ensures e in EntrySet(Init(b).entries)
    {
      var i := EntryIndex(Init(a).entries, e);
      assert (a[i].key, a[i].weight) in KeyWeights(a);
      var j :| 0 <= j < |b| && (b[j].key, b[j].weight) == (a[i].key, a[i].weight);
      assert Init(b).entries[j] == e;
    }
  }

  lemma {:induction false} SameInit(a: seq<Request>, b: seq<Request>)
    requires SumWeight(a) > 0
    requires DistinctRequests(a) && DistinctRequests(b) && KeyWeights(a) == KeyWeights(b)
    ensures SumWeight(b) > 0 && Forget(Init(a)) == Forget(Init(b))
  {
    SameSumWeight(a, b);
    InitEntries(a, b);
    InitEntries(b, a);
  }

  lemma {:induction false} SameOutcome(a: seq<Request>, b: seq<Request>, ea: seq<Entry>, eb: seq<Entry>)
    requires SumWeight(a) > 0 && SumWeight(b) > 0
    requires Forget(Init(a)) == Forget(Init(b))
    requires Outcome(a, ea) && Outcome(b, eb)
    ensures EntrySet(ea) == EntrySet(eb)
  {
    var u := Forget(Init(a));
    var m :| HaltsWith(a, m, EntrySet(ea));
    var n :| HaltsWith(b, n, EntrySet(eb));
    if m <= n {
      HaltedForever(u, m, n);
    } else {
      HaltedForever(u, n, m);
    }
  }

  /** Authorities agree: request lists with distinct keys that contain the same keys
      and weights, in any order and with any identifiers, lead to the same cells
      for every key. */
  lemma {:induction false} AuthoritiesAgree(a: seq<Request>, b: seq<Request>, ea: seq<Entry>, eb: seq<Entry>, i: nat, j: nat)
    requires SumWeight(a) > 0 && SumWeight(b) > 0
    requires DistinctRequests(a) && DistinctRequests(b) && KeyWeights(a) == KeyWeights(b)
    requires Outcome(a, ea) && Outcome(b, eb)
    requires i < |a| && j < |b| && a[i].key == b[j].key
    ensures ea[i].cells == eb[j].cells
  {
    hide Init, HaltsWith, KeyWeights;
    SameInit(a, b);
    SameOutcome(a, b, ea, eb);
    assert ea[i] in EntrySet(ea);
    var k := EntryIndex(eb, ea[i]);
    assert b[k].key == b[j].key;
    assert k == j;
  }
}
