/**
 The dyadic allocator (allocation.rs) as a state machine: every relay still
 wants some number of leaves, a list of free subtrees of equal size is left,
 and each step either halves all free subtrees or gives one of them to a relay
 that wants the most.
 */
module Allocation {
  import opened Powers
  import opened NodeNames

  /** Relay keys are 16 bytes, compared like big-endian numbers. */
  type RelayKey = nat

  datatype Request = Request(id: nat, key: RelayKey, weight: nat)

  /** A relay with the leaves it still wants and the cells it was given. */
  datatype Entry = Entry(key: RelayKey, rem: nat, cells: seq<Cell>)

  /** The free cells all have depth `level`. */
  datatype State = State(entries: seq<Entry>, free: seq<Cell>, level: nat)

  // ---- counting -----------------------------------------------------------

  function SumWeight(requests: seq<Request>): nat {
    if requests == [] then 0 else requests[0].weight + SumWeight(requests[1..])
  }

  /** The share of all leaves that a weight is worth, rounded down. */
  function Quota(weight: nat, total: nat): nat
    requires total > 0
  {
    LeafCount() * weight / total
  }

  function Quotas(requests: seq<Request>): (q: seq<nat>)
    requires SumWeight(requests) > 0
    ensures |q| == |requests|
    ensures forall i | 0 <= i < |q| :: q[i] == Quota(requests[i].weight, SumWeight(requests))
  {
    seq(|requests|, i requires 0 <= i < |requests| => Quota(requests[i].weight, SumWeight(requests)))
  }

  function Sum(q: seq<nat>): nat {
    if q == [] then 0 else q[0] + Sum(q[1..])
  }

  /** The number of leaves below the cells. */
  function Leaves(cells: seq<Cell>): nat {
    if cells == [] then 0 else cells[0].SubtreeSize() + Leaves(cells[1..])
  }

  /** How many of the cells contain leaf number `x`. */
  function Count(cells: seq<Cell>, x: nat): nat {
    if cells == [] then 0 else (if Covers(cells[0], x) then 1 else 0) + Count(cells[1..], x)
  }

  function SumRem(entries: seq<Entry>): nat {
    if entries == [] then 0 else entries[0].rem + SumRem(entries[1..])
  }

  function CountAll(entries: seq<Entry>, x: nat): nat {
    if entries == [] then 0 else Count(entries[0].cells, x) + CountAll(entries[1..], x)
  }

  lemma {:induction false} SumRemUpdate(entries: seq<Entry>, k: nat, e: Entry)
    requires k < |entries|
    ensures SumRem(entries[k := e]) + entries[k].rem == SumRem(entries) + e.rem
  {
    if k == 0 {
      assert entries[0 := e][1..] == entries[1..];
    } else {
      SumRemUpdate(entries[1..], k - 1, e);
      assert entries[k := e][1..] == entries[1..][k - 1 := e];
    }
  }

  lemma {:induction false} CountAllUpdate(entries: seq<Entry>, k: nat, e: Entry, x: nat)
    requires k < |entries|
    ensures CountAll(entries[k := e], x) + Count(entries[k].cells, x) == CountAll(entries, x) + Count(e.cells, x)
  {
    if k == 0 {
      assert entries[0 := e][1..] == entries[1..];
    } else {
      CountAllUpdate(entries[1..], k - 1, e, x);
      assert entries[k := e][1..] == entries[1..][k - 1 := e];
    }
  }

  lemma {:induction false} CountAppend(cells: seq<Cell>, c: Cell, x: nat)
    ensures Count(cells + [c], x) == Count(cells, x) + if Covers(c, x) then 1 else 0
  {
    if cells == [] {
      assert [] + [c] == [c];
    } else {
      CountAppend(cells[1..], c, x);
      assert (cells + [c])[1..] == cells[1..] + [c];
    }
  }

  lemma {:induction false} LeavesAppend(cells: seq<Cell>, c: Cell)
    ensures Leaves(cells + [c]) == Leaves(cells) + c.SubtreeSize()
  {
    if cells == [] {
      assert [] + [c] == [c];
    } else {
      LeavesAppend(cells[1..], c);
      assert (cells + [c])[1..] == cells[1..] + [c];
    }
  }

  lemma {:induction false} RemAtMostSum(entries: seq<Entry>, k: nat)
    requires k < |entries|
    ensures entries[k].rem <= SumRem(entries)
  {
    if k > 0 {
      RemAtMostSum(entries[1..], k - 1);
    }
  }

  lemma {:induction false} SumRemBound(entries: seq<Entry>, bound: nat)
    requires forall i | 0 <= i < |entries| :: entries[i].rem <= bound
    ensures SumRem(entries) <= |entries| * bound
  {
    if entries != [] {
      SumRemBound(entries[1..], bound);
      assert |entries| * bound == (|entries| - 1) * bound + bound;
    }
  }

  // ---- the steps ----------------------------------------------------------

  /** The children of all cells, in order. */
  function Split(cells: seq<Cell>): (s: seq<Cell>)
    requires forall c | c in cells :: c.len < HIERARCHY_DEPTH
    ensures |s| == 2 * |cells|
  {
    if cells == [] then [] else [cells[0].Left(), cells[0].Right()] + Split(cells[1..])
  }

  lemma {:induction false} SplitLevel(cells: seq<Cell>, level: nat)
    requires level < HIERARCHY_DEPTH && forall c | c in cells :: c.len == level
    ensures forall c | c in Split(cells) :: c.len == level + 1
  {
    if cells != [] {
      SplitLevel(cells[1..], level);
    }
  }

  lemma {:induction false} SplitCount(cells: seq<Cell>, x: nat)
    requires forall c | c in cells :: c.len < HIERARCHY_DEPTH
    ensures Count(Split(cells), x) == Count(cells, x)
  {
    if cells != [] {
      var c := cells[0];
      SplitCount(cells[1..], x);
      ChildrenSplit(c, x);
      assert Split(cells) == [c.Left()] + ([c.Right()] + Split(cells[1..]));
      assert Split(cells)[1..] == [c.Right()] + Split(cells[1..]);
      assert Split(cells)[1..][1..] == Split(cells[1..]);
    }
  }

  function CellSize(level: nat): (s: nat)
    requires level <= HIERARCHY_DEPTH
    ensures s >= 1
  {
    Pow2(HIERARCHY_DEPTH - level)
  }

  /** The order of the heap: by weight, ties broken by key. */
  predicate AtMost(a: Entry, b: Entry) {
    a.rem < b.rem || (a.rem == b.rem && a.key <= b.key)
  }

  predicate IsLargest(entries: seq<Entry>, k: nat)
    requires k < |entries|
  {
    forall j | 0 <= j < |entries| :: AtMost(entries[j], entries[k])
  }

  /** What the invariant below guarantees: the panics of the program cannot happen. */
  predicate Safe(s: State, k: nat) {
    && k < |s.entries|
    && s.level <= HIERARCHY_DEPTH
    && if s.entries[k].rem < CellSize(s.level) then
         s.level < HIERARCHY_DEPTH && forall c | c in s.free :: c.len < HIERARCHY_DEPTH
       else s.free != []
  }

  function Granted(e: Entry, cell: Cell, size: nat): Entry
    requires size <= e.rem
  {
    Entry(e.key, e.rem - size, e.cells + [cell])
  }

  function Step(s: State, k: nat): State
    requires Safe(s, k)
  {
    if s.entries[k].rem < CellSize(s.level) then
      State(s.entries, Split(s.free), s.level + 1)
    else
      var last := |s.free| - 1;
      State(s.entries[k := Granted(s.entries[k], s.free[last], CellSize(s.level))], s.free[..last], s.level)
  }

  function Init(requests: seq<Request>): State
    requires SumWeight(requests) > 0
  {
    var q := Quotas(requests);
    State(seq(|requests|, i requires 0 <= i < |requests| => Entry(requests[i].key, q[i], [])), [ROOT], 0)
  }

  // ---- the invariant ------------------------------------------------------

  ghost predicate Deepening(cells: seq<Cell>) {
    forall a, b | 0 <= a < b < |cells| :: cells[a].len < cells[b].len
  }

  /** What holds of each relay: it has or still wants its quota, and what it still
      wants is less than two free cells and less than any cell it has. */
  ghost predicate EntryInv(e: Entry, quota: nat, level: nat)
    requires level <= HIERARCHY_DEPTH
  {
    && quota == e.rem + Leaves(e.cells)
    && e.rem < 2 * CellSize(level)
    && Deepening(e.cells)
    && forall c | c in e.cells :: c.len <= level && e.rem < c.SubtreeSize()
  }

  ghost predicate Inv(s: State, quotas: seq<nat>) {
    && 0 < |s.entries| == |quotas|
    && s.level <= HIERARCHY_DEPTH
    && (forall c | c in s.free :: c.len == s.level)
    && (forall i | 0 <= i < |quotas| :: EntryInv(s.entries[i], quotas[i], s.level))
    && (forall x | 0 <= x < LeafCount() :: Count(s.free, x) + CountAll(s.entries, x) == 1)
    && Sum(quotas) <= LeafCount() < Sum(quotas) + |quotas|
    && |s.free| * CellSize(s.level) + Sum(quotas) == LeafCount() + SumRem(s.entries)
    && |s.free| < 2 * |quotas|
  }

  // ---- initially ----------------------------------------------------------

  lemma {:induction false} SumOfQuotas(requests: seq<Request>, total: nat, q: seq<nat>)
    requires total > 0 && |q| == |requests|
    requires forall i | 0 <= i < |q| :: q[i] == Quota(requests[i].weight, total)
    ensures total * Sum(q) <= LeafCount() * SumWeight(requests)
    ensures requests != [] ==> LeafCount() * SumWeight(requests) < total * (Sum(q) + |q|)
  {
    if requests != [] {
      SumOfQuotas(requests[1..], total, q[1..]);
      QuotaBounds(LeafCount() * requests[0].weight, total);
      QuotaStep(LeafCount(), requests[0].weight, SumWeight(requests[1..]), total, q[0], Sum(q[1..]), |q| - 1);
    }
  }

  lemma {:induction false} QuotaStep(leaves: nat, w: nat, rest: nat, total: nat, q: nat, qs: nat, n: nat)
    requires total * q <= leaves * w < total * q + total
    requires total * qs <= leaves * rest <= total * (qs + n)
    ensures total * (q + qs) <= leaves * (w + rest) < total * (q + qs + n + 1)
  {
    assert leaves * (w + rest) == leaves * w + leaves * rest;
    assert total * (q + qs) == total * q + total * qs;
    assert total * (q + qs + n + 1) == total * q + total * (qs + n) + total;
  }

  lemma {:induction false} QuotaBounds(x: nat, total: nat)
    requires total > 0
    ensures total * (x / total) <= x < total * (x / total) + total
  {
  }

  lemma {:induction false} CountAllNone(entries: seq<Entry>, x: nat)
    requires forall i | 0 <= i < |entries| :: entries[i].cells == []
    ensures CountAll(entries, x) == 0
  {
    if entries != [] {
      CountAllNone(entries[1..], x);
    }
  }

  lemma {:induction false} SumRemIsSum(entries: seq<Entry>, q: seq<nat>)
    requires |q| == |entries| && forall i | 0 <= i < |q| :: entries[i].rem == q[i]
    ensures SumRem(entries) == Sum(q)
  {
    if q != [] {
      SumRemIsSum(entries[1..], q[1..]);
    }
  }

  lemma {:induction false} WeightAtMostSum(requests: seq<Request>, i: nat)
    requires i < |requests|
    ensures requests[i].weight <= SumWeight(requests)
  {
    if i > 0 {
      WeightAtMostSum(requests[1..], i - 1);
    }
  }

  lemma {:induction false} QuotaAtMostAll(weight: nat, total: nat)
    requires 0 < total && weight <= total
    ensures Quota(weight, total) <= LeafCount()
  {
    MulMonotone(weight, total, LeafCount());
    if Quota(weight, total) > LeafCount() {
      QuotaBounds(LeafCount() * weight, total);
      MulMonotone(LeafCount() + 1, Quota(weight, total), total);
    }
  }

  lemma {:induction false} InitInv(requests: seq<Request>)
    requires SumWeight(requests) > 0
    ensures Inv(Init(requests), Quotas(requests))
  {
    var total, q, s := SumWeight(requests), Quotas(requests), Init(requests);
    forall i | 0 <= i < |q|
      ensures EntryInv(s.entries[i], q[i], 0)
    {
      WeightAtMostSum(requests, i);
      QuotaAtMostAll(requests[i].weight, total);
    }
    forall x | 0 <= x < LeafCount()
      ensures Count(s.free, x) + CountAll(s.entries, x) == 1
    {
      RootCovers(x);
      CountAllNone(s.entries, x);
      assert s.free[1..] == [];
    }
    SumRemIsSum(s.entries, q);
    SumOfQuotas(requests, total, q);
    CancelLess(total, LeafCount(), Sum(q) + |q|);
    CancelAtMost(total, Sum(q), LeafCount());
  }

  lemma {:induction false} CancelAtMost(total: nat, a: nat, b: nat)
    requires total > 0 && total * a <= b * total
    ensures a <= b
  {
    if a > b {
      MulMonotone(b + 1, a, total);
    }
  }

  lemma {:induction false} CancelLess(total: nat, a: nat, b: nat)
    requires a * total < total * b
    ensures a < b
  {
    if a >= b {
      MulMonotone(b, a, total);
    }
  }
}
