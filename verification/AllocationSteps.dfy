/** The allocator keeps its invariant in every step, whichever of the largest
    relays is served, and what holds when it stops. */
module AllocationSteps {
  import opened Powers
  import opened NodeNames
  import opened Allocation

  // ---- every step ---------------------------------------------------------

  lemma {:induction false} HalfCell(level: nat)
    requires level < HIERARCHY_DEPTH
    ensures CellSize(level) == 2 * CellSize(level + 1)
  {
  }

  /** None of the panics of the loop can happen: cells are only halved above the
      leaves, and there is a free cell whenever one is granted. */
  lemma {:induction false} StepIsSafe(s: State, q: seq<nat>, k: nat)
    requires Inv(s, q) && k < |s.entries| && s.entries[k].rem > 0
    ensures Safe(s, k)
  {
    if s.entries[k].rem >= CellSize(s.level) {
      RemAtMostSum(s.entries, k);
    }
  }

  /** After halving there are still fewer than twice as many free cells as relays. */
  lemma {:induction false} FewFree(free: nat, size: nat, n: nat, sumRem: nat, sumQ: nat, leaves: nat)
    requires n > 0 && size > 0 && leaves < sumQ + n
    requires free * size + sumQ == leaves + sumRem
    requires sumRem <= n * (size - 1)
    ensures free < n
  {
    assert n * (size - 1) == n * size - n;
    if free >= n {
      MulMonotone(n, free, size);
    }
  }

  lemma {:induction false} HalvePreservesInv(s: State, q: seq<nat>, k: nat)
    requires Inv(s, q) && Safe(s, k) && IsLargest(s.entries, k)
    requires s.entries[k].rem < CellSize(s.level)
    ensures Inv(Step(s, k), q)
  {
    hide Split, Count, CountAll, SumRem, Sum, Leaves;
    var t, size := Step(s, k), CellSize(s.level);
    HalfCell(s.level);
    SplitLevel(s.free, s.level);
    forall i | 0 <= i < |q|
      ensures EntryInv(t.entries[i], q[i], t.level)
    {
      assert AtMost(s.entries[i], s.entries[k]);
    }
    forall x | 0 <= x < LeafCount()
      ensures Count(t.free, x) + CountAll(t.entries, x) == 1
    {
      SplitCount(s.free, x);
    }
    forall i | 0 <= i < |s.entries|
      ensures s.entries[i].rem <= size - 1
    {
      assert AtMost(s.entries[i], s.entries[k]);
    }
    SumRemBound(s.entries, size - 1);
    FewFree(|s.free|, size, |q|, SumRem(s.entries), Sum(q), LeafCount());
    assert |t.free| * CellSize(t.level) == |s.free| * size by {
      MulDouble(|s.free|, CellSize(t.level));
    }
  }

  lemma {:induction false} MulDouble(a: nat, b: nat)
    ensures 2 * a * b == a * (2 * b)
  {
  }

  lemma {:induction false} GrantPreservesEntry(e: Entry, quota: nat, level: nat, cell: Cell)
    requires level <= HIERARCHY_DEPTH && EntryInv(e, quota, level)
    requires cell.len == level && CellSize(level) <= e.rem
    ensures EntryInv(Granted(e, cell, CellSize(level)), quota, level)
  {
    var g := Granted(e, cell, CellSize(level));
    LeavesAppend(e.cells, cell);
    forall c | c in e.cells
      ensures c.len < level
    {
      assert c.SubtreeSize() == CellSize(c.len);
    }
    assert g.cells[|e.cells|] == cell;
  }

  lemma {:induction false} GrantPreservesInv(s: State, q: seq<nat>, k: nat)
    requires Inv(s, q) && Safe(s, k)
    requires s.entries[k].rem >= CellSize(s.level)
    ensures Inv(Step(s, k), q)
  {
    hide Count, CountAll, SumRem, Sum, EntryInv, CellSize;
    var t, size := Step(s, k), CellSize(s.level);
    var cell := s.free[|s.free| - 1];
    assert s.free == t.free + [cell];
    GrantPreservesEntry(s.entries[k], q[k], s.level, cell);
    forall x | 0 <= x < LeafCount()
      ensures Count(t.free, x) + CountAll(t.entries, x) == 1
    {
      GrantMovesCell(s, k, x);
    }
    SumRemUpdate(s.entries, k, t.entries[k]);
    MulOneMore(|t.free|, size);
  }

  lemma {:induction false} GrantMovesCell(s: State, k: nat, x: nat)
    requires Safe(s, k) && s.entries[k].rem >= CellSize(s.level)
    ensures var t := Step(s, k);
            Count(t.free, x) + CountAll(t.entries, x) == Count(s.free, x) + CountAll(s.entries, x)
  {
    var t := Step(s, k);
    var cell := s.free[|s.free| - 1];
    assert s.free == t.free + [cell];
    CountAppend(t.free, cell, x);
    CountAppend(s.entries[k].cells, cell, x);
    CountAllUpdate(s.entries, k, t.entries[k], x);
  }

  lemma {:induction false} MulOneMore(a: nat, b: nat)
    ensures (a + 1) * b == a * b + b
  {
  }

  /** Every step keeps the invariant. */
  lemma {:induction false} StepPreservesInv(s: State, q: seq<nat>, k: nat)
    requires Inv(s, q) && k < |s.entries| && IsLargest(s.entries, k) && s.entries[k].rem > 0
    ensures Safe(s, k) && Inv(Step(s, k), q)
  {
    StepIsSafe(s, q, k);
    if s.entries[k].rem < CellSize(s.level) {
      HalvePreservesInv(s, q, k);
    } else {
      GrantPreservesInv(s, q, k);
    }
  }

  // ---- the measure that makes the loop end ---------------------------------

  lemma {:induction false} StepDecreases(s: State, q: seq<nat>, k: nat)
    requires Inv(s, q) && Safe(s, k)
    ensures var t := Step(s, k);
            t.level > s.level || (t.level == s.level && SumRem(t.entries) < SumRem(s.entries))
    ensures Step(s, k).level <= HIERARCHY_DEPTH
  {
    if s.entries[k].rem >= CellSize(s.level) {
      SumRemUpdate(s.entries, k, Step(s, k).entries[k]);
    }
  }

  // ---- when nothing is wanted any more --------------------------------------

  /** The number of leaves below `m` that no relay has. */
  function Unassigned(entries: seq<Entry>, m: nat): nat {
    if m == 0 then 0 else Unassigned(entries, m - 1) + if CountAll(entries, m - 1) == 0 then 1 else 0
  }

  /** The promise of the allocator: every relay has exactly its quota of leaves, in
      cells of different sizes; no leaf is given away twice; and fewer leaves than
      there are relays remain unassigned. */
  ghost predicate Allotted(requests: seq<Request>, entries: seq<Entry>)
    requires SumWeight(requests) > 0
  {
    && |entries| == |requests|
    && (forall i | 0 <= i < |entries| ::
          && entries[i].key == requests[i].key
          && entries[i].rem == 0
          && Leaves(entries[i].cells) == Quota(requests[i].weight, SumWeight(requests))
          && Deepening(entries[i].cells))
    && (forall x | 0 <= x < LeafCount() :: CountAll(entries, x) <= 1)
    && Unassigned(entries, LeafCount()) < |requests|
  }

  function CountBelow(cells: seq<Cell>, m: nat): nat {
    if m == 0 then 0 else CountBelow(cells, m - 1) + Count(cells, m - 1)
  }

  /** How many of the leaves below `m` lie under one cell. */
  function Overlap(c: Cell, m: nat): nat {
    var from, size := c.path * c.SubtreeSize(), c.SubtreeSize();
    if m <= from then 0 else if m < from + size then m - from else size
  }

  lemma {:induction false} CountBelowOverlap(cells: seq<Cell>, m: nat)
    requires cells != []
    ensures CountBelow(cells, m) == Overlap(cells[0], m) + CountBelow(cells[1..], m)
    decreases m
  {
    hide Pow2;
    var c := cells[0];
    MulOneMore(c.path, c.SubtreeSize());
    if m > 0 {
      CountBelowOverlap(cells, m - 1);
    }
  }

  lemma {:induction false} CountBelowNone(m: nat)
    ensures CountBelow([], m) == 0
  {
    if m > 0 {
      CountBelowNone(m - 1);
    }
  }

  /** Counting leaf by leaf gives the same as counting cell by cell. */
  lemma {:induction false} CountBelowIsLeaves(cells: seq<Cell>)
    ensures CountBelow(cells, LeafCount()) == Leaves(cells)
  {
    if cells == [] {
      CountBelowNone(LeafCount());
    } else {
      var c := cells[0];
      CountBelowIsLeaves(cells[1..]);
      CountBelowOverlap(cells, LeafCount());
      CoversInTree(c);
      MulOneMore(c.path, c.SubtreeSize());
    }
  }

  lemma {:induction false} UnassignedIsFree(entries: seq<Entry>, free: seq<Cell>, m: nat)
    requires forall x | 0 <= x < m :: Count(free, x) + CountAll(entries, x) == 1
    ensures Unassigned(entries, m) == CountBelow(free, m)
  {
    if m > 0 {
      UnassignedIsFree(entries, free, m - 1);
      assert Count(free, m - 1) + CountAll(entries, m - 1) == 1;
    }
  }

  lemma {:induction false} LeavesOfLevel(cells: seq<Cell>, level: nat)
    requires level <= HIERARCHY_DEPTH && forall c | c in cells :: c.len == level
    ensures Leaves(cells) == |cells| * CellSize(level)
  {
    if cells != [] {
      LeavesOfLevel(cells[1..], level);
      MulOneMore(|cells| - 1, CellSize(level));
    }
  }

  lemma {:induction false} HaltedIsAllotted(requests: seq<Request>, s: State)
    requires SumWeight(requests) > 0 && Inv(s, Quotas(requests))
    requires forall i | 0 <= i < |s.entries| :: s.entries[i].key == requests[i].key && s.entries[i].rem == 0
    ensures Allotted(requests, s.entries)
  {
    SumRemBound(s.entries, 0);
    UnassignedIsFree(s.entries, s.free, LeafCount());
    CountBelowIsLeaves(s.free);
    LeavesOfLevel(s.free, s.level);
    forall i | 0 <= i < |s.entries|
      ensures Leaves(s.entries[i].cells) == Quota(requests[i].weight, SumWeight(requests))
      ensures Deepening(s.entries[i].cells)
    {
      assert EntryInv(s.entries[i], Quotas(requests)[i], s.level);
    }
  }

  // ---- who has a leaf -------------------------------------------------------

  lemma {:induction false} CountPositive(cells: seq<Cell>, x: nat)
    ensures Count(cells, x) > 0 <==> exists c | c in cells :: Covers(c, x)
  {
    if cells != [] {
      CountPositive(cells[1..], x);
    }
  }

  lemma {:induction false} CountAllAtLeast(entries: seq<Entry>, i: nat, x: nat)
    requires i < |entries|
    ensures CountAll(entries, x) >= Count(entries[i].cells, x)
  {
    if i > 0 {
      CountAllAtLeast(entries[1..], i - 1, x);
    }
  }

  lemma {:induction false} CountAllTwice(entries: seq<Entry>, i: nat, j: nat, x: nat)
    requires i < j < |entries|
    ensures CountAll(entries, x) >= Count(entries[i].cells, x) + Count(entries[j].cells, x)
  {
    if i == 0 {
      CountAllAtLeast(entries[1..], j - 1, x);
    } else {
      CountAllTwice(entries[1..], i - 1, j - 1, x);
    }
  }

  /** No leaf lies under cells of two different relays. */
  lemma {:induction false} OneOwner(requests: seq<Request>, entries: seq<Entry>, i: nat, j: nat, x: nat)
    requires SumWeight(requests) > 0 && Allotted(requests, entries)
    requires i < |entries| && j < |entries| && x < LeafCount()
    requires (exists c | c in entries[i].cells :: Covers(c, x)) && (exists c | c in entries[j].cells :: Covers(c, x))
    ensures i == j
  {
    CountPositive(entries[i].cells, x);
    CountPositive(entries[j].cells, x);
    if i < j {
      CountAllTwice(entries, i, j, x);
    } else if j < i {
      CountAllTwice(entries, j, i, x);
    }
  }
}
