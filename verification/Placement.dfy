/**
 Where in the tree the cells of a relay lie: the free cells are always the
 leftmost ones, and cells are given away from right to left.
 */
module Placement {
  import opened Powers
  import opened NodeNames
  import opened Allocation
  import opened AllocationSteps

  function First(c: Cell): nat {
    c.path * c.SubtreeSize()
  }

  function End(c: Cell): nat {
    (c.path + 1) * c.SubtreeSize()
  }

  /** What a relay with this quota still wants when cells of a depth are given away. */
  function Wanted(quota: nat, level: nat): nat
    requires level <= HIERARCHY_DEPTH
  {
    quota % (2 * CellSize(level))
  }

  /** A cell is given away before another one if it is larger, or as large but for a
      relay that wants more, or as much under a larger key. */
  predicate Before(c: Cell, quotaC: nat, keyC: RelayKey, d: Cell, quotaD: nat, keyD: RelayKey) {
    || c.len < d.len
    || (c.len == d.len
        && var x, y := Wanted(quotaC, c.len), Wanted(quotaD, d.len);
           x > y || (x == y && keyC > keyD))
  }

  /** Cells given away before lie to the right. */
  ghost predicate RightToLeft(entries: seq<Entry>, quotas: seq<nat>)
    requires |entries| == |quotas|
  {
    forall i, j, c, d | 0 <= i < |entries| && 0 <= j < |entries| && c in entries[i].cells && d in entries[j].cells ::
      Before(c, quotas[i], entries[i].key, d, quotas[j], entries[j].key) ==> End(d) <= First(c)
  }

  ghost predicate Leftmost(free: seq<Cell>, level: nat) {
    forall i | 0 <= i < |free| :: free[i].len == level && free[i].path == i
  }

  /** A relay that still wants as much is not served before one that wanted this much. */
  predicate Later(e: Entry, wanted: nat, key: RelayKey) {
    e.rem < wanted || (e.rem == wanted && e.key <= key)
  }

  ghost predicate Placed(s: State, quotas: seq<nat>) {
    && |s.entries| == |quotas| && s.level <= HIERARCHY_DEPTH
    && Leftmost(s.free, s.level)
    && RightToLeft(s.entries, quotas)
    && (forall i, c | 0 <= i < |s.entries| && c in s.entries[i].cells :: |s.free| * CellSize(s.level) <= First(c))
    && (forall i, j, c | 0 <= i < |s.entries| && 0 <= j < |s.entries| && c in s.entries[i].cells ::
          c.len == s.level && s.entries[j].rem >= CellSize(s.level) ==>
          Later(s.entries[j], Wanted(quotas[i], s.level), s.entries[i].key))
  }

  lemma {:induction false} InitPlaced(requests: seq<Request>)
    requires SumWeight(requests) > 0
    ensures Placed(Init(requests), Quotas(requests))
  {
  }

  // ---- halving ------------------------------------------------------------------

  lemma {:induction false} SplitAt(cells: seq<Cell>, i: nat)
    requires i < |cells| && forall c | c in cells :: c.len < HIERARCHY_DEPTH
    ensures Split(cells)[2 * i] == cells[i].Left() && Split(cells)[2 * i + 1] == cells[i].Right()
  {
    if i > 0 {
      SplitAt(cells[1..], i - 1);
    }
  }

  lemma {:induction false} SplitLeftmost(free: seq<Cell>, level: nat)
    requires level < HIERARCHY_DEPTH && Leftmost(free, level)
    requires forall c | c in free :: c.len < HIERARCHY_DEPTH
    ensures Leftmost(Split(free), level + 1)
  {
    forall i | 0 <= i < |Split(free)|
      ensures Split(free)[i].len == level + 1 && Split(free)[i].path == i
    {
      SplitAt(free, i / 2);
    }
  }

  lemma {:induction false} HalvePreservesPlaced(s: State, q: seq<nat>, k: nat)
    requires Inv(s, q) && Placed(s, q) && Safe(s, k)
    requires s.entries[k].rem < CellSize(s.level)
    ensures Placed(Step(s, k), q)
  {
    hide RightToLeft, Count, CountAll, SumRem, Sum, Split, CellSize;
    SplitLeftmost(s.free, s.level);
    HalfCell(s.level);
    MulDouble(|s.free|, CellSize(s.level + 1));
    forall i, c | 0 <= i < |s.entries| && c in s.entries[i].cells
      ensures c.len <= s.level
    {
      assert EntryInv(s.entries[i], q[i], s.level);
    }
  }

  // ---- granting -----------------------------------------------------------------

  lemma {:induction false} LargerCell(c: Cell, level: nat) returns (p: nat)
    requires c.len < level <= HIERARCHY_DEPTH
    ensures c.SubtreeSize() == p * (2 * CellSize(level))
  {
    p := Pow2(level - c.len - 1);
    Pow2Sum(level - c.len - 1, HIERARCHY_DEPTH - level + 1);
    assert HIERARCHY_DEPTH - c.len == level - c.len - 1 + (HIERARCHY_DEPTH - level + 1);
  }

  lemma {:induction false} MulSum(a: nat, b: nat, d: nat)
    ensures (a + b) * d == a * d + b * d
  {
  }

  /** Larger cells are even multiples of the current ones. */
  lemma {:induction false} LeavesEven(cells: seq<Cell>, level: nat) returns (n: nat)
    requires level <= HIERARCHY_DEPTH && forall c | c in cells :: c.len < level
    ensures Leaves(cells) == n * (2 * CellSize(level))
  {
    hide CellSize, Pow2;
    if cells == [] {
      n := 0;
    } else {
      var m := LeavesEven(cells[1..], level);
      var p := LargerCell(cells[0], level);
      n := p + m;
      MulSum(p, m, 2 * CellSize(level));
    }
  }

  lemma {:induction false} RemainderIs(x: nat, n: nat, d: nat, r: nat)
    requires r < d && x == n * d + r
    ensures x % d == r
  {
    assert (n + 1) * d == n * d + d;
    DivInterval(x, d, n);
    assert x == x / d * d + x % d;
  }

  /** What a relay still wants when it gets a cell is fixed by its quota. */
  lemma {:induction false} WantedIsRem(e: Entry, quota: nat, level: nat)
    requires level <= HIERARCHY_DEPTH && EntryInv(e, quota, level) && e.rem >= CellSize(level)
    ensures e.rem == Wanted(quota, level)
  {
    forall c | c in e.cells
      ensures c.len < level
    {
      assert c.SubtreeSize() == CellSize(c.len);
    }
    var n := LeavesEven(e.cells, level);
    RemainderIs(quota, n, 2 * CellSize(level), e.rem);
  }

  ghost predicate Grants(s: State, q: seq<nat>, k: nat) {
    && Inv(s, q) && Placed(s, q) && Safe(s, k) && IsLargest(s.entries, k)
    && s.entries[k].rem >= CellSize(s.level) && s.entries[k].rem == Wanted(q[k], s.level)
  }

  /** The cell given away now lies to the left of those given away before. */
  lemma {:induction false} GrantedPosition(s: State, q: seq<nat>, k: nat, i: nat, c: Cell)
    requires Grants(s, q, k) && i < |s.entries| && c in Step(s, k).entries[i].cells
    ensures var n, size, cell := |s.free| - 1, CellSize(s.level), s.free[|s.free| - 1];
      && n * size <= First(c) && c.len <= s.level
      && ((i == k && c == cell) || (c in s.entries[i].cells && End(cell) <= First(c)))
  {
    hide Count, CountAll, SumRem, Sum, CellSize, Wanted, RightToLeft, First, End;
    var n, cell := |s.free| - 1, s.free[|s.free| - 1];
    assert EntryInv(s.entries[i], q[i], s.level);
    MulOneMore(n, CellSize(s.level));
    CellEnds(cell);
  }

  lemma {:induction false} GrantedLater(s: State, q: seq<nat>, k: nat, i: nat, j: nat, c: Cell)
    requires Grants(s, q, k) && i < |s.entries| && j < |s.entries|
    requires c in Step(s, k).entries[i].cells && c.len == s.level && Step(s, k).entries[j].rem >= CellSize(s.level)
    ensures Later(Step(s, k).entries[j], Wanted(q[i], s.level), s.entries[i].key)
  {
    hide Count, CountAll, SumRem, Sum, CellSize, Wanted, RightToLeft;
    assert EntryInv(s.entries[k], q[k], s.level);
    assert AtMost(s.entries[j], s.entries[k]);
  }

  lemma {:induction false} GrantPreservesPlaced(s: State, q: seq<nat>, k: nat)
    requires Inv(s, q) && Placed(s, q) && Safe(s, k) && IsLargest(s.entries, k)
    requires s.entries[k].rem >= CellSize(s.level)
    ensures Placed(Step(s, k), q)
  {
    var t := Step(s, k);
    assert EntryInv(s.entries[k], q[k], s.level);
    WantedIsRem(s.entries[k], q[k], s.level);
    hide Inv, IsLargest, CellSize, Wanted, Before, First, End, Later;
    forall i, c | 0 <= i < |t.entries| && c in t.entries[i].cells
      ensures |t.free| * CellSize(s.level) <= First(c)
    {
      GrantedPosition(s, q, k, i, c);
    }
    forall i, j, c, d | 0 <= i < |t.entries| && 0 <= j < |t.entries| && c in t.entries[i].cells && d in t.entries[j].cells
      && Before(c, q[i], t.entries[i].key, d, q[j], t.entries[j].key)
      ensures End(d) <= First(c)
    {
      GrantKeepsOrder(s, q, k, i, j, c, d);
    }
    forall i, j, c | 0 <= i < |t.entries| && 0 <= j < |t.entries| && c in t.entries[i].cells
      && c.len == s.level && t.entries[j].rem >= CellSize(s.level)
      ensures Later(t.entries[j], Wanted(q[i], s.level), t.entries[i].key)
    {
      GrantedLater(s, q, k, i, j, c);
    }
  }

  lemma {:induction false} CellEnds(c: Cell)
    ensures First(c) == c.path * CellSize(c.len) && End(c) == (c.path + 1) * CellSize(c.len)
  {
  }

  /** No cell that was given away already comes after the one given away now. */
  lemma {:induction false} GrantedLast(s: State, q: seq<nat>, k: nat, j: nat, d: Cell)
    requires Grants(s, q, k) && j < |s.entries| && d in s.entries[j].cells
    ensures !Before(s.free[|s.free| - 1], q[k], s.entries[k].key, d, q[j], s.entries[j].key)
  {
    hide Count, CountAll, SumRem, Sum, CellSize, Wanted, First, End, RightToLeft;
    assert EntryInv(s.entries[j], q[j], s.level);
    assert d.len == s.level ==> Later(s.entries[k], Wanted(q[j], s.level), s.entries[j].key);
  }

  lemma {:induction false} GrantKeepsOrder(s: State, q: seq<nat>, k: nat, i: nat, j: nat, c: Cell, d: Cell)
    requires Grants(s, q, k) && i < |s.entries| && j < |s.entries|
    requires var t := Step(s, k);
      && c in t.entries[i].cells && d in t.entries[j].cells
      && Before(c, q[i], t.entries[i].key, d, q[j], t.entries[j].key)
    ensures End(d) <= First(c)
  {
    hide Inv, IsLargest, CellSize, Wanted, First, End, Before;
    GrantedPosition(s, q, k, i, c);
    if d in s.entries[j].cells {
      GrantedLast(s, q, k, j, d);
    } else {
      BeforeIsStrict(d, q[j], s.entries[j].key);
    }
  }

  lemma {:induction false} BeforeIsStrict(c: Cell, quota: nat, key: RelayKey)
    ensures !Before(c, quota, key, c, quota, key)
  {
  }

  lemma {:induction false} StepPreservesPlaced(s: State, q: seq<nat>, k: nat)
    requires Inv(s, q) && Placed(s, q) && Safe(s, k) && IsLargest(s.entries, k)
    ensures Placed(Step(s, k), q)
  {
    if s.entries[k].rem < CellSize(s.level) {
      HalvePreservesPlaced(s, q, k);
    } else {
      GrantPreservesPlaced(s, q, k);
    }
  }

  // ---- in the end -----------------------------------------------------------------

  /** The leaves that no relay has come first; then the cells follow, small ones before
      large ones, and of the same size those of relays with less left to want first,
      then those with smaller keys. */
  ghost predicate Arranged(requests: seq<Request>, entries: seq<Entry>)
    requires SumWeight(requests) > 0 && |entries| == |requests|
  {
    && RightToLeft(entries, Quotas(requests))
    && forall x | 0 <= x < LeafCount() :: CountAll(entries, x) == 1 <==> x + Sum(Quotas(requests)) >= LeafCount()
  }

  lemma {:induction false} CountLeftmost(free: seq<Cell>, level: nat, x: nat)
    requires level <= HIERARCHY_DEPTH && Leftmost(free, level)
    ensures Count(free, x) == if x < |free| * CellSize(level) then 1 else 0
    decreases |free|
  {
    if free != [] {
      var n := |free| - 1;
      CountLeftmost(free[..n], level, x);
      CountAppend(free[..n], free[n], x);
      assert free == free[..n] + [free[n]];
      CellEnds(free[n]);
      MulOneMore(n, CellSize(level));
    }
  }

  lemma {:induction false} HaltedIsArranged(requests: seq<Request>, s: State)
    requires SumWeight(requests) > 0 && Inv(s, Quotas(requests)) && Placed(s, Quotas(requests))
    requires forall i | 0 <= i < |s.entries| :: s.entries[i].rem == 0
    ensures Arranged(requests, s.entries)
  {
    hide RightToLeft;
    SumRemBound(s.entries, 0);
    forall x | 0 <= x < LeafCount()
      ensures CountAll(s.entries, x) == 1 <==> x + Sum(Quotas(requests)) >= LeafCount()
    {
      CountLeftmost(s.free, s.level, x);
    }
  }

  lemma {:induction false} LeftNeighbour(c: Cell, d: Cell)
    requires c.len == d.len && End(d) <= First(c)
    ensures d.path < c.path
  {
    if d.path >= c.path {
      MulMonotone(c.path + 1, d.path + 1, c.SubtreeSize());
      MulOneMore(c.path, c.SubtreeSize());
    }
  }

  /** Of two relays with the same weight, the one with the larger key has the right
      one of any two cells of the same size. */
  lemma {:induction false} LargerKeyIsRight(requests: seq<Request>, entries: seq<Entry>, i: nat, j: nat, c: Cell, d: Cell)
    requires SumWeight(requests) > 0 && Allotted(requests, entries) && Arranged(requests, entries)
    requires i < |requests| && j < |requests|
    requires requests[i].weight == requests[j].weight && requests[i].key > requests[j].key
    requires c in entries[i].cells && d in entries[j].cells && c.len == d.len
    ensures d.path < c.path
  {
    hide First, End, Wanted;
    assert Before(c, Quotas(requests)[i], entries[i].key, d, Quotas(requests)[j], entries[j].key);
    LeftNeighbour(c, d);
  }

  /** Larger cells lie to the right of smaller ones, whoever has them. */
  lemma {:induction false} LargerIsRight(requests: seq<Request>, entries: seq<Entry>, i: nat, j: nat, c: Cell, d: Cell)
    requires SumWeight(requests) > 0 && |entries| == |requests| && Arranged(requests, entries)
    requires i < |requests| && j < |requests|
    requires c in entries[i].cells && d in entries[j].cells && c.len < d.len
    ensures forall x, y | Covers(c, x) && Covers(d, y) :: y < x
  {
    hide First, End, Wanted;
    assert Before(c, Quotas(requests)[i], entries[i].key, d, Quotas(requests)[j], entries[j].key);
    forall x, y | Covers(c, x) && Covers(d, y)
      ensures y < x
    {
      Apart(c, d, x, y);
    }
  }

  lemma {:induction false} Apart(c: Cell, d: Cell, x: nat, y: nat)
    requires End(d) <= First(c) && Covers(c, x) && Covers(d, y)
    ensures y < x
  {
  }

  /** A leaf is given away exactly if the number of leaves from it to the right end of
      the tree is at most the sum of all quotas. */
  lemma {:induction false} LeafIsGiven(requests: seq<Request>, entries: seq<Entry>, x: nat)
    requires SumWeight(requests) > 0 && Allotted(requests, entries) && Arranged(requests, entries) && x < LeafCount()
    ensures (exists i, c | 0 <= i < |entries| && c in entries[i].cells :: Covers(c, x))
            <==> x + Sum(Quotas(requests)) >= LeafCount()
  {
    hide RightToLeft, Quotas;
    CountAllPositive(entries, x);
  }

  lemma {:induction false} CountAllPositive(entries: seq<Entry>, x: nat)
    ensures CountAll(entries, x) > 0 <==> exists i, c | 0 <= i < |entries| && c in entries[i].cells :: Covers(c, x)
  {
    if entries != [] {
      CountPositive(entries[0].cells, x);
      CountAllPositive(entries[1..], x);
      if c :| c in entries[0].cells && Covers(c, x) {
        assert 0 < |entries| && c in entries[0].cells;
      }
      if i, c :| 0 <= i < |entries[1..]| && c in entries[1..][i].cells && Covers(c, x) {
        assert c in entries[i + 1].cells;
      }
      if i, c :| 0 <= i < |entries| && c in entries[i].cells && Covers(c, x) {
        assert i > 0 ==> c in entries[1..][i - 1].cells;
      }
    }
  }
}
