/**
 The allocation loop itself (allocation.rs): a heap of requests, a list of free
 cells and a map of allocations, updated until the largest request is empty.
 */
module Allocator {
  import opened Wrappers
  import opened NodeNames
  import opened Allocation
  import opened AllocationSteps
  import opened Placement
  import opened AllocationAgreement

  predicate RequestAtMost(a: Request, b: Request) {
    a.weight < b.weight || (a.weight == b.weight && a.key <= b.key)
  }

  /** A heap that hands out some largest element. */
  class BinaryHeap {
    var items: seq<Request>

    constructor (items: seq<Request>)
      ensures this.items == items
    {
      this.items := items;
    }

    method Pop() returns (r: Option<Request>)
      modifies this
      ensures r.None? <==> old(items) == []
      ensures r.Some? ==>
        && r.value in old(items)
        && (forall x | x in old(items) :: RequestAtMost(x, r.value))
        && multiset(items) == multiset(old(items)) - multiset{r.value}
    {
      if items == [] {
        return None;
      }
      var best := 0;
      for i := 0 to |items|
        invariant best < |items|
        invariant forall j | 0 <= j < i :: RequestAtMost(items[j], items[best])
        invariant items == old(items)
      {
        if RequestAtMost(items[best], items[i]) {
          best := i;
        }
      }
      r := Some(items[best]);
      assert items == items[..best] + [items[best]] + items[best + 1..];
      items := items[..best] + items[best + 1..];
    }

    method Push(x: Request)
      modifies this
      ensures items == old(items) + [x]
    {
      items := items + [x];
    }
  }

  ghost predicate DistinctIds(requests: seq<Request>) {
    forall i, j | 0 <= i < j < |requests| :: requests[i].id != requests[j].id
  }

  /** The heap contents that belong to a state of the relays. */
  function HeapOf(requests: seq<Request>, entries: seq<Entry>): (h: seq<Request>)
    requires |entries| == |requests|
    ensures |h| == |requests|
    ensures forall i | 0 <= i < |h| :: h[i] == Request(requests[i].id, requests[i].key, entries[i].rem)
  {
    seq(|requests|, i requires 0 <= i < |requests| => Request(requests[i].id, requests[i].key, entries[i].rem))
  }

  /** The allocations by request identifier, in the order of the requests. */
  function EntriesOf(requests: seq<Request>, allocations: map<nat, seq<Cell>>): (e: seq<Entry>)
    requires forall r | r in requests :: r.id in allocations
    ensures |e| == |requests|
  {
    seq(|requests|, i requires 0 <= i < |requests| => Entry(requests[i].key, 0, allocations[requests[i].id]))
  }

  // ---- the loop invariant -----------------------------------------------------

  /** The variables of the loop. */
  datatype Vars = Vars(items: seq<Request>, allocations: map<nat, seq<Cell>>, freeCells: seq<Cell>, cellSize: nat)

  /** `s` is a state that the allocator reaches in `n` steps. */
  ghost predicate Reached(requests: seq<Request>, s: State, n: nat)
    requires SumWeight(requests) > 0
  {
    && Inv(s, Quotas(requests)) && Placed(s, Quotas(requests)) && SameKeys(requests, s.entries)
    && (DistinctRequests(requests) ==> Forget(s) == Run(Forget(Init(requests)), n))
  }

  /** The variables represent the state `s`. */
  ghost predicate Represents(requests: seq<Request>, s: State, v: Vars) {
    && SameKeys(requests, s.entries)
    && s.level <= HIERARCHY_DEPTH
    && multiset(v.items) == multiset(HeapOf(requests, s.entries))
    && v.freeCells == s.free
    && v.cellSize == CellSize(s.level)
    && v.allocations.Keys == (set r | r in requests :: r.id)
    && forall i | 0 <= i < |requests| :: v.allocations[requests[i].id] == s.entries[i].cells
  }

  lemma {:induction false} Starts(requests: seq<Request>, v: Vars)
    requires SumWeight(requests) > 0
    requires v == Vars(HeapOf(requests, Init(requests).entries), map r | r in requests :: r.id := [],
                       [ROOT], ROOT.SubtreeSize())
    ensures Reached(requests, Init(requests), 0) && Represents(requests, Init(requests), v)
  {
    InitInv(requests);
    InitPlaced(requests);
  }

  lemma {:induction false} HeapNotEmpty(requests: seq<Request>, s: State, v: Vars)
    requires requests != [] && Represents(requests, s, v)
    ensures v.items != []
  {
    assert |multiset(v.items)| == |multiset(HeapOf(requests, s.entries))|;
  }

  /** The popped request belongs to a largest relay. */
  lemma {:induction false} PoppedIsLargest(requests: seq<Request>, s: State, v: Vars, largest: Request) returns (k: nat)
    requires Represents(requests, s, v)
    requires largest in v.items && forall x | x in v.items :: RequestAtMost(x, largest)
    ensures k < |requests| && HeapOf(requests, s.entries)[k] == largest && IsLargest(s.entries, k)
    ensures largest == Request(requests[k].id, requests[k].key, s.entries[k].rem)
  {
    var h := HeapOf(requests, s.entries);
    assert largest in multiset(h);
    k :| 0 <= k < |h| && h[k] == largest;
    forall j | 0 <= j < |h|
      ensures AtMost(s.entries[j], s.entries[k])
    {
      assert h[j] in multiset(h);
      assert h[j] in v.items && RequestAtMost(h[j], largest);
    }
  }

  /** Pushing the changed request back makes the heap that of the changed relay. */
  lemma {:induction false} HeapAfter(requests: seq<Request>, entries: seq<Entry>, k: nat, e: Entry,
                                     items: seq<Request>, rest: seq<Request>)
    requires |entries| == |requests| && k < |requests|
    requires multiset(items) == multiset(HeapOf(requests, entries))
    requires multiset(rest) == multiset(items) - multiset{HeapOf(requests, entries)[k]}
    ensures multiset(rest + [Request(requests[k].id, requests[k].key, e.rem)])
            == multiset(HeapOf(requests, entries[k := e]))
  {
    var h := HeapOf(requests, entries);
    assert HeapOf(requests, entries[k := e]) == h[k := Request(requests[k].id, requests[k].key, e.rem)];
  }

  /** The abstract state takes one step. */
  lemma {:induction false} Advances(requests: seq<Request>, s: State, n: nat, k: nat)
    requires SumWeight(requests) > 0 && Reached(requests, s, n)
    requires k < |s.entries| && IsLargest(s.entries, k) && s.entries[k].rem > 0
    ensures Safe(s, k) && Reached(requests, Step(s, k), n + 1)
    ensures var t := Step(s, k);
            t.level > s.level || (t.level == s.level && SumRem(t.entries) < SumRem(s.entries))
  {
    hide Inv, Placed, Init, Quotas;
    StepPreservesInv(s, Quotas(requests), k);
    StepPreservesPlaced(s, Quotas(requests), k);
    StepDecreases(s, Quotas(requests), k);
    if DistinctRequests(requests) {
      KeysStayDistinct(requests, s.entries);
      StepIsNext(s, k);
    }
  }

  lemma {:induction false} KeysStayDistinct(requests: seq<Request>, entries: seq<Entry>)
    requires DistinctRequests(requests) && SameKeys(requests, entries)
    ensures DistinctKeys(entries)
  {
  }

  lemma {:induction false} Halves(requests: seq<Request>, s: State, v: Vars, k: nat, rest: seq<Request>)
    requires Represents(requests, s, v) && k < |requests| && Safe(s, k)
    requires multiset(rest) == multiset(v.items) - multiset{HeapOf(requests, s.entries)[k]}
    requires s.entries[k].rem < v.cellSize
    ensures forall c | c in v.freeCells :: c.len < HIERARCHY_DEPTH
    ensures Represents(requests, Step(s, k),
                       Vars(rest + [HeapOf(requests, s.entries)[k]], v.allocations, Split(v.freeCells), v.cellSize / 2))
  {
    hide HeapOf, Split, CellSize;
    HalfCell(s.level);
    HeapAfter(requests, s.entries, k, s.entries[k], v.items, rest);
    assert s.entries[k := s.entries[k]] == s.entries;
  }

  lemma {:induction false} Grants(requests: seq<Request>, s: State, v: Vars, k: nat, rest: seq<Request>)
    requires DistinctIds(requests) && Represents(requests, s, v) && k < |requests| && Safe(s, k)
    requires multiset(rest) == multiset(v.items) - multiset{HeapOf(requests, s.entries)[k]}
    requires s.entries[k].rem >= v.cellSize
    ensures v.freeCells != [] && requests[k].id in v.allocations
    ensures var last, id := |v.freeCells| - 1, requests[k].id;
      Represents(requests, Step(s, k),
                 Vars(rest + [Request(id, requests[k].key, s.entries[k].rem - v.cellSize)],
                      v.allocations[id := v.allocations[id] + [v.freeCells[last]]],
                      v.freeCells[..last], v.cellSize))
  {
    hide HeapOf, CellSize;
    var e := Step(s, k).entries[k];
    HeapAfter(requests, s.entries, k, e, v.items, rest);
    AllocationsAfter(requests, s.entries, v.allocations, k, e);
  }

  lemma {:induction false} AllocationsAfter(requests: seq<Request>, entries: seq<Entry>,
                                            allocations: map<nat, seq<Cell>>, k: nat, e: Entry)
    requires DistinctIds(requests) && |entries| == |requests| && k < |requests|
    requires allocations.Keys == set r | r in requests :: r.id
    requires forall i | 0 <= i < |requests| :: allocations[requests[i].id] == entries[i].cells
    ensures requests[k].id in allocations
    ensures var updated := allocations[requests[k].id := e.cells];
      && updated.Keys == allocations.Keys
      && forall i | 0 <= i < |requests| :: updated[requests[i].id] == entries[k := e][i].cells
  {
    assert requests[k] in requests;
    forall i | 0 <= i < |requests|
      ensures requests[i].id in allocations
      ensures i != k ==> requests[i].id != requests[k].id
    {
      assert requests[i] in requests;
    }
  }

  lemma {:induction false} Finished(requests: seq<Request>, s: State, n: nat, v: Vars, k: nat)
    requires SumWeight(requests) > 0 && Reached(requests, s, n) && Represents(requests, s, v)
    requires k < |s.entries| && IsLargest(s.entries, k) && s.entries[k].rem == 0
    ensures EntriesOf(requests, v.allocations) == s.entries
    ensures Allotted(requests, s.entries) && Arranged(requests, s.entries)
    ensures DistinctRequests(requests) ==> Outcome(requests, s.entries)
  {
    hide Inv, Placed, Allotted, Arranged, Quotas;
    forall i | 0 <= i < |s.entries|
      ensures s.entries[i].rem == 0
    {
      assert AtMost(s.entries[i], s.entries[k]);
    }
    HaltedIsAllotted(requests, s);
    HaltedIsArranged(requests, s);
    if DistinctRequests(requests) {
      assert HaltsWith(requests, n, EntrySet(s.entries));
    }
  }

  // ---- the method ---------------------------------------------------------------

  const WORD: nat := 0x1_0000_0000_0000_0000

  /** Adds up the weights in a 64-bit word, and panics if they do not fit. */
  method TotalWeight(requests: seq<Request>) returns (r: Option<nat>)
    ensures r == if SumWeight(requests) < WORD then Some(SumWeight(requests)) else None
  {
    var total := 0;
    var i := 0;
    while i < |requests|
      invariant i <= |requests|
      invariant total < WORD
      invariant total + SumWeight(requests[i..]) == SumWeight(requests)
    {
      total := total + requests[i].weight;
      if total >= WORD {
        return None;
      }
      i := i + 1;
    }
    r := Some(total);
  }

  /** Replaces every weight by its share of the leaves. */
  method ScaleWeights(requests: seq<Request>, total: nat) returns (scaled: seq<Request>)
    requires total == SumWeight(requests) > 0
    ensures scaled == HeapOf(requests, Init(requests).entries)
  {
    scaled := requests;
    var i := 0;
    while i < |requests|
      invariant i <= |requests| == |scaled|
      invariant forall j | 0 <= j < i :: scaled[j] == HeapOf(requests, Init(requests).entries)[j]
      invariant forall j | i <= j < |requests| :: scaled[j] == requests[j]
    {
      scaled := scaled[i := scaled[i].(weight := LeafCount() * scaled[i].weight / total)];
      i := i + 1;
    }
  }

  lemma {:induction false} SplitEmpty()
    ensures Split([]) == []
  {
  }

  lemma {:induction false} SplitFirst(cells: seq<Cell>, i: nat)
    requires i < |cells| && forall c | c in cells :: c.len < HIERARCHY_DEPTH
    ensures Split(cells[i..]) == [cells[i].Left(), cells[i].Right()] + Split(cells[i + 1..])
  {
    assert cells[i..][1..] == cells[i + 1..];
  }

  /** Splits every free cell into its children, in place of the whole list. */
  method SplitAll(cells: seq<Cell>) returns (split: seq<Cell>)
    requires forall c | c in cells :: c.len < HIERARCHY_DEPTH
    ensures split == Split(cells)
  {
    hide NodeName.Left, NodeName.Right, Split;
    assert cells[0..] == cells;
    SplitEmpty();
    split := [];
    var i := 0;
    while i < |cells|
      invariant i <= |cells|
      invariant split + Split(cells[i..]) == Split(cells)
    {
      SplitFirst(cells, i);
      split := split + [cells[i].Left()] + [cells[i].Right()];
      i := i + 1;
    }
  }

  /** The cells of every request by identifier, or nothing when the program panics,
      because the total weight overflows or because it divides by a total of zero. */
  method Allocate(requests: seq<Request>) returns (r: Option<map<nat, seq<Cell>>>)
    requires DistinctIds(requests)
    ensures r.None? <==> SumWeight(requests) >= WORD || (requests != [] && SumWeight(requests) == 0)
    ensures requests == [] ==> r == Some(map[])
    ensures r.Some? ==> r.value.Keys == (set q | q in requests :: q.id)
    ensures r.Some? && requests != [] ==>
              Allotted(requests, EntriesOf(requests, r.value)) && Arranged(requests, EntriesOf(requests, r.value))
    ensures r.Some? && requests != [] && DistinctRequests(requests) ==>
              Outcome(requests, EntriesOf(requests, r.value))
  {
    hide Allotted, Arranged, Outcome, EntriesOf, Init;
    var total := TotalWeight(requests);
    if total.None? {
      return None;
    } else if requests == [] {
      return Some(map[]);
    } else if total.value == 0 {
      return None;
    }
    var scaled := ScaleWeights(requests, total.value);
    var allocations := Distribute(requests, scaled);
    r := Some(allocations);
  }

  /** Serves the largest request, which was taken out of the heap: splits all free cells
      if they are too big for it, and gives it the last free cell otherwise. */
  method Serve(ghost requests: seq<Request>, ghost s: State, ghost k: nat, ghost v: Vars, ghost rest: seq<Request>,
               largest: Request, allocations: map<nat, seq<Cell>>, freeCells: seq<Cell>, cellSize: nat)
    returns (served: Request, newAllocations: map<nat, seq<Cell>>, newFreeCells: seq<Cell>, newCellSize: nat)
    requires DistinctIds(requests) && Represents(requests, s, v) && k < |requests| && Safe(s, k)
    requires v.allocations == allocations && v.freeCells == freeCells && v.cellSize == cellSize
    requires largest == HeapOf(requests, s.entries)[k]
    requires multiset(rest) == multiset(v.items) - multiset{largest}
    ensures Represents(requests, Step(s, k), Vars(rest + [served], newAllocations, newFreeCells, newCellSize))
  {
    hide Represents, Step, HeapOf;
    if largest.weight < cellSize {
      Halves(requests, s, v, k, rest);
      served, newAllocations := largest, allocations;
      newCellSize := cellSize / 2;
      newFreeCells := SplitAll(freeCells);
    } else {
      Grants(requests, s, v, k, rest);
      served := largest.(weight := largest.weight - cellSize);
      newAllocations := allocations[largest.id := allocations[largest.id] + [freeCells[|freeCells| - 1]]];
      newFreeCells, newCellSize := freeCells[..|freeCells| - 1], cellSize;
    }
  }

  /** The loop over the heap. */
  method Distribute(requests: seq<Request>, scaled: seq<Request>) returns (allocations: map<nat, seq<Cell>>)
    requires DistinctIds(requests) && SumWeight(requests) > 0
    requires scaled == HeapOf(requests, Init(requests).entries)
    ensures allocations.Keys == (set q | q in requests :: q.id)
    ensures Allotted(requests, EntriesOf(requests, allocations)) && Arranged(requests, EntriesOf(requests, allocations))
    ensures DistinctRequests(requests) ==> Outcome(requests, EntriesOf(requests, allocations))
  {
    hide Reached, Step, Outcome, Allotted, Arranged, EntriesOf, HeapOf, Quotas, IsLargest;
    allocations := map q | q in requests :: q.id := [];
    var heap := new BinaryHeap(scaled);
    var freeCells: seq<Cell> := [ROOT];
    var cellSize := ROOT.SubtreeSize();
    ghost var s, n := Init(requests), 0;
    Starts(requests, Vars(heap.items, allocations, freeCells, cellSize));
    while true
      invariant Reached(requests, s, n)
      invariant Represents(requests, s, Vars(heap.items, allocations, freeCells, cellSize))
      decreases HIERARCHY_DEPTH - s.level, SumRem(s.entries)
    {
      hide Init;
      ghost var v := Vars(heap.items, allocations, freeCells, cellSize);
      HeapNotEmpty(requests, s, v);
      var popped := heap.Pop();
      var largest := popped.value;
      ghost var k := PoppedIsLargest(requests, s, v, largest);
      if largest.weight == 0 {
        Finished(requests, s, n, v, k);
        break;
      }
      Advances(requests, s, n, k);
      largest, allocations, freeCells, cellSize :=
        Serve(requests, s, k, v, heap.items, largest, allocations, freeCells, cellSize);
      heap.Push(largest);
      s, n := Step(s, k), n + 1;
    }
  }
}
