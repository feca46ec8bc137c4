/**
 The cells of a relay are the binary expansion of its quota, so no other set of
 subtrees with as many leaves has fewer cells.
 */
module BinaryExpansion {
  import opened Powers
  import opened NodeNames
  import opened Allocation
  import opened AllocationSteps

  function PopCount(n: nat): nat {
    if n == 0 then 0 else n % 2 + PopCount(n / 2)
  }

  function Bit(n: nat, b: nat): nat {
    if b == 0 then n % 2 else Bit(n / 2, b - 1)
  }

  lemma {:induction false} PopCountStep(bit: nat, n: nat)
    requires bit < 2
    ensures PopCount(bit + 2 * n) == bit + PopCount(n)
  {
    LowBit(bit, n);
  }

  // ---- adding one power of two ----------------------------------------------

  lemma {:induction false} PopCountOnTop(k: nat, x: nat)
    requires x < Pow2(k)
    ensures PopCount(Pow2(k) + x) == 1 + PopCount(x)
  {
    hide PopCount;
    if k == 0 {
      PopCountStep(1, 0);
    } else {
      TopSplits(k, x);
      PopCountOnTop(k - 1, x / 2);
      PopCountStep(x % 2, x / 2);
      PopCountStep(x % 2, Pow2(k - 1) + x / 2);
    }
  }

  lemma {:induction false} BitOnTop(k: nat, x: nat, b: nat)
    requires x < Pow2(k)
    ensures Bit(Pow2(k) + x, b) == if b == k then 1 else Bit(x, b)
    decreases k
  {
    if k == 0 {
      assert x == 0 && Pow2(0) == 1;
      if b > 0 {
        assert Bit(1, b) == Bit(0, b - 1) && Bit(0, b) == Bit(0, b - 1);
      }
    } else {
      TopSplits(k, x);
      LowBit(x % 2, Pow2(k - 1) + x / 2);
      if b > 0 {
        BitOnTop(k - 1, x / 2, b - 1);
      }
    }
  }

  lemma {:induction false} BitOfZero(b: nat)
    ensures Bit(0, b) == 0
  {
    if b > 0 {
      BitOfZero(b - 1);
    }
  }

  // ---- cells of different depths ---------------------------------------------

  lemma {:induction false} DeepeningTail(cells: seq<Cell>)
    requires Deepening(cells) && cells != []
    ensures Deepening(cells[1..])
    ensures forall c | c in cells[1..] :: cells[0].len < c.len
  {
    forall c | c in cells[1..]
      ensures cells[0].len < c.len
    {
      var i :| 0 <= i < |cells[1..]| && cells[1..][i] == c;
      assert cells[0].len < cells[i + 1].len;
    }
  }

  lemma {:induction false} DeepeningLeaves(cells: seq<Cell>, size: nat)
    requires Deepening(cells)
    requires forall c | c in cells :: 2 * c.SubtreeSize() <= size
    ensures cells == [] || Leaves(cells) < size
  {
    if cells != [] {
      DeepeningTail(cells);
      var half := cells[0].SubtreeSize();
      forall c | c in cells[1..]
        ensures 2 * c.SubtreeSize() <= half
      {
        Pow2StrictlyMonotone(HIERARCHY_DEPTH - c.len, HIERARCHY_DEPTH - cells[0].len);
      }
      DeepeningLeaves(cells[1..], half);
    }
  }

  lemma {:induction false} TailFits(cells: seq<Cell>)
    requires Deepening(cells) && cells != []
    ensures Leaves(cells[1..]) < cells[0].SubtreeSize()
  {
    DeepeningTail(cells);
    forall c | c in cells[1..]
      ensures 2 * c.SubtreeSize() <= cells[0].SubtreeSize()
    {
      Pow2StrictlyMonotone(HIERARCHY_DEPTH - c.len, HIERARCHY_DEPTH - cells[0].len);
    }
    DeepeningLeaves(cells[1..], cells[0].SubtreeSize());
  }

  /** A relay has a cell with `2^b` leaves exactly if bit `b` of its number of
      leaves is set. */
  lemma {:induction false} CellsAreBits(cells: seq<Cell>, b: nat)
    requires Deepening(cells)
    ensures Bit(Leaves(cells), b) == 1 <==> exists c | c in cells :: HIERARCHY_DEPTH - c.len == b
  {
    if cells == [] {
      BitOfZero(b);
    } else {
      DeepeningTail(cells);
      CellsAreBits(cells[1..], b);
      TailFits(cells);
      BitOnTop(HIERARCHY_DEPTH - cells[0].len, Leaves(cells[1..]), b);
      assert cells == [cells[0]] + cells[1..];
    }
  }

  /** So it has as many cells as the number has set bits. */
  lemma {:induction false} CellsAreFew(cells: seq<Cell>)
    requires Deepening(cells)
    ensures |cells| == PopCount(Leaves(cells))
  {
    if cells != [] {
      DeepeningTail(cells);
      CellsAreFew(cells[1..]);
      TailFits(cells);
      PopCountOnTop(HIERARCHY_DEPTH - cells[0].len, Leaves(cells[1..]));
    }
  }

  // ---- any other cells ---------------------------------------------------------

  lemma {:induction false} PopCountSuccessor(n: nat)
    ensures PopCount(n + 1) <= PopCount(n) + 1
  {
    hide PopCount;
    var bit, half := n % 2, n / 2;
    PopCountStep(bit, half);
    assert n == bit + 2 * half;
    if bit == 1 {
      PopCountSuccessor(half);
      PopCountStep(0, half + 1);
    } else {
      PopCountStep(1, half);
    }
  }

  lemma {:induction false} PopCountSum(a: nat, b: nat)
    ensures PopCount(a + b) <= PopCount(a) + PopCount(b)
    decreases a + b
  {
    hide PopCount;
    if a != 0 && b != 0 {
      var x, y, m, n := a % 2, b % 2, a / 2, b / 2;
      PopCountSum(m, n);
      PopCountStep(x, m);
      PopCountStep(y, n);
      assert a == x + 2 * m && b == y + 2 * n;
      if x + y == 2 {
        PopCountSuccessor(m + n);
        PopCountStep(0, m + n + 1);
      } else {
        PopCountStep(x + y, m + n);
      }
    }
  }

  lemma {:induction false} PopCountPow2(k: nat)
    ensures PopCount(Pow2(k)) == 1
  {
    PopCountOnTop(k, 0);
  }

  lemma {:induction false} CellsAtLeastBits(cells: seq<Cell>)
    ensures PopCount(Leaves(cells)) <= |cells|
  {
    if cells != [] {
      CellsAtLeastBits(cells[1..]);
      PopCountSum(cells[0].SubtreeSize(), Leaves(cells[1..]));
      PopCountPow2(HIERARCHY_DEPTH - cells[0].len);
    }
  }

  /** Minimality: no list of subtrees with the same number of leaves is shorter
      than one whose depths increase. */
  lemma {:induction false} DeepeningIsMinimal(cells: seq<Cell>, others: seq<Cell>)
    requires Deepening(cells) && Leaves(others) == Leaves(cells)
    ensures |cells| <= |others|
  {
    CellsAreFew(cells);
    CellsAtLeastBits(others);
  }

  /** What the allocator gives to a relay is the binary expansion of its quota, and
      as few cells as possible. */
  lemma {:induction false} AllottedIsMinimal(requests: seq<Request>, entries: seq<Entry>, i: nat, b: nat, others: seq<Cell>)
    requires SumWeight(requests) > 0 && Allotted(requests, entries) && i < |entries|
    ensures var quota := Quota(requests[i].weight, SumWeight(requests));
      && (Bit(quota, b) == 1 <==> exists c | c in entries[i].cells :: HIERARCHY_DEPTH - c.len == b)
      && (Leaves(others) == quota ==> |entries[i].cells| <= |others|)
  {
    CellsAreBits(entries[i].cells, b);
    if Leaves(others) == Quota(requests[i].weight, SumWeight(requests)) {
      DeepeningIsMinimal(entries[i].cells, others);
    }
  }
}
