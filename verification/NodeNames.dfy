/**
 The complete binary tree of identities (nodename.rs). A node is named by its
 depth and by the path that leads to it from the root, most significant bit
 first.
 */
module NodeNames {
  import opened Bytes
  import opened Powers

  type Depth = d: nat | 0 < d < 64 witness 32

  /** The depth of the tree: an arbitrary fixed number below 64. */
  const HIERARCHY_DEPTH: Depth

  datatype NodeName = NodeName(len: nat, path: u64) {

    predicate Valid() {
      len <= HIERARCHY_DEPTH && path < Pow2(len)
    }

    predicate IsLeaf() {
      len == HIERARCHY_DEPTH
    }

    predicate IsEmpty() {
      len == 0
    }

    function Parent(): (p: NodeName)
      requires Valid() && len > 0
      ensures p.Valid()
    {
      HalfPath(path, len - 1);
      NodeName(len - 1, path / 2)
    }

    // The shifted path fits a machine word because the depth is below 64.
    function Left(): (n: NodeName)
      requires Valid() && len < HIERARCHY_DEPTH
      ensures n.Valid()
    {
      ChildPathFits(this);
      NodeName(len + 1, path * 2)
    }

    function Right(): (n: NodeName)
      requires Valid() && len < HIERARCHY_DEPTH
      ensures n.Valid()
    {
      ChildPathFits(this);
      NodeName(len + 1, path * 2 + 1)
    }

    function SubtreeSize(): (s: nat)
      requires len <= HIERARCHY_DEPTH
      ensures s >= 1
    {
      Pow2(HIERARCHY_DEPTH - len)
    }

    predicate Contains(other: NodeName) {
      len <= other.len && ShiftRight(other.path, other.len - len) == path
    }
  }

  const ROOT: Cell := NodeName(0, 0)

  /** A node of the tree, which stands for the subtree below it. */
  type Cell = n: NodeName | n.Valid() witness NodeName(0, 0)

  /** The number of leaves of the whole tree. */
  function LeafCount(): (n: nat)
    ensures n >= 1
  {
    Pow2(HIERARCHY_DEPTH)
  }

  lemma {:induction false} ChildPathFits(n: NodeName)
    requires n.Valid() && n.len < HIERARCHY_DEPTH
    ensures n.path * 2 + 1 < Pow2(n.len + 1)
    ensures n.path * 2 + 1 < 0x1_0000_0000_0000_0000
  {
    Pow2Monotone(n.len + 1, 63);
    Pow2Word();
  }

  function Canonical(length: nat, path: u64): (n: NodeName)
    requires length <= HIERARCHY_DEPTH
    ensures n.Valid() && n.len == length
  {
    NodeName(length, LowBits(path, length))
  }

  /** The leaf of an identity: only the low bits of the number count. */
  function Number(path: u64): (n: NodeName)
    ensures n.Valid() && n.IsLeaf()
  {
    Canonical(HIERARCHY_DEPTH, path)
  }

  lemma {:induction false} NumberIsModulo(path: u64)
    ensures Number(path) == NodeName(HIERARCHY_DEPTH, path % LeafCount())
  {
  }

  /** A cell contains the leaf of an identity exactly if the identity, modulo the
      number of leaves, lies in the interval of the cell. */
  lemma {:induction false} ContainsIdentity(c: Cell, identity: u64)
    ensures c.Contains(Number(identity)) <==> Covers(c, identity % LeafCount())
  {
    NumberIsModulo(identity);
    ContainsIsInterval(c, Number(identity));
  }

  // ---- masking the path ----------------------------------------------------

  /** The bitwise and of the `n` low bits of two numbers. */
  function AndBits(a: nat, b: nat, n: nat): (x: nat)
    ensures x <= a
    decreases n, a
  {
    if n == 0 then 0 else (a % 2) * (b % 2) + 2 * AndBits(a / 2, b / 2, n - 1)
  }

  function Less(k: nat): nat {
    if k > 0 then k - 1 else 0
  }

  /** The `n`-bit number whose bits from `length` up to `i` are cleared. */
  ghost function Mask(length: nat, i: nat, n: nat): nat
    decreases n, i
  {
    if n == 0 then 0
    else
      (if 0 < length || i == 0 then 1 else 0)
      + 2 * Mask(Less(length), Less(i), n - 1)
  }

  lemma {:induction false} MaskStarts(length: nat, n: nat)
    ensures Mask(length, length, n) == Pow2(n) - 1
  {
    if n > 0 {
      MaskStarts(Less(length), n - 1);
    }
  }

  lemma {:induction false} XorNothing(a: nat, n: nat)
    requires a < Pow2(n)
    ensures XorBits(a, 0, n) == a
    decreases n
  {
    if n > 0 {
      XorNothing(a / 2, n - 1);
    }
  }

  lemma {:induction false} MaskFits(length: nat, i: nat, n: nat)
    ensures Mask(length, i, n) < Pow2(n)
    decreases n
  {
    if n > 0 {
      MaskFits(Less(length), Less(i), n - 1);
    }
  }

  /** XORing with one more power of two clears one more bit. */
  lemma {:induction false} MaskSteps(length: nat, i: nat, n: nat)
    requires length <= i < n
    ensures XorBits(Mask(length, i, n), Pow2(i), n) == Mask(length, i + 1, n)
    decreases n
  {
    hide XorBits;
    var rest := Mask(Less(length), Less(i), n - 1);
    if i == 0 {
      MaskFits(0, 0, n - 1);
      XorNothing(rest, n - 1);
      XorBitsStep(1, rest, 1, 0, n - 1);
    } else {
      MaskSteps(Less(length), i - 1, n - 1);
      XorBitsStep(if 0 < length then 1 else 0, rest, 0, Pow2(i - 1), n - 1);
    }
  }

  /** With all bits from `length` on cleared, the mask keeps the low bits. */
  lemma {:induction false} MaskEnds(x: nat, length: nat, n: nat)
    requires x < Pow2(n) && length <= n
    ensures AndBits(x, Mask(length, n, n), n) == LowBits(x, length)
    decreases n
  {
    if n > 0 {
      var rest := Mask(Less(length), n - 1, n - 1);
      MaskEnds(x / 2, Less(length), n - 1);
      if length > 0 {
        LowBit(1, rest);
        ModHalves(x, Pow2(length - 1));
      } else {
        LowBit(0, rest);
      }
    }
  }

  /** Clears the path bits beyond the length of the name, one mask bit at a time. */
  method Canonicalized(length: nat, path: u64) returns (n: NodeName)
    requires length <= HIERARCHY_DEPTH
    ensures n == Canonical(length, path)
  {
    var mask := 0xFFFF_FFFF_FFFF_FFFF;
    Pow2Word();
    MaskStarts(length, 64);
    for i := length to 64
      invariant mask == Mask(length, i, 64)
    {
      MaskSteps(length, i, 64);
      mask := XorBits(mask, Pow2(i), 64);
    }
    MaskEnds(path, length, 64);
    n := NodeName(length, AndBits(path, mask, 64));
  }

  // ---- subtrees as intervals of leaves ------------------------------------

  /** Whether the leaf with number `x` lies in the subtree of `n`, as an interval. */
  predicate Covers(n: NodeName, x: nat)
    requires n.len <= HIERARCHY_DEPTH
  {
    n.path * n.SubtreeSize() <= x < (n.path + 1) * n.SubtreeSize()
  }

  /** The prefix test is membership in the interval of leaves of the subtree. */
  lemma {:induction false} ContainsIsInterval(n: NodeName, leaf: NodeName)
    requires n.Valid() && leaf.IsLeaf()
    ensures n.Contains(leaf) <==> Covers(n, leaf.path)
  {
    DivInterval(leaf.path, n.SubtreeSize(), n.path);
  }

  /** The two children halve the interval. */
  lemma {:induction false} ChildrenSplit(n: NodeName, x: nat)
    requires n.Valid() && n.len < HIERARCHY_DEPTH
    ensures n.SubtreeSize() == 2 * n.Left().SubtreeSize()
    ensures n.Right().SubtreeSize() == n.Left().SubtreeSize()
    ensures Covers(n, x) <==> Covers(n.Left(), x) || Covers(n.Right(), x)
    ensures !(Covers(n.Left(), x) && Covers(n.Right(), x))
  {
    HalfInterval(n.path, Pow2(HIERARCHY_DEPTH - n.len - 1), x);
  }

  /** Every interval lies inside the tree. */
  lemma {:induction false} CoversInTree(n: NodeName)
    requires n.Valid()
    ensures (n.path + 1) * n.SubtreeSize() <= LeafCount()
  {
    Pow2Sum(n.len, HIERARCHY_DEPTH - n.len);
    MulMonotone(n.path + 1, Pow2(n.len), n.SubtreeSize());
  }

  /** The root contains everything. */
  lemma {:induction false} RootCovers(x: nat)
    ensures ROOT.Valid() && (x < LeafCount() ==> Covers(ROOT, x))
  {
  }

  // ---- ancestors ----------------------------------------------------------

  /** The prefix of length `k` of a node. */
  function Ancestor(n: NodeName, k: nat): (a: NodeName)
    requires n.Valid() && k <= n.len
    ensures a.Valid() && a.len == k
  {
    ShiftFits(n.path, k, n.len - k);
    NodeName(k, ShiftRight(n.path, n.len - k))
  }

  lemma {:induction false} ParentIsAncestor(n: NodeName, k: nat)
    requires n.Valid() && 0 < k <= n.len
    ensures Ancestor(n, k).Parent() == Ancestor(n, k - 1)
  {
    ShiftShift(n.path, n.len - k, 1);
    assert ShiftRight(Ancestor(n, k).path, 1) == Ancestor(n, k).path / 2;
  }

  /** A node that contains another one is one of its prefixes. */
  lemma {:induction false} ContainsIsAncestor(n: NodeName, other: NodeName)
    requires n.Valid() && other.Valid()
    ensures n.Contains(other) <==> n.len <= other.len && Ancestor(other, n.len) == n
  {
  }

  function Reverse<T>(s: seq<T>): (r: seq<T>)
    ensures |r| == |s|
    ensures forall i | 0 <= i < |s| :: r[i] == s[|s| - 1 - i]
  {
    seq(|s|, i requires 0 <= i < |s| => s[|s| - 1 - i])
  }

  /** The nodes on the way from below the root down to `node`, in that order. */
  method Walk(node: NodeName) returns (w: seq<NodeName>)
    requires node.Valid()
    ensures |w| == node.len
    ensures forall i | 0 <= i < node.len :: w[i] == Ancestor(node, i + 1)
  {
    var current := node;
    var parents := [];
    while !current.IsEmpty()
      invariant current.Valid() && current.len <= node.len
      invariant current == Ancestor(node, current.len)
      invariant |parents| == node.len - current.len
      invariant forall i | 0 <= i < |parents| :: parents[i] == Ancestor(node, node.len - i)
      decreases current.len
    {
      ParentIsAncestor(node, current.len);
      parents := parents + [current];
      current := current.Parent();
    }
    w := Reverse(parents);
  }
}
