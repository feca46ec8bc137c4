/**
 The accuracy model (accuracy.py), with exact fractions as reals and without
 over-allocation: how far the assigned weights are from the wanted ones.
 */
module Accuracy {
  import opened Powers
  import NodeNames
  import Allocation

  // ---- specification ------------------------------------------------------------

  function Total(weights: seq<nat>): nat {
    if weights == [] then 0 else weights[0] + Total(weights[1..])
  }

  /** The weight of a relay as a fraction of the whole network. */
  function Scaled(weight: nat, total: nat): real {
    if total == 0 then 0.0 else weight as real / total as real
  }

  function Requested(depth: nat, scaled: real): int {
    (Pow2(depth) as real * scaled).Floor
  }

  /** The largest multiple of the finest cell that does not exceed the weight. */
  function Rounded(depth: nat, scaled: real): real {
    Requested(depth, scaled) as real / Pow2(depth) as real
  }

  function Abs(x: real): real {
    if x < 0.0 then 0.0 - x else x
  }

  function ErrorOf(scaled: real, given: real): real {
    if scaled == 0.0 then 0.0 else Abs((scaled - given) / scaled)
  }

  function ErrorSum(relays: seq<(real, real)>): real {
    if relays == [] then 0.0 else ErrorOf(relays[0].0, relays[0].1) + ErrorSum(relays[1..])
  }

  /** The mean absolute percentage error of pairs of a wanted and an assigned weight.
      Relays without weight add no error, but they count in the mean. */
  function Mape(relays: seq<(real, real)>): real {
    if forall r | r in relays :: r.0 == 0.0 then 0.0
    else
      100.0 * ErrorSum(relays) / |relays| as real
  }

  // ---- the relays as objects --------------------------------------------------------

  class Relay {
    const weight: nat
    var scaledWeight: real
    var allocationRequest: int
    var assignedWeight: real

    constructor (weight: nat)
      ensures this.weight == weight && assignedWeight == 0.0
    {
      this.weight := weight;
      scaledWeight := 0.0;
      allocationRequest := 0;
      assignedWeight := 0.0;
    }
  }

  function Weights(relays: seq<Relay>): (w: seq<nat>)
    ensures |w| == |relays|
  {
    seq(|relays|, i requires 0 <= i < |relays| => relays[i].weight)
  }

  ghost predicate Distinct(relays: seq<Relay>) {
    forall i, j | 0 <= i < j < |relays| :: relays[i] != relays[j]
  }

  method ScaleWeights(relays: seq<Relay>)
    modifies relays
    ensures forall r | r in relays :: r.scaledWeight == Scaled(r.weight, Total(Weights(relays)))
  {
    var weights := Weights(relays);
    var total := 0;
    for i := 0 to |weights|
      invariant total + Total(weights[i..]) == Total(weights)
    {
      total := total + weights[i];
    }
    for i := 0 to |relays|
      invariant forall j | 0 <= j < i :: relays[j].scaledWeight == Scaled(relays[j].weight, total)
    {
      if total != 0 {
        relays[i].scaledWeight := relays[i].weight as real / total as real;
      } else {
        relays[i].scaledWeight := 0.0;
      }
    }
  }

  /** Takes a relay with the largest request out of the queue. */
  method HeapPop(queue: seq<Relay>) returns (largest: Relay, rest: seq<Relay>)
    requires queue != [] && Distinct(queue)
    ensures largest in queue && forall r | r in queue :: r.allocationRequest <= largest.allocationRequest
    ensures Distinct(rest) && forall r :: r in rest <==> r in queue && r != largest
  {
    var best := 0;
    for i := 0 to |queue|
      invariant best < |queue|
      invariant forall j | 0 <= j < i :: queue[j].allocationRequest <= queue[best].allocationRequest
    {
      if queue[best].allocationRequest < queue[i].allocationRequest {
        best := i;
      }
    }
    largest := queue[best];
    rest := queue[..best] + queue[best + 1..];
    assert queue == queue[..best] + [largest] + queue[best + 1..];
  }

  /** What a relay still requests together with what it was assigned is what it wanted. */
  ghost predicate Accounted(r: Relay, depth: nat, size: nat)
    reads r
  {
    && r.allocationRequest >= 0
    && (r.allocationRequest == 0 || r.allocationRequest < 2 * size)
    && r.assignedWeight == (Requested(depth, r.scaledWeight) - r.allocationRequest) as real / Pow2(depth) as real
  }

  method PrepareRequests(relays: seq<Relay>, depth: nat)
    requires forall r | r in relays :: 0.0 <= r.scaledWeight <= 1.0
    modifies relays
    ensures forall r | r in relays :: r.scaledWeight == old(r.scaledWeight) && Accounted(r, depth, Pow2(depth))
  {
    for i := 0 to |relays|
      invariant forall r | r in relays :: r.scaledWeight == old(r.scaledWeight)
      invariant forall j | 0 <= j < i :: Accounted(relays[j], depth, Pow2(depth))
    {
      var r := relays[i];
      r.allocationRequest := (Pow2(depth) as real * r.scaledWeight).Floor;
      r.assignedWeight := 0.0;
      RequestFits(depth, r.scaledWeight);
    }
  }

  lemma {:induction false} RequestFits(depth: nat, scaled: real)
    requires 0.0 <= scaled <= 1.0
    ensures 0 <= Requested(depth, scaled) <= Pow2(depth)
  {
    var p := Pow2(depth) as real;
    assert 0.0 <= p * scaled <= p * 1.0;
  }

  lemma {:induction false} GrantAccounts(wanted: int, request: int, size: nat, p: nat)
    requires p > 0
    ensures (wanted - request) as real / p as real + size as real / p as real == (wanted - (request - size)) as real / p as real
  {
  }

  lemma {:induction false} HalfOfPower(size: nat, level: nat)
    requires size == Pow2(level)
    ensures level > 0 ==> size / 2 == Pow2(level - 1) && size == 2 * (size / 2)
    ensures level == 0 ==> size / 2 == 0 && size == 1
  {
  }

  /** Gives a relay one cell of the current size. */
  method GiveCell(next: Relay, depth: nat, currentSize: nat, spaceSize: nat)
    requires Accounted(next, depth, currentSize) && next.allocationRequest >= currentSize > 0
    requires spaceSize == Pow2(depth)
    modifies next
    ensures Accounted(next, depth, currentSize)
    ensures next.scaledWeight == old(next.scaledWeight)
    ensures next.allocationRequest == old(next.allocationRequest) - currentSize < currentSize
  {
    hide Requested;
    GrantAccounts(Requested(depth, next.scaledWeight), next.allocationRequest, currentSize, spaceSize);
    next.allocationRequest := next.allocationRequest - currentSize;
    assert 0 <= next.allocationRequest < currentSize;
    next.assignedWeight := next.assignedWeight + currentSize as real / spaceSize as real;
  }

  /** The loop gives every relay exactly its weight rounded down to the cell grid. */
  method AllocateWeights(relays: seq<Relay>, depth: nat)
    requires Distinct(relays)
    requires forall r | r in relays :: 0.0 <= r.scaledWeight <= 1.0
    modifies relays
    ensures forall r | r in relays ::
      r.scaledWeight == old(r.scaledWeight) && r.assignedWeight == Rounded(depth, r.scaledWeight)
  {
    hide Requested, Pow2;
    var queue := relays;
    var spaceSize := Pow2(depth);
    PrepareRequests(relays, depth);
    var currentSize := spaceSize;
    ghost var level := depth;
    while queue != [] && currentSize != 0
      invariant Distinct(queue) && forall r | r in queue :: r in relays
      invariant currentSize == 0 || currentSize == Pow2(level)
      invariant forall r | r in relays :: r.scaledWeight == old(r.scaledWeight)
      invariant forall r | r in relays :: Accounted(r, depth, currentSize)
      invariant forall r | r in relays && r !in queue :: r.allocationRequest == 0
      decreases currentSize, set r | r in queue && r.allocationRequest >= currentSize
    {
      ghost var before := set r | r in queue && r.allocationRequest >= currentSize;
      var next, rest := HeapPop(queue);
      assert Accounted(next, depth, currentSize);
      if next.allocationRequest < currentSize {
        HalfOfPower(currentSize, level);
        level := if level > 0 then level - 1 else 0;
        currentSize := currentSize / 2;
      } else {
        GiveCell(next, depth, currentSize, spaceSize);
        assert next in before && next !in set r | r in queue && r.allocationRequest >= currentSize;
      }
      queue := rest;
      if next.allocationRequest != 0 {
        queue := queue + [next];
      }
    }
    forall r | r in relays
      ensures r.assignedWeight == Rounded(depth, r.scaledWeight)
    {
      assert Accounted(r, depth, currentSize);
    }
  }

  // ---- agreement with the allocator ----------------------------------------------------

  lemma {:induction false} FloorIsDivision(x: nat, total: nat)
    requires total > 0
    ensures (x as real / total as real).Floor == x / total
  {
    var k := x / total;
    var t := total as real;
    assert k * total <= x < k * total + total;
    var low := (k * total) as real;
    assert low == k as real * t;
    assert low <= x as real < low + t;
    QuotientBetween(k as real, x as real, t);
  }

  lemma {:induction false} QuotientBetween(k: real, x: real, t: real)
    requires t > 0.0 && k * t <= x < k * t + t
    ensures k <= x / t < k + 1.0
  {
    var y := x / t;
    assert y * t == x;
    OneMoreBound(k, t);
    Cancelled(k, y, k + 1.0, t);
  }

  lemma {:induction false} Cancelled(a: real, b: real, c: real, t: real)
    requires t > 0.0 && a * t <= b * t < c * t
    ensures a <= b < c
  {
    assert (b - a) * t == b * t - a * t && (c - b) * t == c * t - b * t;
  }

  lemma {:induction false} Regroup(p: real, w: real, t: real)
    requires t != 0.0
    ensures p * (w / t) == p * w / t
  {
  }

  /** At the depth of the identity tree, the rounded weight is the quota of leaves
      that the allocator hands out, as a fraction of all leaves. */
  lemma {:induction false} RoundedIsQuota(weight: nat, total: nat)
    requires total > 0
    ensures Requested(NodeNames.HIERARCHY_DEPTH, Scaled(weight, total)) == Allocation.Quota(weight, total)
    ensures Rounded(NodeNames.HIERARCHY_DEPTH, Scaled(weight, total))
            == Allocation.Quota(weight, total) as real / NodeNames.LeafCount() as real
  {
    ShareFloor(NodeNames.LeafCount(), weight, total);
  }

  // ---- the error bound -------------------------------------------------------------------

  /** Wanted and assigned weights of all relays at a depth. */
  function PairsAt(weights: seq<nat>, total: nat, depth: nat): (p: seq<(real, real)>)
    ensures |p| == |weights|
  {
    seq(|weights|, i requires 0 <= i < |weights| =>
      (Scaled(weights[i], total), Rounded(depth, Scaled(weights[i], total))))
  }

  function MapeAt(weights: seq<nat>, depth: nat): real {
    Mape(PairsAt(weights, Total(weights), depth))
  }

  lemma {:induction false} RoundedBelow(depth: nat, scaled: real)
    ensures Rounded(depth, scaled) <= scaled < Rounded(depth, scaled) + 1.0 / Pow2(depth) as real
  {
    var p := Pow2(depth) as real;
    var f := Requested(depth, scaled) as real;
    assert f <= p * scaled < f + 1.0;
    Divided(f, p * scaled, f + 1.0, p);
    assert p * scaled / p == scaled;
    assert (f + 1.0) / p == f / p + 1.0 / p;
  }

  lemma {:induction false} Divided(a: real, b: real, c: real, p: real)
    requires p > 0.0 && a <= b < c
    ensures a / p <= b / p < c / p
  {
  }

  /** The relative error of one relay. */
  lemma {:induction false} ErrorBound(weight: nat, total: nat, depth: nat)
    requires weight <= total && total > 0
    ensures 0.0 <= ErrorOf(Scaled(weight, total), Rounded(depth, Scaled(weight, total)))
                < total as real / Pow2(depth) as real
  {
    var s, p, t := Scaled(weight, total), Pow2(depth) as real, total as real;
    if weight == 0 {
      assert s == 0.0;
      assert t / p > 0.0;
    } else {
      var gap := s - Rounded(depth, s);
      RoundedBelow(depth, s);
      assert s == weight as real / t;
      RelativeGap(gap, weight as real, t, p);
    }
  }

  lemma {:induction false} RelativeGap(gap: real, w: real, t: real, p: real)
    requires t > 0.0 && p > 0.0 && w >= 1.0 && 0.0 <= gap < 1.0 / p
    ensures w / t > 0.0 && 0.0 <= gap / (w / t) < t / p
  {
    assert gap / (w / t) == gap * t / w;
    assert gap * t < 1.0 / p * t == t / p;
    assert gap * t / w <= gap * t;
  }

  lemma {:induction false} WeightAtMostTotal(weights: seq<nat>, i: nat)
    requires i < |weights|
    ensures weights[i] <= Total(weights)
  {
    if i > 0 {
      WeightAtMostTotal(weights[1..], i - 1);
    }
  }

  lemma {:induction false} OneMoreBound(n: real, bound: real)
    ensures (n + 1.0) * bound == n * bound + bound
  {
  }

  lemma {:induction false} ErrorSumBound(pairs: seq<(real, real)>, bound: real)
    requires forall i | 0 <= i < |pairs| :: 0.0 <= ErrorOf(pairs[i].0, pairs[i].1) < bound
    ensures 0.0 <= ErrorSum(pairs)
    ensures pairs != [] ==> ErrorSum(pairs) < |pairs| as real * bound
  {
    hide ErrorOf;
    if pairs != [] {
      ErrorSumBound(pairs[1..], bound);
      OneMoreBound((|pairs| - 1) as real, bound);
    }
  }

  /** With a positive total weight, the mean error is below the total weight over the
      number of leaves, in percent. */
  lemma {:induction false} MapeBound(weights: seq<nat>, depth: nat)
    requires Total(weights) > 0
    ensures 0.0 <= MapeAt(weights, depth) < 100.0 * (Total(weights) as real / Pow2(depth) as real)
  {
    hide Rounded, Scaled, ErrorOf, ErrorSum;
    var total := Total(weights);
    var pairs, bound := PairsAt(weights, total, depth), total as real / Pow2(depth) as real;
    forall i | 0 <= i < |pairs|
      ensures 0.0 <= ErrorOf(pairs[i].0, pairs[i].1) < bound
    {
      WeightAtMostTotal(weights, i);
      ErrorBound(weights[i], total, depth);
    }
    ErrorSumBound(pairs, bound);
    MeanBelow(ErrorSum(pairs), |pairs| as real, bound);
    assert bound > 0.0;
  }

  lemma {:induction false} MeanBelow(sum: real, n: real, bound: real)
    requires n > 0.0 && 0.0 <= sum < n * bound
    ensures 0.0 <= 100.0 * sum / n < 100.0 * bound
  {
    assert sum / n < bound;
    assert 100.0 * sum / n == 100.0 * (sum / n);
  }

  // ---- the error as a number ---------------------------------------------------------------

  /** The relative errors of all relays with a weight, at a depth with `leaves` cells:
      what is left over when the share of a relay is rounded down, over the share. */
  function LeftOver(weights: seq<nat>, total: nat, leaves: nat): real
    requires total > 0 && leaves > 0
  {
    if weights == [] then 0.0
    else
      (if weights[0] == 0 then 0.0
       else (leaves * weights[0] % total) as real / (leaves * weights[0]) as real)
      + LeftOver(weights[1..], total, leaves)
  }

  /** `x` over `t` exceeds its rounded value by the remainder over `t`. */
  lemma {:induction false} RemainderOver(x: nat, t: nat)
    requires x > 0 && t > 0
    ensures (x as real / t as real - (x / t) as real) * t as real == (x % t) as real
  {
    assert x == x / t * t + x % t;
    assert x as real == (x / t) as real * t as real + (x % t) as real;
    assert x as real / t as real * t as real == x as real;
  }

  /** Relative to the scaled weight, the error is the same at every scale. */
  lemma {:induction false} SameRatio(p: real, w: real, t: real, f: real, m: real)
    requires p > 0.0 && w > 0.0 && t > 0.0 && (p * w / t - f) * t == m
    ensures w / t != 0.0 && (w / t - f / p) / (w / t) == m / (p * w)
  {
    var s := w / t;
    assert s * t == w && s > 0.0;
    assert p * w / t == p * s;
    var e := (s - f / p) / s;
    assert e * s == s - f / p;
    assert p * (f / p) == f;
    assert p * (e * s) == p * s - f;
    assert p * (e * s) * t == m;
    assert p * (e * s) * t == e * (p * w) by {
      assert p * (e * s) * t == e * (p * (s * t));
    }
    assert p * w > 0.0;
    assert e == m / (p * w);
  }

  /** The assigned weight is the share of the cells, rounded down. */
  lemma {:induction false} RoundedIsShare(weight: nat, total: nat, depth: nat)
    requires total > 0
    ensures Rounded(depth, Scaled(weight, total)) == (Pow2(depth) * weight / total) as real / Pow2(depth) as real
  {
    hide Pow2, Requested, Scaled;
    RequestedIsShare(weight, total, depth);
  }

  lemma {:induction false} RequestedIsShare(weight: nat, total: nat, depth: nat)
    requires total > 0
    ensures Requested(depth, Scaled(weight, total)) == Pow2(depth) * weight / total
  {
    hide Pow2;
    ShareFloor(Pow2(depth), weight, total);
  }

  lemma {:induction false} ShareFloor(leaves: nat, weight: nat, total: nat)
    requires total > 0
    ensures (leaves as real * (weight as real / total as real)).Floor == leaves * weight / total
  {
    Regroup(leaves as real, weight as real, total as real);
    RealProduct(leaves, weight);
    FloorIsDivision(leaves * weight, total);
  }

  lemma {:induction false} RealProduct(a: nat, b: nat)
    ensures (a * b) as real == a as real * b as real
  {
  }

  lemma {:induction false} AbsOfPositive(scaled: real, given: real, e: real)
    requires scaled != 0.0 && (scaled - given) / scaled == e && e >= 0.0
    ensures ErrorOf(scaled, given) == e
  {
  }

  lemma {:induction false} ErrorIsLeftOver(weight: nat, total: nat, depth: nat)
    requires weight > 0 && total > 0
    ensures var x := Pow2(depth) * weight;
      x > 0 && ErrorOf(Scaled(weight, total), Rounded(depth, Scaled(weight, total))) == (x % total) as real / x as real
  {
    hide Rounded, ErrorOf, Pow2;
    var p, w, t := Pow2(depth) as real, weight as real, total as real;
    var x := Pow2(depth) * weight;
    assert x >= weight && x as real == p * w;
    RoundedIsShare(weight, total, depth);
    RemainderOver(x, total);
    SameRatio(p, w, t, (x / total) as real, (x % total) as real);
    NotNegative((x % total) as real, x as real);
    AbsOfPositive(w / t, (x / total) as real / p, (x % total) as real / x as real);
  }

  lemma {:induction false} NotNegative(a: real, b: real)
    requires a >= 0.0 && b > 0.0
    ensures a / b >= 0.0
  {
  }

  lemma {:induction false} ErrorSumIsLeftOver(weights: seq<nat>, total: nat, depth: nat)
    requires total > 0
    ensures ErrorSum(PairsAt(weights, total, depth)) == LeftOver(weights, total, Pow2(depth))
  {
    hide ErrorOf, Rounded, Scaled, Pow2;
    if weights != [] {
      var pairs := PairsAt(weights, total, depth);
      ErrorSumIsLeftOver(weights[1..], total, depth);
      assert pairs[1..] == PairsAt(weights[1..], total, depth);
      if weights[0] > 0 {
        ErrorIsLeftOver(weights[0], total, depth);
      } else {
        NoError(total, Rounded(depth, Scaled(0, total)));
      }
    }
  }

  lemma {:induction false} NoError(total: nat, given: real)
    ensures ErrorOf(Scaled(0, total), given) == 0.0
  {
  }

  lemma {:induction false} SomeWeight(weights: seq<nat>) returns (i: nat)
    requires Total(weights) > 0
    ensures i < |weights| && weights[i] > 0
  {
    if weights[0] > 0 {
      i := 0;
    } else {
      var j := SomeWeight(weights[1..]);
      i := j + 1;
    }
  }

  /** The mean error as a number: times the number of relays it is, in percent, the sum
      over all relays with a weight of the remainder of their share over the share. */
  lemma {:induction false} MapeIs(weights: seq<nat>, depth: nat)
    ensures Total(weights) > 0 ==>
      |weights| as real * MapeAt(weights, depth) == 100.0 * LeftOver(weights, Total(weights), Pow2(depth))
    ensures Total(weights) == 0 ==> MapeAt(weights, depth) == 0.0
  {
    hide ErrorSum, LeftOver, Rounded;
    var total := Total(weights);
    var pairs := PairsAt(weights, total, depth);
    if total > 0 {
      ErrorSumIsLeftOver(weights, total, depth);
      var i := SomeWeight(weights);
      assert pairs[i] in pairs && pairs[i].0 != 0.0;
      TimesMean(|weights| as real, ErrorSum(pairs));
    }
  }

  lemma {:induction false} TimesMean(n: real, sum: real)
    requires n > 0.0
    ensures n * (100.0 * sum / n) == 100.0 * sum
  {
  }

  function Pairs(relays: seq<Relay>): (p: seq<(real, real)>)
    reads relays
    ensures |p| == |relays|
  {
    seq(|relays|, i requires 0 <= i < |relays| reads relays => (relays[i].scaledWeight, relays[i].assignedWeight))
  }

  /** Evaluates a network at all depths of a range: the errors never increase. */
  method Evaluate(relays: seq<Relay>, depthFrom: nat, depthTo: nat) returns (mapes: seq<real>)
    requires Distinct(relays)
    modifies relays
    ensures |mapes| == if depthFrom <= depthTo then depthTo + 1 - depthFrom else 0
    ensures var weights := Weights(relays);
      forall i | 0 <= i < |mapes| ::
        if Total(weights) == 0 then mapes[i] == 0.0
        else |relays| as real * mapes[i] == 100.0 * LeftOver(weights, Total(weights), Pow2(depthFrom + i))
    ensures forall i | 0 <= i < |mapes| :: mapes[i] == MapeAt(Weights(relays), depthFrom + i)
    ensures forall i, j | 0 <= i <= j < |mapes| :: mapes[j] <= mapes[i]
  {
    hide Rounded, Mape, MapeAt, Scaled, LeftOver, Pow2, Total;
    var weights := Weights(relays);
    ScaleWeights(relays);
    ScaledWeightsFit(relays);
    mapes := [];
    var depth := depthFrom;
    while depth <= depthTo
      invariant depthFrom <= depth && (depth <= depthTo + 1 || mapes == [])
      invariant |mapes| == depth - depthFrom
      invariant forall r | r in relays :: r.scaledWeight == Scaled(r.weight, Total(weights)) && 0.0 <= r.scaledWeight <= 1.0
      invariant forall i | 0 <= i < |mapes| :: mapes[i] == MapeAt(weights, depthFrom + i)
    {
      AllocateWeights(relays, depth);
      mapes := mapes + [Mape(Pairs(relays))];
      PairsAgree(relays, depth);
      depth := depth + 1;
    }
    forall i | 0 <= i < |mapes|
      ensures if Total(weights) == 0 then mapes[i] == 0.0
              else |relays| as real * mapes[i] == 100.0 * LeftOver(weights, Total(weights), Pow2(depthFrom + i))
    {
      MapeIs(weights, depthFrom + i);
    }
    forall i, j | 0 <= i <= j < |mapes|
      ensures mapes[j] <= mapes[i]
    {
      MapeNeverIncreases(weights, depthFrom + i, depthFrom + j);
    }
  }

  lemma {:induction false} ScaledWeightsFit(relays: seq<Relay>)
    requires forall r | r in relays :: r.scaledWeight == Scaled(r.weight, Total(Weights(relays)))
    ensures forall r | r in relays :: 0.0 <= r.scaledWeight <= 1.0
  {
    var weights := Weights(relays);
    forall r | r in relays
      ensures 0.0 <= r.scaledWeight <= 1.0
    {
      var i :| 0 <= i < |relays| && relays[i] == r;
      WeightAtMostTotal(weights, i);
      ScaledFits(r.weight, Total(weights));
    }
  }

  lemma {:induction false} PairsAgree(relays: seq<Relay>, depth: nat)
    requires forall r | r in relays :: r.scaledWeight == Scaled(r.weight, Total(Weights(relays)))
    requires forall r | r in relays :: r.assignedWeight == Rounded(depth, r.scaledWeight)
    ensures Mape(Pairs(relays)) == MapeAt(Weights(relays), depth)
  {
    hide Rounded, Mape, Scaled;
    assert Pairs(relays) == PairsAt(Weights(relays), Total(Weights(relays)), depth);
  }

  lemma {:induction false} ScaledFits(weight: nat, total: nat)
    requires weight <= total
    ensures 0.0 <= Scaled(weight, total) <= 1.0
  {
  }

  // ---- a deeper tree is never worse --------------------------------------------------------

  lemma {:induction false} DeeperIsCloser(depth: nat, scaled: real)
    ensures Rounded(depth, scaled) <= Rounded(depth + 1, scaled) <= scaled
  {
    var p := Pow2(depth) as real;
    var f, g := Requested(depth, scaled), Requested(depth + 1, scaled);
    RoundedBelow(depth + 1, scaled);
    assert Pow2(depth + 1) as real == 2.0 * p;
    assert f as real <= p * scaled;
    assert 2.0 * p * scaled == 2.0 * (p * scaled);
    assert 2 * f <= g;
    Halved(f as real, g as real, p);
  }

  lemma {:induction false} Halved(f: real, g: real, p: real)
    requires p > 0.0 && 2.0 * f <= g
    ensures f / p <= g / (2.0 * p)
  {
    assert f / p == 2.0 * f / (2.0 * p);
  }

  lemma {:induction false} ErrorShrinks(depth: nat, scaled: real)
    requires scaled >= 0.0
    ensures ErrorOf(scaled, Rounded(depth + 1, scaled)) <= ErrorOf(scaled, Rounded(depth, scaled))
  {
    DeeperIsCloser(depth, scaled);
    if scaled > 0.0 {
      var a, b := scaled - Rounded(depth + 1, scaled), scaled - Rounded(depth, scaled);
      assert 0.0 <= a <= b;
      assert 0.0 <= a / scaled <= b / scaled;
    }
  }

  lemma {:induction false} ErrorSumsCompare(p: seq<(real, real)>, q: seq<(real, real)>)
    requires |p| == |q|
    requires forall i | 0 <= i < |p| :: ErrorOf(p[i].0, p[i].1) <= ErrorOf(q[i].0, q[i].1)
    ensures ErrorSum(p) <= ErrorSum(q)
  {
    if p != [] {
      ErrorSumsCompare(p[1..], q[1..]);
    }
  }

  lemma {:induction false} OneDeeper(weights: seq<nat>, depth: nat)
    ensures MapeAt(weights, depth + 1) <= MapeAt(weights, depth)
  {
    var total := Total(weights);
    var p, q := PairsAt(weights, total, depth + 1), PairsAt(weights, total, depth);
    forall i | 0 <= i < |p|
      ensures p[i].0 == q[i].0 && ErrorOf(p[i].0, p[i].1) <= ErrorOf(q[i].0, q[i].1)
    {
      ErrorShrinks(depth, Scaled(weights[i], total));
    }
    ErrorSumsCompare(p, q);
    SameZeros(p, q);
    if weights != [] {
      MeansCompare(ErrorSum(p), ErrorSum(q), |p| as real);
    }
  }

  /** The mean error never increases with the depth. */
  lemma {:induction false} MapeNeverIncreases(weights: seq<nat>, a: nat, b: nat)
    requires a <= b
    ensures MapeAt(weights, b) <= MapeAt(weights, a)
    decreases b
  {
    hide MapeAt;
    if a < b {
      MapeNeverIncreases(weights, a, b - 1);
      OneDeeper(weights, b - 1);
    }
  }

  lemma {:induction false} SameZeros(p: seq<(real, real)>, q: seq<(real, real)>)
    requires |p| == |q| && forall i | 0 <= i < |p| :: p[i].0 == q[i].0
    ensures (forall r | r in p :: r.0 == 0.0) <==> (forall r | r in q :: r.0 == 0.0)
  {
    if forall r | r in p :: r.0 == 0.0 {
      assert forall i | 0 <= i < |q| :: p[i] in p && q[i].0 == 0.0;
    }
    if forall r | r in q :: r.0 == 0.0 {
      assert forall i | 0 <= i < |p| :: q[i] in q && p[i].0 == 0.0;
    }
  }

  lemma {:induction false} MeansCompare(a: real, b: real, n: real)
    requires n > 0.0 && a <= b
    ensures 100.0 * a / n <= 100.0 * b / n
  {
  }
}
