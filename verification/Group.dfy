/**
 The scalar field and the pairing groups, as integers modulo their common
 order. The groups are cyclic, so an element stands for its discrete logarithm
 to a fixed generator, and a scalar multiple is a product.
 */
module Group {

  type Order = n: nat | n >= 2 witness 2

  /** The group order: an arbitrary fixed number. */
  const ORDER: Order

  type Elem = n: nat | n < ORDER witness 0

  type Scalar = Elem

  /** The residue of `n`, which is `n % ORDER` (`ReduceIsRemainder`). */
  function Reduce(n: nat): Elem {
    if n < ORDER then n else Reduce(n - ORDER)
  }

  function Add(a: Elem, b: Elem): Elem {
    Reduce(a + b)
  }

  function Scale(g: Elem, x: Scalar): Elem {
    Reduce(g * x)
  }

  // ---- the module laws ----------------------------------------------------

  lemma {:induction false} ReducePeriodic(r: nat, k: nat)
    ensures Reduce(r + k * ORDER) == Reduce(r)
    decreases k
  {
    if k > 0 {
      ReducePeriodic(r, k - 1);
      assert r + k * ORDER - ORDER == r + (k - 1) * ORDER;
    }
  }

  /** Every number is its residue plus a multiple of the order. */
  lemma {:induction false} ReduceQuotient(n: nat) returns (k: nat)
    ensures n == Reduce(n) + k * ORDER
  {
    if n < ORDER {
      k := 0;
    } else {
      var j := ReduceQuotient(n - ORDER);
      k := j + 1;
      assert k * ORDER == j * ORDER + ORDER;
    }
  }

  lemma {:induction false} ReduceIsRemainder(n: nat)
    ensures Reduce(n) == n % ORDER
  {
    var k := ReduceQuotient(n);
    QuotientUnique(n, k, Reduce(n));
  }

  lemma {:induction false} QuotientUnique(x: int, quo: int, rem: int)
    requires 0 <= rem < ORDER && x == quo * ORDER + rem
    ensures x % ORDER == rem
  {
    var d := x / ORDER - quo;
    assert x == (x / ORDER) * ORDER + x % ORDER;
    assert d * ORDER == rem - x % ORDER;
    assert d > 0 ==> d * ORDER >= ORDER;
    assert d < 0 ==> d * ORDER <= 0 - ORDER;
  }

  lemma {:induction false} MulSwap(a: nat, b: nat, c: nat)
    ensures a * b * c == a * c * b
  {
  }

  lemma {:induction false} MulOfSum(r: nat, k: nat, m: nat, b: nat)
    ensures (r + k * m) * b == r * b + k * b * m
  {
    MulSwap(k, m, b);
  }

  lemma {:induction false} ReduceAdd(a: nat, b: nat)
    ensures Reduce(Reduce(a) + b) == Reduce(a + b)
  {
    var k := ReduceQuotient(a);
    ReducePeriodic(Reduce(a) + b, k);
  }

  lemma {:induction false} ReduceMul(a: nat, b: nat)
    ensures Reduce(Reduce(a) * b) == Reduce(a * b)
  {
    hide Reduce;
    var k := ReduceQuotient(a);
    ReducePeriodic(Reduce(a) * b, k * b);
    MulOfSum(Reduce(a), k, ORDER, b);
  }

  lemma {:induction false} AddComm(a: Elem, b: Elem)
    ensures Add(a, b) == Add(b, a)
  {
  }

  lemma {:induction false} AddAssoc(a: Elem, b: Elem, c: Elem)
    ensures Add(Add(a, b), c) == Add(a, Add(b, c))
  {
    ReduceAdd(a + b, c);
    ReduceAdd(b + c, a);
  }

  lemma {:induction false} ScaleDistributes(a: Elem, b: Elem, x: Scalar)
    ensures Scale(Add(a, b), x) == Add(Scale(a, x), Scale(b, x))
  {
    ReduceMul(a + b, x);
    ReduceAdd(a * x, Reduce(b * x));
    ReduceAdd(b * x, a * x);
    assert (a + b) * x == a * x + b * x;
  }

  lemma {:induction false} ScaleComm(g: Elem, x: Scalar, y: Scalar)
    ensures Scale(Scale(g, x), y) == Scale(Scale(g, y), x)
  {
    ReduceMul(g * x, y);
    ReduceMul(g * y, x);
    MulSwap(g, x, y);
  }

  lemma {:induction false} ScaleSum(g: Elem, x: Scalar, y: Scalar)
    ensures Scale(g, Add(x, y)) == Add(Scale(g, x), Scale(g, y))
  {
    ScaleDistributes(x, y, g);
    assert g * x == x * g && g * y == y * g && g * Add(x, y) == Add(x, y) * g;
  }

  lemma {:induction false} ScaleSym(a: Elem, b: Elem)
    ensures Scale(a, b) == Scale(b, a)
  {
    assert a * b == b * a;
  }

  // ---- in plain arithmetic --------------------------------------------------

  lemma {:induction false} AddIsModulo(a: nat, b: nat)
    ensures Add(Reduce(a), Reduce(b)) == (a + b) % ORDER
  {
    ReduceAdd(a, Reduce(b));
    ReduceAdd(b, a);
    ReduceIsRemainder(a + b);
  }

  lemma {:induction false} ScaleIsModulo(a: nat, b: nat)
    ensures Scale(Reduce(a), Reduce(b)) == a * b % ORDER
  {
    ReduceMul(a, Reduce(b));
    assert a * Reduce(b) == Reduce(b) * a && b * a == a * b;
    ReduceMul(b, a);
    ReduceIsRemainder(a * b);
  }
}
