/** Powers of two and the shift arithmetic of tree paths. */
module Powers {

  function Pow2(k: nat): (p: nat)
    ensures p >= 1
  {
    if k == 0 then 1 else 2 * Pow2(k - 1)
  }

  lemma {:induction false} Pow2Sum(a: nat, b: nat)
    ensures Pow2(a + b) == Pow2(a) * Pow2(b)
  {
    if b > 0 {
      Pow2Sum(a, b - 1);
      assert Pow2(a) * (2 * Pow2(b - 1)) == 2 * (Pow2(a) * Pow2(b - 1));
    }
  }

  lemma {:induction false} Pow2Monotone(a: nat, b: nat)
    requires a <= b
    ensures Pow2(a) <= Pow2(b)
  {
    if a < b {
      Pow2Monotone(a, b - 1);
    }
  }

  lemma {:induction false} Pow2StrictlyMonotone(a: nat, b: nat)
    requires a < b
    ensures 2 * Pow2(a) <= Pow2(b)
  {
    Pow2Monotone(a + 1, b);
  }

  lemma {:induction false} Pow2Word()
    ensures Pow2(63) == 0x8000_0000_0000_0000
  {
    Pow2Product(7, 7, 128, 128);
    Pow2Product(14, 14, 0x4000, 0x4000);
    Pow2Product(28, 28, 0x1000_0000, 0x1000_0000);
    Pow2Product(56, 7, 0x100_0000_0000_0000, 128);
  }

  lemma {:induction false} Pow2Product(a: nat, b: nat, x: nat, y: nat)
    requires Pow2(a) == x && Pow2(b) == y
    ensures Pow2(a + b) == x * y
  {
    Pow2Sum(a, b);
  }

  lemma {:induction false} LowBit(bit: nat, rest: nat)
    requires bit < 2
    ensures (bit + 2 * rest) % 2 == bit && (bit + 2 * rest) / 2 == rest
  {
  }

  lemma {:induction false} TopSplits(k: nat, x: nat)
    requires k > 0 && x < Pow2(k)
    ensures x == x % 2 + 2 * (x / 2) && x / 2 < Pow2(k - 1)
    ensures Pow2(k) + x == x % 2 + 2 * (Pow2(k - 1) + x / 2)
  {
  }

  /** An interval of even length falls into its two halves. */
  lemma {:induction false} HalfInterval(p: nat, half: nat, x: nat)
    ensures p * (2 * half) <= x < (p + 1) * (2 * half) <==>
            p * 2 * half <= x < (p * 2 + 1) * half ||
            (p * 2 + 1) * half <= x < (p * 2 + 2) * half
  {
    var m := p * half;
    assert p * (2 * half) == 2 * m && (p + 1) * (2 * half) == 2 * m + 2 * half;
    assert p * 2 * half == 2 * m;
    assert (p * 2 + 1) * half == 2 * m + half && (p * 2 + 2) * half == 2 * m + 2 * half;
  }

  /** The quotient is the one number whose interval of `d` holds `x`. */
  lemma {:induction false} DivInterval(x: nat, d: nat, k: nat)
    requires d > 0
    ensures x / d == k <==> k * d <= x < (k + 1) * d
  {
    var quo, rem := x / d, x % d;
    assert x == quo * d + rem;
    if k < quo {
      assert (k + 1) * d <= quo * d by { MulMonotone(k + 1, quo, d); }
    } else if k > quo {
      assert (quo + 1) * d <= k * d by { MulMonotone(quo + 1, k, d); }
    }
  }

  lemma {:induction false} MulMonotone(a: nat, b: nat, d: nat)
    requires a <= b
    ensures a * d <= b * d
  {
    assert b * d == a * d + (b - a) * d;
  }

  lemma {:induction false} DivDiv(x: nat, p: nat, q: nat)
    requires p > 0 && q > 0
    ensures p * q > 0 && x / p / q == x / (p * q)
  {
    var y := x / p;
    var k := y / q;
    assert p * q > 0;
    DivInterval(x, p, y);
    DivInterval(y, q, k);
    MulMonotone(k * q, y, p);
    MulMonotone(y + 1, (k + 1) * q, p);
    assert k * q * p == k * (p * q);
    assert (k + 1) * q * p == (k + 1) * (p * q);
    DivInterval(x, p * q, k);
  }

  lemma {:induction false} DivBound(x: nat, k: nat, d: nat)
    requires d > 0 && x < k * d
    ensures x / d < k
  {
    var quo := x / d;
    DivInterval(x, d, quo);
    if k <= quo {
      MulMonotone(k, quo, d);
    }
  }

  lemma {:induction false} DivAtMost(x: nat, d: nat)
    requires d > 0
    ensures 0 <= x / d <= x
  {
    DivInterval(x, d, x / d);
    assert x / d * d >= x / d;
  }

  lemma {:induction false} ModAtMost(x: nat, d: nat)
    requires d > 0
    ensures 0 <= x % d <= x && x % d < d
  {
    DivAtMost(x, d);
    assert x == x / d * d + x % d;
  }

  /** `x >> k` */
  function ShiftRight(x: nat, k: nat): (y: nat)
    ensures y <= x
  {
    DivAtMost(x, Pow2(k));
    x / Pow2(k)
  }

  /** The `k` low bits of `x`. */
  function LowBits(x: nat, k: nat): (y: nat)
    ensures y <= x && y < Pow2(k)
  {
    ModAtMost(x, Pow2(k));
    x % Pow2(k)
  }

  /** Shifting right twice shifts by the sum. */
  lemma {:induction false} ShiftShift(x: nat, a: nat, b: nat)
    ensures ShiftRight(ShiftRight(x, a), b) == ShiftRight(x, a + b)
  {
    DivDiv(x, Pow2(a), Pow2(b));
    Pow2Sum(a, b);
  }

  /** Shifting out all but `k` bits leaves a `k`-bit number. */
  lemma {:induction false} ShiftFits(x: nat, k: nat, j: nat)
    requires x < Pow2(k + j)
    ensures ShiftRight(x, j) < Pow2(k)
  {
    Pow2Sum(k, j);
    DivBound(x, Pow2(k), Pow2(j));
  }

  lemma {:induction false} ModHalves(x: nat, d: nat)
    requires d > 0
    ensures x % (2 * d) == x % 2 + 2 * (x / 2 % d)
  {
    var y := x / 2;
    var quo, rem := y / d, y % d;
    assert y == quo * d + rem;
    assert x == 2 * y + x % 2;
    assert 2 * (quo * d) == quo * (2 * d);
    var r := x % 2 + 2 * rem;
    DivInterval(x, 2 * d, quo);
    assert (quo + 1) * (2 * d) == quo * (2 * d) + 2 * d;
    assert x == x / (2 * d) * (2 * d) + x % (2 * d);
  }

  lemma {:induction false} HalfPath(x: nat, len: nat)
    requires x < Pow2(len + 1)
    ensures x / 2 < Pow2(len)
  {
  }
}
