/**
 Byte strings: the XOR and keystream operations shared by the two onion
 formats, and the integer encodings they serialise with.
 */
module Bytes {
  import opened Powers

  newtype byte = n: int | 0 <= n < 256

  type u32 = n: nat | n < 0x1_0000_0000

  type u64 = n: nat | n < 0x1_0000_0000_0000_0000

  /** A pseudorandom generator in counter mode: the byte at a position of the
      stream of a key (section 6.5 of NIST SP 800-38A). Left uninterpreted. */
  type StreamFn = (seq<byte>, nat) -> byte

  function Zeros(n: nat): (z: seq<byte>)
    ensures |z| == n
    ensures forall i | 0 <= i < n :: z[i] == 0
  {
    seq(n, _ => 0)
  }

  /** The exclusive or of the `n` low bits of two numbers. */
  function XorBits(a: nat, b: nat, n: nat): (x: nat)
    ensures x < Pow2(n)
    decreases n, a
  {
    if n == 0 then 0 else (a % 2 + b % 2) % 2 + 2 * XorBits(a / 2, b / 2, n - 1)
  }

  function XorByte(a: byte, b: byte): byte {
    assert Pow2(8) == 256;
    XorBits(a as int, b as int, 8) as byte
  }

  lemma {:induction false} XorBitsTwice(a: nat, k: nat, n: nat)
    requires a < Pow2(n)
    ensures XorBits(XorBits(a, k, n), k, n) == a
    decreases n
  {
    if n > 0 {
      HalfPath(a, n - 1);
      hide XorBits, Pow2;
      XorBitsTwice(a / 2, k / 2, n - 1);
      XorTwiceStep(a % 2, a / 2, k % 2, k / 2, n - 1);
      assert a == a % 2 + 2 * (a / 2) && k == k % 2 + 2 * (k / 2);
    }
  }

  lemma {:induction false} XorTwiceStep(x: nat, a: nat, y: nat, k: nat, n: nat)
    requires x < 2 && y < 2 && XorBits(XorBits(a, k, n), k, n) == a
    ensures XorBits(XorBits(x + 2 * a, y + 2 * k, n + 1), y + 2 * k, n + 1) == x + 2 * a
  {
    hide XorBits;
    XorBitsStep(x, a, y, k, n);
    XorBitsStep((x + y) % 2, XorBits(a, k, n), y, k, n);
    BitTwice(x, y);
  }

  lemma {:induction false} XorBitsStep(x: nat, a: nat, y: nat, b: nat, n: nat)
    requires x < 2 && y < 2
    ensures XorBits(x + 2 * a, y + 2 * b, n + 1) == (x + y) % 2 + 2 * XorBits(a, b, n)
  {
    LowBit(x, a);
    LowBit(y, b);
  }

  lemma {:induction false} BitTwice(a: nat, k: nat)
    requires a < 2 && k < 2
    ensures ((a + k) % 2 + k) % 2 == a
  {
  }

  lemma {:induction false} XorBitsZero(k: nat, n: nat)
    requires k < Pow2(n)
    ensures XorBits(0, k, n) == k
    decreases n
  {
    if n > 0 {
      HalfPath(k, n - 1);
      hide XorBits, Pow2;
      XorBitsZero(k / 2, n - 1);
      var bit, rest := k % 2, k / 2;
      assert k == bit + 2 * rest;
      XorBitsStep(0, 0, bit, rest, n - 1);
    }
  }

  /** XORing twice with the same byte changes nothing. */
  lemma {:induction false} XorTwice(a: byte, k: byte)
    ensures XorByte(XorByte(a, k), k) == a
  {
    assert Pow2(8) == 256;
    XorBitsTwice(a as int, k as int, 8);
  }

  lemma {:induction false} XorZero(k: byte)
    ensures XorByte(0, k) == k
  {
    assert Pow2(8) == 256;
    XorBitsZero(k as int, 8);
  }

  /** Bit `i` of an exclusive or is set exactly if that bit of one of the two is set. */
  lemma {:induction false} XorBitsAt(a: nat, b: nat, n: nat, i: nat)
    requires i < n
    ensures BitAt(XorBits(a, b, n), i) == if BitAt(a, i) == BitAt(b, i) then 0 else 1
    decreases n
  {
    var bit, rest := (a % 2 + b % 2) % 2, XorBits(a / 2, b / 2, n - 1);
    LowBit(bit, rest);
    if i > 0 {
      XorBitsAt(a / 2, b / 2, n - 1, i - 1);
    }
  }

  function BitAt(n: nat, i: nat): nat {
    if i == 0 then n % 2 else BitAt(n / 2, i - 1)
  }

  lemma {:induction false} XorByteAt(a: byte, b: byte, i: nat)
    requires i < 8
    ensures BitAt(XorByte(a, b) as int, i) == if BitAt(a as int, i) == BitAt(b as int, i) then 0 else 1
  {
    XorBitsAt(a as int, b as int, 8, i);
  }

  function Xor(a: seq<byte>, b: seq<byte>): (c: seq<byte>)
    requires |a| == |b|
    ensures |c| == |a|
    ensures forall i | 0 <= i < |a| :: c[i] == XorByte(a[i], b[i])
  {
    seq(|a|, i requires 0 <= i < |a| => XorByte(a[i], b[i]))
  }

  lemma {:induction false} XorXor(a: seq<byte>, k: seq<byte>)
    requires |a| == |k|
    ensures Xor(Xor(a, k), k) == a
  {
    forall i | 0 <= i < |a|
      ensures Xor(Xor(a, k), k)[i] == a[i]
    {
      XorTwice(a[i], k[i]);
    }
  }

  /** The `n` bytes of a stream that start at position `from`. */
  function Stream(f: StreamFn, key: seq<byte>, from: nat, n: nat): (s: seq<byte>)
    ensures |s| == n
    ensures forall i | 0 <= i < n :: s[i] == f(key, from + i)
  {
    seq(n, i requires 0 <= i < n => f(key, from + i))
  }

  // ---- integers as bytes -------------------------------------------------

  function ByteOf(n: nat): byte
    requires n < 256
  {
    n as byte
  }

  function IntOf(b: byte): (n: nat)
    ensures n < 256
  {
    b as int
  }

  lemma {:induction false} ByteRoundTrip(n: nat)
    requires n < 256
    ensures IntOf(ByteOf(n)) == n
  {
  }

  lemma {:induction false} IntRoundTrip(b: byte)
    ensures ByteOf(IntOf(b)) == b
  {
  }

  function Pow256(k: nat): (p: nat)
    ensures p >= 1
  {
    if k == 0 then 1 else 256 * Pow256(k - 1)
  }

  /** The `k` low bytes of `n`, least significant first. */
  function ToLE(n: nat, k: nat): (b: seq<byte>)
    ensures |b| == k
    decreases k, n
  {
    if k == 0 then [] else [ByteOf(n % 256)] + ToLE(n / 256, k - 1)
  }

  function FromLE(b: seq<byte>): nat
  {
    if b == [] then 0 else IntOf(b[0]) + 256 * FromLE(b[1..])
  }

  /** The `k` low bytes of `n`, most significant first. */
  function ToBE(n: nat, k: nat): (b: seq<byte>)
    ensures |b| == k
    decreases k, n
  {
    if k == 0 then [] else ToBE(n / 256, k - 1) + [ByteOf(n % 256)]
  }

  function FromBE(b: seq<byte>): nat
  {
    if b == [] then 0 else 256 * FromBE(b[..|b| - 1]) + IntOf(b[|b| - 1])
  }

  /** In little-endian bytes the first byte is the least significant one, ... */
  lemma {:induction false} FromLEPlaces(b: seq<byte>)
    ensures FromLE(b) == PlaceSum(b, |b|)
    decreases |b|
  {
    if b != [] {
      FromLEPlaces(b[1..]);
      PlaceSumShift(b, |b| - 1);
    }
  }

  /** The sum of the first `n` bytes, each times the power of 256 of its index. */
  function PlaceSum(b: seq<byte>, n: nat): nat
    requires n <= |b|
  {
    if n == 0 then 0 else PlaceSum(b, n - 1) + b[n - 1] as int * Pow256(n - 1)
  }

  lemma {:induction false} PlaceSumShift(b: seq<byte>, n: nat)
    requires n < |b|
    ensures PlaceSum(b, n + 1) == b[0] as int + 256 * PlaceSum(b[1..], n)
  {
    if n > 0 {
      PlaceSumShift(b, n - 1);
      MulLeft(b[n] as int, Pow256(n - 1));
    }
  }

  lemma {:induction false} MulLeft(a: nat, p: nat)
    ensures a * (256 * p) == 256 * (a * p)
  {
  }

  /** ... and big-endian bytes are the same bytes in reverse. */
  lemma {:induction false} BEIsReversedLE(b: seq<byte>)
    ensures FromBE(b) == FromLE(seq(|b|, i requires 0 <= i < |b| => b[|b| - 1 - i]))
  {
    if b != [] {
      var n := |b| - 1;
      var r := seq(|b|, i requires 0 <= i < |b| => b[|b| - 1 - i]);
      BEIsReversedLE(b[..n]);
      assert r[1..] == seq(n, i requires 0 <= i < n => b[..n][n - 1 - i]);
    }
  }

  lemma {:induction false} LERoundTrip(n: nat, k: nat)
    requires n < Pow256(k)
    ensures FromLE(ToLE(n, k)) == n
    decreases k
  {
    if k > 0 {
      ByteRoundTrip(n % 256);
      LERoundTrip(n / 256, k - 1);
      assert ToLE(n, k)[1..] == ToLE(n / 256, k - 1);
    }
  }

  lemma {:induction false} BERoundTrip(n: nat, k: nat)
    requires n < Pow256(k)
    ensures FromBE(ToBE(n, k)) == n
    decreases k
  {
    if k > 0 {
      ByteRoundTrip(n % 256);
      BERoundTrip(n / 256, k - 1);
      assert ToBE(n, k)[..k - 1] == ToBE(n / 256, k - 1);
    }
  }

  lemma {:induction false} FromLERoundTrip(b: seq<byte>)
    ensures FromLE(b) < Pow256(|b|)
    ensures ToLE(FromLE(b), |b|) == b
  {
    if b != [] {
      var high := FromLE(b[1..]);
      FromLERoundTrip(b[1..]);
      DigitFits(high, IntOf(b[0]), |b| - 1);
      ToLEStep(b[0], high, |b| - 1);
      assert b == [b[0]] + b[1..];
    }
  }

  lemma {:induction false} SplitDigit(high: nat, low: nat)
    requires low < 256
    ensures (256 * high + low) % 256 == low && (256 * high + low) / 256 == high
  {
  }

  lemma {:induction false} DigitFits(high: nat, low: nat, k: nat)
    requires high < Pow256(k) && low < 256
    ensures 256 * high + low < Pow256(k + 1)
  {
  }

  lemma {:induction false} ToLEStep(low: byte, high: nat, k: nat)
    ensures ToLE(256 * high + IntOf(low), k + 1) == [low] + ToLE(high, k)
  {
    SplitDigit(high, IntOf(low));
    IntRoundTrip(low);
  }

  lemma {:induction false} FromBERoundTrip(b: seq<byte>)
    ensures FromBE(b) < Pow256(|b|)
    ensures ToBE(FromBE(b), |b|) == b
  {
    if b != [] {
      var n := |b| - 1;
      var high := FromBE(b[..n]);
      FromBERoundTrip(b[..n]);
      DigitFits(high, IntOf(b[n]), n);
      ToBEStep(high, b[n], n);
      assert b == b[..n] + [b[n]];
    }
  }

  lemma {:induction false} ToBEStep(high: nat, low: byte, k: nat)
    ensures ToBE(256 * high + IntOf(low), k + 1) == ToBE(high, k) + [low]
  {
    SplitDigit(high, IntOf(low));
    IntRoundTrip(low);
  }

  /** Appending high zero bytes leaves the little-endian value unchanged. */
  lemma {:induction false} FromLEPadded(b: seq<byte>, j: nat)
    ensures FromLE(b + Zeros(j)) == FromLE(b)
    decreases |b| + j
  {
    var p := b + Zeros(j);
    if b != [] {
      FromLEPadded(b[1..], j);
      assert p[1..] == b[1..] + Zeros(j);
    } else if j > 0 {
      FromLEPadded([], j - 1);
      assert p[1..] == [] + Zeros(j - 1);
      assert IntOf(0) == 0;
    }
  }

  /** `to_bytes_le` of the bigint crate: the little-endian digits without high
      zero bytes, except that zero is written as one zero byte. */
  function MinLE(n: nat): (b: seq<byte>)
    ensures b != []
  {
    if n < 256 then [ByteOf(n)] else [ByteOf(n % 256)] + MinLE(n / 256)
  }

  lemma {:induction false} MinLEValue(n: nat)
    ensures FromLE(MinLE(n)) == n
  {
    if n < 256 {
      ByteRoundTrip(n);
      assert MinLE(n)[1..] == [];
    } else {
      ByteRoundTrip(n % 256);
      MinLEValue(n / 256);
      assert MinLE(n)[1..] == MinLE(n / 256);
    }
  }

  lemma {:induction false} MinLELength(n: nat, k: nat)
    requires k > 0 && n < Pow256(k)
    ensures |MinLE(n)| <= k
    decreases k
  {
    assert Pow256(1) == 256 * Pow256(0);
    if n >= 256 {
      MinLELength(n / 256, k - 1);
    }
  }

  /** `b` followed by as many zero bytes as make it `k` long, if it is shorter. */
  function PadTo(b: seq<byte>, k: nat): (p: seq<byte>)
    ensures |p| == if |b| < k then k else |b|
  {
    if |b| < k then b + Zeros(k - |b|) else b
  }

  /** Dropping the high zero bytes and padding again restores every value that
      fits, and every byte string. */
  lemma {:induction false} PaddedRoundTrip(n: nat, k: nat)
    requires k > 0 && n < Pow256(k)
    ensures |PadTo(MinLE(n), k)| == k
    ensures FromLE(PadTo(MinLE(n), k)) == n
    ensures PadTo(MinLE(n), k) == ToLE(n, k)
  {
    MinLELength(n, k);
    MinLEValue(n);
    var m := MinLE(n);
    FromLEPadded(m, k - |m|);
    assert PadTo(m, k) == m + Zeros(k - |m|);
    FromLERoundTrip(PadTo(m, k));
  }
}
