/** Model of src/components/util.ts: the working-size rule used to pick a
    transform size from a container dimension, and the unpacking of a
    32-bit packed colour into its four byte channels. */
module Util {

  /** Bounds of the working size: `1 << 15` is where the search starts and
      64 is the floor the halving loop never goes below. */
  const MaxSize: int := 32768
  const MinSize: int := 64

  /** p is 2^k for some k >= 0 */
  predicate IsPowerOfTwo(p: int)
    decreases if p > 0 then p else 0
  {
    p == 1 || (p > 1 && p % 2 == 0 && IsPowerOfTwo(p / 2))
  }

  /** 2^k */
  function Pow2(k: nat): (p: int)
    ensures p >= 1
  {
    if k == 0 then 1 else 2 * Pow2(k - 1)
  }

  /** Between two distinct powers of two there is at least a factor two. */
  lemma {:induction false} PowerOfTwoGap(a: int, b: int)
    requires IsPowerOfTwo(a) && IsPowerOfTwo(b) && a < b
    ensures 2 * a <= b
    decreases b
  {
    if a != 1 {
      PowerOfTwoGap(a / 2, b / 2);
    }
  }

  /** Doubling a power of two gives a power of two. */
  lemma DoubleIsPowerOfTwo(p: int)
    requires IsPowerOfTwo(p)
    ensures IsPowerOfTwo(2 * p)
  {
    assert (2 * p) / 2 == p && (2 * p) % 2 == 0;
  }

  /** 2^k is a power of two. */
  lemma {:induction false} Pow2IsPowerOfTwo(k: nat)
    ensures IsPowerOfTwo(Pow2(k))
  {
    if k > 0 {
      Pow2IsPowerOfTwo(k - 1);
      DoubleIsPowerOfTwo(Pow2(k - 1));
    }
  }

  lemma MaxSizeIsPowerOfTwo()
    ensures IsPowerOfTwo(MaxSize) && IsPowerOfTwo(MinSize) && Pow2(15) == MaxSize
  {
    Pow2IsPowerOfTwo(15);
    Pow2IsPowerOfTwo(6);
    assert Pow2(6) == 64;
    assert Pow2(15) == 32768;
  }

  /** What the working size of `n` is: a power of two in [64, 32768] that is
      not above `n` (unless it is the floor 64) and whose double is above `n`
      (unless it is the ceiling 32768). In other words the largest power of
      two not above `n`, clamped to [64, 32768]. */
  predicate IsWorkingSize(n: real, r: int)
  {
    IsPowerOfTwo(r) && MinSize <= r <= MaxSize
    && (r == MinSize || r as real <= n)
    && (r == MaxSize || n < (2 * r) as real)
  }

  /** A reference definition of the working size, independent of the
      halving loop: climb upwards from 64 while the next power of two still
      fits under `n` and under the ceiling. */
  function GrowFrom(r: int, n: real): (s: int)
    requires IsPowerOfTwo(r) && MinSize <= r <= MaxSize
    requires r == MinSize || r as real <= n
    ensures IsWorkingSize(n, s)
    decreases MaxSize - r
  {
    if r == MaxSize || n < (2 * r) as real then r
    else
      MaxSizeIsPowerOfTwo();
      PowerOfTwoGap(r, MaxSize);
      DoubleIsPowerOfTwo(r);
      GrowFrom(2 * r, n)
  }

  /** The working size of `n`. */
  function WorkingSize(n: real): (r: int)
    ensures IsWorkingSize(n, r)
  {
    GrowFrom(MinSize, n)
  }

  /** The characterisation pins the working size down: there is exactly one. */
  lemma WorkingSizeUnique(n: real, r: int)
    requires IsWorkingSize(n, r)
    ensures r == WorkingSize(n)
  {
    var s := WorkingSize(n);
    if r < s {
      PowerOfTwoGap(r, s);
    } else if s < r {
      PowerOfTwoGap(s, r);
    }
  }

  /** A larger dimension never yields a smaller working size. */
  lemma WorkingSizeMonotone(n: real, m: real)
    requires n <= m
    ensures WorkingSize(n) <= WorkingSize(m)
  {
    var r, s := WorkingSize(n), WorkingSize(m);
    if s < r {
      PowerOfTwoGap(s, r);
    }
  }

  /** Every dimension below 128, negative ones included, gives the floor 64:
      the rule undershoots the nearest power of two. */
  lemma WorkingSizeBelow128(n: real)
    requires n < 128.0
    ensures WorkingSize(n) == MinSize
  {
    var r := WorkingSize(n);
    if r != MinSize {
      PowerOfTwoGap(MinSize, r);
    }
  }

  /** From 32768 upwards the working size is the ceiling. */
  lemma WorkingSizeAtCeiling(n: real)
    requires n >= MaxSize as real
    ensures WorkingSize(n) == MaxSize
  {
    var r := WorkingSize(n);
    if r != MaxSize {
      MaxSizeIsPowerOfTwo();
      PowerOfTwoGap(r, MaxSize);
    }
  }

  /** Two pinned values of the rule: 100 gives 64 and 500 gives 256. */
  lemma WorkingSizeExamples()
    ensures WorkingSize(100.0) == 64
    ensures WorkingSize(500.0) == 256
  {
    WorkingSizeBelow128(100.0);
    WorkingSizeUnique(500.0, 256);
  }

  /** After `halvings` halvings of 2^15 the candidate is 2^(15 - halvings). */
  predicate HalvedFromMax(i: int, halvings: nat)
  {
    halvings <= 9 && i == Pow2(15 - halvings)
  }

  /** One more halving of a candidate above 64 stays within nine. */
  lemma HalveAgain(i: int, halvings: nat)
    requires HalvedFromMax(i, halvings) && i > MinSize
    ensures HalvedFromMax(i / 2, halvings + 1)
  {
    assert Pow2(6) == MinSize;
  }

  /** closestPowerOfTwo: start at 2^15 and halve while the candidate is
      above both 64 and `n`. `n` is any JavaScript number short of NaN and
      the infinities, so it may be fractional or negative. The ghost result
      counts the halvings: at most nine, the result being 2^(15 - halvings). */
  method ClosestPowerOfTwo(n: real) returns (i: int, ghost halvings: nat)
    ensures i == WorkingSize(n)
    ensures HalvedFromMax(i, halvings)
    ensures n >= MaxSize as real ==> halvings == 0
  {
    i := MaxSize;
    halvings := 0;
    MaxSizeIsPowerOfTwo();
    while i > MinSize && i as real > n
      invariant HalvedFromMax(i, halvings)
      invariant IsPowerOfTwo(i) && MinSize <= i <= MaxSize
      invariant i == MaxSize || n < (2 * i) as real
      invariant n >= MaxSize as real ==> halvings == 0
      decreases i
    {
      HalveAgain(i, halvings);
      PowerOfTwoGap(MinSize, i);
      i := i / 2;
      halvings := halvings + 1;
    }
    WorkingSizeUnique(n, i);
  }

  /** The four channels of a packed colour. */
  datatype Rgba = Rgba(r: int, g: int, b: int, a: int)

  /** JavaScript's ToInt32: the integer taken modulo 2^32 and read as a
      two's-complement signed 32-bit value. */
  function ToInt32(x: int): (s: int)
    ensures -0x8000_0000 <= s < 0x8000_0000
    ensures (s - x) % 0x1_0000_0000 == 0
  {
    var u := x % 0x1_0000_0000;
    if u < 0x8000_0000 then u else u - 0x1_0000_0000
  }

  /** `s >> k` on a signed 32-bit value is an arithmetic shift, which is
      division by 2^k rounded towards minus infinity; `& 0xFF` keeps the low
      byte of the two's-complement pattern, which is the remainder modulo
      256 that is never negative. Dafny's `/` and `%` by a positive divisor
      are exactly these; `divisor` is 2^k. */
  function ShiftMask(s: int, divisor: int): (byte: int)
    requires divisor > 0
  {
    (s / divisor) % 256
  }

  /** splitColor: byte 0 is red, byte 1 green, byte 2 blue, byte 3 alpha. */
  function SplitColor(rgba: int): (c: Rgba)
    ensures 0 <= c.r < 256 && 0 <= c.g < 256 && 0 <= c.b < 256 && 0 <= c.a < 256
  {
    var s := ToInt32(rgba);
    Rgba(s % 256, ShiftMask(s, 0x100), ShiftMask(s, 0x1_0000), ShiftMask(s, 0x100_0000))
  }

  /** Packing four channels back into one unsigned 32-bit word. */
  function PackColor(c: Rgba): (word: int)
  {
    c.r + 0x100 * c.g + 0x1_0000 * c.b + 0x100_0000 * c.a
  }

  predicate IsByteColor(c: Rgba)
  {
    0 <= c.r < 256 && 0 <= c.g < 256 && 0 <= c.b < 256 && 0 <= c.a < 256
  }

  /** Division facts for a value split at a positive base. */
  lemma DivModSplit(q: int, r: int, d: int)
    requires d > 0 && 0 <= r < d
    ensures (q * d + r) / d == q && (q * d + r) % d == r
  {
    var x := q * d + r;
    var e := x / d - q;
    assert e * d == r - x % d;
  }

  /** The channels reassemble the colour modulo 2^32: red is bits 0-7, green
      bits 8-15, blue bits 16-23 and alpha bits 24-31. */
  lemma SplitColorReconstructs(rgba: int)
    ensures PackColor(SplitColor(rgba)) == rgba % 0x1_0000_0000
  {
    var s := ToInt32(rgba);
    var c := SplitColor(rgba);
    // the base-256 digits of s, the top one signed
    var q1, q2, q3 := s / 0x100, s / 0x1_0000, s / 0x100_0000;
    ShiftTwice(s, 0x100);
    ShiftTwice(s, 0x1_0000);
    assert s == 0x100 * q1 + c.r;
    assert q1 == 0x100 * q2 + c.g;
    assert q2 == 0x100 * q3 + c.b;
    assert s == c.r + 0x100 * c.g + 0x1_0000 * c.b + 0x100_0000 * q3;
    assert -0x80 <= q3 < 0x80;
    if q3 >= 0 {
      assert c.a == q3;
      assert 0 <= s;
    } else {
      assert c.a == q3 + 0x100;
      assert s < 0;
    }
  }

  /** Shifting right by `a` and then by 8 bits is shifting by the sum. */
  lemma ShiftTwice(x: int, a: int)
    requires a == 0x100 || a == 0x1_0000
    ensures x / a / 0x100 == x / (a * 0x100)
  {
    var q := x / a / 0x100;
    var r := x % a + a * ((x / a) % 0x100);
    assert x == q * (a * 0x100) + r && 0 <= r < a * 0x100;
    DivModSplit(q, r, a * 0x100);
  }

  /** Splitting a packed byte colour gives its channels back. */
  lemma PackSplitRoundTrip(c: Rgba)
    requires IsByteColor(c)
    ensures SplitColor(PackColor(c)) == c
  {
    var p := PackColor(c);
    assert 0 <= p < 0x1_0000_0000;
    DivModSplit(0, p, 0x1_0000_0000);
    SplitColorReconstructs(p);
    PackUnique(c, SplitColor(p));
  }

  /** Byte channels are determined by the word they pack into. */
  lemma PackUnique(c: Rgba, d: Rgba)
    requires IsByteColor(c) && IsByteColor(d) && PackColor(c) == PackColor(d)
    ensures c == d
  {
    var qc := c.g + 0x100 * c.b + 0x1_0000 * c.a;
    var qd := d.g + 0x100 * d.b + 0x1_0000 * d.a;
    DivModSplit(qc, c.r, 256);
    DivModSplit(qd, d.r, 256);
    var pc := c.b + 0x100 * c.a;
    var pd := d.b + 0x100 * d.a;
    DivModSplit(pc, c.g, 256);
    DivModSplit(pd, d.g, 256);
    DivModSplit(c.a, c.b, 256);
    DivModSplit(d.a, d.b, 256);
  }
}
