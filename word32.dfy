/**
 * Vocabulary for 32-bit machine words.
 *
 * Both `int` and `unsigned int` of the C++ library are 32-bit words here, modelled as
 * `bv32`. A word is described from its lowest bit upwards: `Low(x)` is bit 0 and
 * `Half(x)` is the word that remains once bit 0 is shifted out. The bits of a word, how
 * many of them are set and which number they denote are all defined by that recursion over
 * a width `w`, independently of the bit tricks the library uses, so that each of its
 * operations can be stated against them.
 */
module Word32 {

  /** Two to the power `n`. */
  function Pow2(n: nat): (p: nat)
    ensures p >= 1
  {
    if n == 0 then 1 else 2 * Pow2(n - 1)
  }

  /** Powers of two grow with the exponent. */
  lemma {:induction false} Pow2Monotone(j: nat, k: nat)
    ensures j <= k ==> Pow2(j) <= Pow2(k)
  {
    if j < k {
      Pow2Monotone(j, k - 1);
    }
  }

  lemma Pow2Values()
    ensures Pow2(17) == 0x2_0000
    ensures Pow2(31) == 0x8000_0000 && Pow2(32) == 0x1_0000_0000
  {
    assert Pow2(10) == 0x400;
    assert Pow2(20) == 0x10_0000;
    assert Pow2(30) == 0x4000_0000;
  }

  // ---------------------------------------------------------------------------------------
  // A word from its lowest bit up
  // ---------------------------------------------------------------------------------------

  /** Bit 0 of `x`, as the number 0 or 1. */
  function Low(x: bv32): (b: nat)
    ensures b <= 1
  {
    if x & 1 == 1 then 1 else 0
  }

  /** `x` shifted right by one place: bits 1 to 31 move down and a zero enters at the top. */
  function Half(x: bv32): bv32
  {
    x >> 1
  }

  /** A word is zero exactly when its lowest bit and the rest of it are. */
  lemma HalfZero(x: bv32)
    ensures x == 0 <==> Low(x) == 0 && Half(x) == 0
  {
  }

  /** A word is determined by its lowest bit and the rest of it. */
  lemma HalfEqual(a: bv32, b: bv32)
    requires Low(a) == Low(b) && Half(a) == Half(b)
    ensures a == b
  {
  }

  /** Whether bit `i` of `x` is set (bit 0 is the least significant; none from 32 up). */
  predicate Bit(x: bv32, i: nat)
  {
    if i == 0 then Low(x) == 1 else Bit(Half(x), i - 1)
  }

  // ---------------------------------------------------------------------------------------
  // Widths
  // ---------------------------------------------------------------------------------------

  /** The word 2^w - 1, whose `w` lowest bits are set (all 32 of them once `w >= 32`). */
  function LowMask(w: nat): bv32
  {
    if w == 0 then 0 else Grow(LowMask(w - 1))
  }

  /** `m` moved up one place with a set bit entering at the bottom: `(m << 1) | 1`. */
  function Grow(m: bv32): bv32
  {
    (m << 1) | 1
  }

  /** The bits of `x` outside the mask `m`. */
  function Outside(x: bv32, m: bv32): bv32
  {
    x & !m
  }

  /** `x` has no set bit from bit `w` up: it is below 2^w. */
  predicate Fits(x: bv32, w: nat)
  {
    Outside(x, LowMask(w)) == 0
  }

  lemma HalfOutside(x: bv32, m: bv32)
    requires Outside(x, Grow(m)) == 0
    ensures Outside(Half(x), m) == 0
  {
  }

  /** What fits in `w` bits, shifted down one place, fits in `w - 1` bits. */
  lemma FitsStep(x: bv32, w: nat)
    requires w > 0 && Fits(x, w)
    ensures Fits(Half(x), w - 1)
  {
    HalfOutside(x, LowMask(w - 1));
  }

  /** Only zero fits in no bits. */
  lemma FitsNone(x: bv32)
    requires Fits(x, 0)
    ensures x == 0
  {
  }

  /** Every word fits in 32 bits. */
  lemma FitsAll(x: bv32)
    ensures Fits(x, 32)
  {
    assert LowMask(8) == 0xFF;
    assert LowMask(16) == 0xFFFF;
    assert LowMask(24) == 0xFF_FFFF;
    assert LowMask(32) == 0xFFFF_FFFF;
  }

  // ---------------------------------------------------------------------------------------
  // Population count
  // ---------------------------------------------------------------------------------------

  /** The number of set bits among the `w` lowest bits of `x`. */
  function CountBits(x: bv32, w: nat): (c: nat)
    ensures c <= w
  {
    if w == 0 then 0 else Low(x) + CountBits(Half(x), w - 1)
  }

  /** The population count of `x`: the number of its 32 bits that are set. */
  function PopCount(x: bv32): (c: nat)
    ensures c <= 32
  {
    CountBits(x, 32)
  }

  /** No bit is counted exactly when the word (which fits in the width) is zero. */
  lemma {:induction false} CountBitsZero(x: bv32, w: nat)
    requires Fits(x, w)
    ensures CountBits(x, w) == 0 <==> x == 0
  {
    if w == 0 {
      FitsNone(x);
    } else {
      FitsStep(x, w);
      CountBitsZero(Half(x), w - 1);
      HalfZero(x);
    }
  }

  /** A word has no set bits exactly when it is zero. */
  lemma PopCountZero(x: bv32)
    ensures PopCount(x) == 0 <==> x == 0
  {
    FitsAll(x);
    CountBitsZero(x, 32);
  }

  /** `x & (x - 1)`: `x` with its lowest set bit cleared (see `CountBitsClearLowest`). */
  function ClearLowest(x: bv32): bv32
  {
    x & (x - 1)
  }

  /** When bit 0 is set, it is the bit `x & (x - 1)` clears. */
  lemma ClearLowestOdd(x: bv32)
    requires Low(x) == 1
    ensures Low(ClearLowest(x)) == 0 && Half(ClearLowest(x)) == Half(x)
  {
  }

  /** When bit 0 of a nonzero word is clear, the lowest set bit is found in the rest. */
  lemma ClearLowestEven(x: bv32)
    requires x != 0 && Low(x) == 0
    ensures Low(ClearLowest(x)) == 0 && Half(x) != 0
    ensures Half(ClearLowest(x)) == ClearLowest(Half(x))
  {
  }

  /** Clearing the lowest set bit of a nonzero word removes exactly one set bit. */
  lemma {:induction false} CountBitsClearLowest(x: bv32, w: nat)
    requires x != 0 && Fits(x, w)
    ensures CountBits(ClearLowest(x), w) == CountBits(x, w) - 1
  {
    if w == 0 {
      FitsNone(x);
    } else if Low(x) == 1 {
      ClearLowestOdd(x);
    } else {
      ClearLowestEven(x);
      FitsStep(x, w);
      CountBitsClearLowest(Half(x), w - 1);
    }
  }

  /** `x & (x - 1)` has one set bit fewer than a nonzero `x`. */
  lemma PopCountClearLowest(x: bv32)
    requires x != 0
    ensures PopCount(x & (x - 1)) == PopCount(x) - 1
  {
    FitsAll(x);
    CountBitsClearLowest(x, 32);
  }

  /** Clearing a bit of a nonzero word makes it smaller as an unsigned number. */
  lemma ClearLowestDecreases(x: bv32)
    requires x != 0
    ensures x & (x - 1) < x
  {
  }

  // ---------------------------------------------------------------------------------------
  // Set bits
  // ---------------------------------------------------------------------------------------

  /** The zero word has no set bit. */
  lemma {:induction false} NoBitOfZero(i: nat)
    ensures !Bit(0, i)
  {
    if i > 0 {
      assert Half(0) == 0;
      NoBitOfZero(i - 1);
    }
  }

  /** Bit `i` is the lowest set bit of `x`. */
  predicate LowestBit(x: bv32, i: nat)
  {
    Bit(x, i) && forall j: nat :: j < i ==> !Bit(x, j)
  }

  /** A nonzero word that fits in `w` bits has a lowest set bit, below `w`. */
  lemma {:induction false} SomeBitSet(x: bv32, w: nat) returns (i: nat)
    requires x != 0 && Fits(x, w)
    ensures i < w && LowestBit(x, i)
  {
    if w == 0 {
      FitsNone(x);
    } else if Low(x) == 1 {
      i := 0;
    } else {
      HalfZero(x);
      FitsStep(x, w);
      var j := SomeBitSet(Half(x), w - 1);
      i := j + 1;
      forall k: nat | k < i
        ensures !Bit(x, k)
      {
        if k > 0 {
          assert !Bit(Half(x), k - 1);
        }
      }
    }
  }

  /** `x & (x - 1)` clears the lowest set bit of `x`, bit `i`, and keeps every other bit. */
  lemma {:induction false} ClearLowestBits(x: bv32, i: nat, j: nat)
    requires LowestBit(x, i)
    ensures Bit(ClearLowest(x), j) <==> Bit(x, j) && j != i
  {
    if i == 0 {
      ClearLowestOdd(x);
    } else {
      NoBitOfZero(i);
      assert !Bit(x, 0);
      ClearLowestEven(x);
      forall k: nat | k < i - 1
        ensures !Bit(Half(x), k)
      {
        assert !Bit(x, k + 1);
      }
      if j > 0 {
        ClearLowestBits(Half(x), i - 1, j - 1);
      }
    }
  }

  /** A word has a set bit exactly when it is nonzero. */
  lemma BitSetIffNonzero(x: bv32)
    ensures x != 0 <==> exists i: nat :: i < 32 && Bit(x, i)
  {
    if x != 0 {
      FitsAll(x);
      var i := SomeBitSet(x, 32);
      assert i < 32 && Bit(x, i);
      assert exists j: nat :: j < 32 && Bit(x, j);
    } else {
      forall i: nat | i < 32
        ensures !Bit(x, i)
      {
        NoBitOfZero(i);
      }
    }
  }

  // ---------------------------------------------------------------------------------------
  // Values
  // ---------------------------------------------------------------------------------------

  /** The number the `w` lowest bits of `x` denote as an unsigned binary numeral. */
  function Value(x: bv32, w: nat): nat
  {
    if w == 0 then 0 else Low(x) + 2 * Value(Half(x), w - 1)
  }

  /** A `w`-bit numeral is below 2^w. */
  lemma {:induction false} ValueBound(x: bv32, w: nat)
    ensures Value(x, w) < Pow2(w)
  {
    if w > 0 {
      ValueBound(Half(x), w - 1);
    }
  }

  /** The number an `unsigned int` denotes. */
  function Unsigned(x: bv32): nat
  {
    Value(x, 32)
  }

  /** The sign bit, bit 31, is set. */
  predicate Negative(x: bv32)
  {
    x & 0x8000_0000 != 0
  }

  /**
   * The two's-complement value of a word, the number an `int` denotes: bits 0 to 30 weigh
   * 2^i and bit 31 weighs -2^31.
   */
  function Signed(x: bv32): (v: int)
    ensures -0x8000_0000 <= v < 0x8000_0000
    ensures v < 0 <==> Negative(x)
    ensures v == Unsigned(x) || v == Unsigned(x) - 0x1_0000_0000
  {
    Pow2Values();
    ValueBound(x, 32);
    UnsignedTop(x);
    Unsigned(x) - (if Negative(x) then Pow2(32) else 0)
  }

  /** The top bit of a `w`-bit numeral is set exactly when the numeral reaches 2^(w-1). */
  lemma {:induction false} ValueTop(x: bv32, w: nat)
    requires w > 0
    ensures Value(x, w) >= Pow2(w - 1) <==> Bit(x, w - 1)
  {
    if w > 1 {
      ValueTop(Half(x), w - 1);
    }
  }

  /** The word with only bit `i` set, for `i` below 32. */
  function SingleBit(i: nat): bv32
  {
    if i == 0 then 1 else Double(SingleBit(i - 1))
  }

  /** `t << 1`. */
  function Double(t: bv32): bv32
  {
    t << 1
  }

  /** `x` and `t` have a set bit in common. */
  predicate Meets(x: bv32, t: bv32)
  {
    x & t != 0
  }

  lemma HalfMeets(x: bv32, t: bv32)
    ensures Meets(Half(x), t) <==> Meets(x, Double(t))
  {
  }

  lemma LowMeets(x: bv32)
    ensures Low(x) == 1 <==> Meets(x, 1)
  {
  }

  /** Bit `i` of `x` is set exactly when `x` meets `1 << i`. */
  lemma {:induction false} BitMeets(x: bv32, i: nat)
    ensures Bit(x, i) <==> Meets(x, SingleBit(i))
  {
    if i == 0 {
      LowMeets(x);
    } else {
      BitMeets(Half(x), i - 1);
      HalfMeets(x, SingleBit(i - 1));
    }
  }

  lemma SingleBit31()
    ensures SingleBit(31) == 0x8000_0000
  {
    assert SingleBit(8) == 0x100;
    assert SingleBit(16) == 0x1_0000;
    assert SingleBit(24) == 0x100_0000;
  }

  /** An unsigned number reaches 2^31 exactly when its sign bit is set. */
  lemma UnsignedTop(x: bv32)
    ensures Unsigned(x) >= 0x8000_0000 <==> Negative(x)
  {
    ValueTop(x, 32);
    Pow2Values();
    BitMeets(x, 31);
    SingleBit31();
  }

  /** Two words that fit in `w` bits and denote the same number are the same word. */
  lemma {:induction false} ValueInjective(a: bv32, b: bv32, w: nat)
    requires Fits(a, w) && Fits(b, w) && Value(a, w) == Value(b, w)
    ensures a == b
  {
    if w == 0 {
      FitsNone(a);
      FitsNone(b);
    } else {
      FitsStep(a, w);
      FitsStep(b, w);
      ValueInjective(Half(a), Half(b), w - 1);
      HalfEqual(a, b);
    }
  }

  /** Distinct words have distinct two's-complement values. */
  lemma SignedInjective(a: bv32, b: bv32)
    requires Signed(a) == Signed(b)
    ensures a == b
  {
    Pow2Values();
    FitsAll(a);
    FitsAll(b);
    ValueInjective(a, b, 32);
  }

  /** A numeral is odd exactly when its bit 0 is set. */
  lemma ValueParity(x: bv32, w: nat)
    requires w > 0
    ensures Value(x, w) % 2 == Low(x)
  {
  }

  /** A two's-complement value is odd exactly when bit 0 is set. */
  lemma SignedParity(x: bv32)
    ensures Signed(x) % 2 == Low(x)
  {
    ValueParity(x, 32);
    Pow2Values();
  }

  /** The 31 low bits all set denote 2^31 - 1 (evaluated two bits at a time). */
  lemma ValueLowOnes()
    ensures Value(0x7FFF_FFFF, 31) == 0x7FFF_FFFF
  {
    assert Value(0x3, 2) == 0x3;
    assert Value(0xF, 4) == 0xF;
    assert Value(0x3F, 6) == 0x3F;
    assert Value(0xFF, 8) == 0xFF;
    assert Value(0x3FF, 10) == 0x3FF;
    assert Value(0xFFF, 12) == 0xFFF;
    assert Value(0x3FFF, 14) == 0x3FFF;
    assert Value(0xFFFF, 16) == 0xFFFF;
    assert Value(0x3_FFFF, 18) == 0x3_FFFF;
    assert Value(0xF_FFFF, 20) == 0xF_FFFF;
    assert Value(0x3F_FFFF, 22) == 0x3F_FFFF;
    assert Value(0xFF_FFFF, 24) == 0xFF_FFFF;
    assert Value(0x3FF_FFFF, 26) == 0x3FF_FFFF;
    assert Value(0xFFF_FFFF, 28) == 0xFFF_FFFF;
    assert Value(0x3FFF_FFFF, 30) == 0x3FFF_FFFF;
  }

  /** The all-ones word is the `int` -1, and the word below it is -2. */
  lemma SignedMinusOneTwo()
    ensures Signed(0xFFFF_FFFF) == -1 && Signed(0xFFFF_FFFE) == -2
  {
    ValueLowOnes();
    assert Half(0xFFFF_FFFF) == 0x7FFF_FFFF && Half(0xFFFF_FFFE) == 0x7FFF_FFFF;
    Pow2Values();
  }

  /** The zero word denotes 0 at every width. */
  lemma {:induction false} ValueOfZero(w: nat)
    ensures Value(0, w) == 0
  {
    if w > 0 {
      assert Half(0) == 0;
      ValueOfZero(w - 1);
    }
  }

  // ---------------------------------------------------------------------------------------
  // Shifting right by several places
  // ---------------------------------------------------------------------------------------

  /** `x` shifted right by `k` places, one place at a time. */
  function Halves(x: bv32, k: nat): bv32
  {
    if k == 0 then x else Half(Halves(x, k - 1))
  }

  /** Shifting by `j` and then by `k` places is shifting by `j + k`. */
  lemma {:induction false} HalvesAdd(x: bv32, j: nat, k: nat)
    ensures Halves(Halves(x, j), k) == Halves(x, j + k)
  {
    if k > 0 {
      HalvesAdd(x, j, k - 1);
    }
  }

  /** What fits in `w` bits, shifted right by `k` places, fits in `w - k` bits. */
  lemma {:induction false} HalvesFit(x: bv32, k: nat, w: nat)
    requires k <= w && Fits(x, w)
    ensures Fits(Halves(x, k), w - k)
  {
    if k > 0 {
      HalvesFit(x, k - 1, w);
      FitsStep(Halves(x, k - 1), w - k + 1);
    }
  }

  /** Every bit is gone after 32 places. */
  lemma HalvesAll(x: bv32)
    ensures Halves(x, 32) == 0
  {
    FitsAll(x);
    HalvesFit(x, 32, 32);
    FitsNone(Halves(x, 32));
  }

  lemma MulZero(p: int, v: int)
    requires v == 0
    ensures p * v == 0
  {
  }

  lemma MulCongruent(p: int, a: int, b: int)
    requires a == b
    ensures p * a == p * b
  {
  }

  lemma MulDistributes(p: int, l: int, v: int)
    ensures p * (l + 2 * v) == p * l + (2 * p) * v
  {
  }

  lemma MulAtLeast(d: int, m: int)
    requires d > 0 && m >= 1
    ensures d * m >= d
  {
  }

  lemma MulDifference(d: int, a: int, b: int)
    ensures d * a - d * b == d * (a - b)
  {
  }

  /** The quotient of Euclidean division is the only `q` leaving a remainder in `[0, d)`. */
  lemma DivUnique(a: int, d: int, q: int, r: int)
    requires d > 0 && 0 <= r < d && a == d * q + r
    ensures a / d == q
  {
    var q' := a / d;
    assert a == d * q' + a % d;
    MulDifference(d, q', q);
    if q' > q {
      MulAtLeast(d, q' - q);
    } else if q' < q {
      MulAtLeast(d, q - q');
      MulDifference(d, q, q');
    }
  }

  lemma ValueStep(x: bv32, w: nat)
    requires w > 0
    ensures Value(x, w) == Low(x) + 2 * Value(Half(x), w - 1)
  {
  }

  /** The top bit of a `k`-bit numeral is bit `k - 1`, found `k - 1` places down. */
  lemma {:induction false} ValueTopStep(x: bv32, k: nat)
    requires k > 0
    ensures Value(x, k) == Value(x, k - 1) + Pow2(k - 1) * Low(Halves(x, k - 1))
  {
    if k > 1 {
      ValueTopStep(Half(x), k - 1);
      HalvesAdd(x, 1, k - 2);
      assert Halves(x, 1) == Half(x);
    }
  }

  /** A `w`-bit numeral is its `k` low bits plus 2^k times the numeral above them. */
  lemma {:induction false} ValueSplit(x: bv32, k: nat, w: nat)
    requires k <= w
    ensures Value(x, w) == Value(x, k) + Pow2(k) * Value(Halves(x, k), w - k)
  {
    if k > 0 {
      ValueSplit(x, k - 1, w);
      var h := Halves(x, k - 1);
      ValueStep(h, w - k + 1);
      ValueTopStep(x, k);
      MulDistributes(Pow2(k - 1), Low(h), Value(Half(h), w - k));
    }
  }

  /** A word with nothing from bit `n` up denotes what its `n` low bits do. */
  lemma ValueHigh(y: bv32, n: nat)
    requires n <= 32 && Halves(y, n) == 0
    ensures Unsigned(y) == Value(y, n)
  {
    ValueSplit(y, n, 32);
    ValueOfZero(32 - n);
    MulZero(Pow2(n), Value(Halves(y, n), 32 - n));
  }

  /**
   * Shifting an unsigned word right by `k` places divides it by 2^k: what is shifted out is
   * the remainder, the numeral of the `k` low bits.
   */
  lemma UnsignedShift(x: bv32, k: nat)
    requires k <= 32
    ensures Unsigned(x) == Pow2(k) * Unsigned(Halves(x, k)) + Value(x, k)
    ensures Unsigned(Halves(x, k)) == Unsigned(x) / Pow2(k)
  {
    var y := Halves(x, k);
    ValueSplit(x, k, 32);
    HalvesAdd(x, k, 32 - k);
    HalvesAll(x);
    ValueHigh(y, 32 - k);
    MulCongruent(Pow2(k), Unsigned(y), Value(y, 32 - k));
    ValueBound(x, k);
    DivUnique(Unsigned(x), Pow2(k), Unsigned(y), Value(x, k));
  }

  /** A word with a single set bit, bit `k`, denotes 2^k. */
  lemma {:induction false} OneBitIsPower(x: bv32, w: nat) returns (k: nat)
    requires Fits(x, w) && CountBits(x, w) == 1
    ensures k < w && Value(x, w) == Pow2(k)
  {
    if w == 0 {
      FitsNone(x);
    } else {
      FitsStep(x, w);
      if Low(x) == 1 {
        CountBitsZero(Half(x), w - 1);
        ValueOfZero(w - 1);
        k := 0;
      } else {
        var j := OneBitIsPower(Half(x), w - 1);
        k := j + 1;
      }
    }
  }

  /** A word that denotes a power of two has a single set bit. */
  lemma {:induction false} PowerHasOneBit(x: bv32, w: nat, k: nat)
    requires k < w && Fits(x, w) && Value(x, w) == Pow2(k)
    ensures CountBits(x, w) == 1
  {
    FitsStep(x, w);
    if k == 0 {
      ValueOfZero(w - 1);
      ValueInjective(Half(x), 0, w - 1);
      CountBitsZero(Half(x), w - 1);
    } else {
      PowerHasOneBit(Half(x), w - 1, k - 1);
    }
  }

  /** A word has exactly one set bit exactly when, unsigned, it is a power of two. */
  lemma PopCountOneIffPower(x: bv32)
    ensures PopCount(x) == 1 <==> exists k: nat :: k < 32 && Unsigned(x) == Pow2(k)
  {
    FitsAll(x);
    if PopCount(x) == 1 {
      var k := OneBitIsPower(x, 32);
      assert k < 32 && Unsigned(x) == Pow2(k);
    }
    forall k: nat | k < 32 && Unsigned(x) == Pow2(k)
      ensures PopCount(x) == 1
    {
      PowerHasOneBit(x, 32, k);
    }
  }
}
