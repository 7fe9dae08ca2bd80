/**
 * The eight bit-manipulation utilities of the library, on 32-bit words.
 *
 * Every C++ `int` and `unsigned int` is a `bv32`. `Signed` and `Unsigned` (module Word32)
 * give the number a word stands for. Conversions and `<<` on a signed word wrap modulo 2^32
 * as in C++20, and `>>` on a signed word copies the sign bit into the vacated high bits
 * (`Sar17`, module XorShift). The model also wraps `x - 1` at the most negative `int`,
 * which C++ leaves undefined.
 */
module BitManipulation {
  import opened Word32
  import opened XorShift

  // ---------------------------------------------------------------------------------------
  // IsPowerOfTwo
  // ---------------------------------------------------------------------------------------

  /**
   * The power-of-two test as the library writes it: `x && (!x & (x - 1))`. In C++ `!x` is
   * a `bool`, promoted to the `int` 1 when `x` is zero and to 0 otherwise, so for every
   * nonzero `x` the right operand of `&&` is `0 & (x - 1)`, which is zero.
   */
  function IsPowerOfTwo(x: bv32): (r: bool)
    ensures !r
  {
    var notX: bv32 := if x == 0 then 1 else 0;
    x != 0 && notX & (x - 1) != 0
  }

  /**
   * The test the comment above the function describes in words, `x != 0 && (x & (x - 1))
   * == 0`: `x` is nonzero and clearing its lowest set bit leaves nothing. It holds exactly of the words
   * with one set bit.
   */
  function IsPowerOfTwoCorrected(x: bv32): (r: bool)
    ensures r <==> PopCount(x) == 1
  {
    PowerTest(x);
    x != 0 && x & (x - 1) == 0
  }

  /** `x` is nonzero and `x & (x - 1)` is zero exactly when `x` has one set bit. */
  lemma PowerTest(x: bv32)
    ensures x != 0 && x & (x - 1) == 0 <==> PopCount(x) == 1
  {
    PopCountZero(x);
    if x != 0 {
      PopCountClearLowest(x);
      PopCountZero(x & (x - 1));
    }
  }

  /** The corrected test accepts exactly the words that denote 2^0 .. 2^31 unsigned. */
  lemma IsPowerOfTwoCorrectedIsPower(x: bv32)
    ensures IsPowerOfTwoCorrected(x) <==> exists k: nat :: k < 32 && Unsigned(x) == Pow2(k)
  {
    PopCountOneIffPower(x);
  }

  /**
   * On a positive `int` the corrected test holds exactly of the powers of two 2^0 .. 2^30,
   * which are all the powers of two an `int` can hold.
   */
  lemma IsPowerOfTwoCorrectedOnPositives(x: bv32)
    requires Signed(x) > 0
    ensures IsPowerOfTwoCorrected(x) <==> exists k: nat :: k < 31 && Signed(x) == Pow2(k)
  {
    ValueBound(x, 32);
    Pow2Values();
    assert Signed(x) == Unsigned(x);
    IsPowerOfTwoCorrectedIsPower(x);
    if IsPowerOfTwoCorrected(x) {
      var k: nat :| k < 32 && Unsigned(x) == Pow2(k);
      Pow2Monotone(31, k);
      assert k < 31 && Signed(x) == Pow2(k);
    }
  }

  /**
   * The test as written rejects 1 = 2^0 and 2 = 2^1, which the documented test accepts.
   * With `x - 1` wrapping around, the documented test also accepts the most negative `int`,
   * whose bits are those of 2^31 (in C++ that subtraction overflows, which is undefined).
   */
  lemma IsPowerOfTwoCounterexamples()
    ensures !IsPowerOfTwo(1) && IsPowerOfTwoCorrected(1) && Signed(1) == Pow2(0)
    ensures !IsPowerOfTwo(2) && IsPowerOfTwoCorrected(2)
    ensures IsPowerOfTwoCorrected(0x8000_0000) && Signed(0x8000_0000) < 0
    ensures !IsPowerOfTwoCorrected(0) && !IsPowerOfTwoCorrected(6)
  {
    assert Value(1, 32) == 1 + 2 * Value(0, 31);
    ValueOfZero(31);
  }

  // ---------------------------------------------------------------------------------------
  // SwapNumbers
  // ---------------------------------------------------------------------------------------

  /**
   * The contents of an `int` object. The word is wrapped so that the heap reasoning of
   * `SwapNumbers` only meets `XorInt32` and its two lemmas, never raw bit-vector terms,
   * which the verifier handles far less well in a method's heap state.
   */
  datatype Int32 = Int32(bits: bv32)

  /** `p ^ q` on the contents of two `int` objects. */
  function XorInt32(p: Int32, q: Int32): Int32
  {
    Int32(Xor(p.bits, q.bits))
  }

  /**
   * The identities the exchange relies on: `b ^ (a ^ b)` is `a` and `(a ^ b) ^ a` is `b`.
   */
  lemma XorInt32Exchange(p: Int32, q: Int32)
    ensures XorInt32(q, XorInt32(p, q)) == p
    ensures XorInt32(XorInt32(p, q), p) == q
  {
    XorComm(p.bits, q.bits);
    XorCancel(p.bits, q.bits);
    XorCancel(q.bits, p.bits);
  }

  /** `a ^ a` is zero, and so is `0 ^ 0`. */
  lemma XorInt32Self(p: Int32)
    ensures XorInt32(p, p) == Int32(0)
    ensures XorInt32(Int32(0), Int32(0)) == Int32(0)
  {
    XorSelf(p.bits);
    XorSelf(0);
  }

  /** An `int` object, the target of an `int*`. */
  class Cell {
    var value: Int32

    /** A new `int` object holding `v`. */
    constructor(v: Int32)
      ensures value == v
    {
      value := v;
    }
  }

  /**
   * Exchanges the contents of two `int` objects with three exclusive-ors. When both
   * pointers name the same object, the first step zeroes it and it stays zero.
   */
  method SwapNumbers(a: Cell, b: Cell)
    modifies a, b
    ensures a != b ==> a.value == old(b.value) && b.value == old(a.value)
    ensures a == b ==> a.value == Int32(0)
  {
    XorInt32Exchange(a.value, b.value);
    XorInt32Self(a.value);
    a.value := XorInt32(a.value, b.value);
    b.value := XorInt32(b.value, a.value);
    a.value := XorInt32(a.value, b.value);
  }

  // ---------------------------------------------------------------------------------------
  // BitsAreInAltOrder
  // ---------------------------------------------------------------------------------------

  /**
   * `n ^ (n >> 1)` has bit `i` set where bits `i` and `i + 1` of `n` differ; the function
   * accepts `n` when that word is a block of ones starting at bit 0 (the all-ones word
   * included, for which `num + 1` wraps around to zero).
   */
  function BitsAreInAltOrder(n: bv32): (r: bool)
    ensures r <==> exists k: nat :: k <= 32 && n ^ (n >> 1) == LowMask(k)
  {
    var num := n ^ (n >> 1);
    BlockTest(num);
    ((num + 1) & num) == 0
  }

  /** `(y + 1) & y == 0`: adding one to `y` carries through all of its set bits. */
  predicate CarriesThrough(y: bv32)
  {
    (y + 1) & y == 0
  }

  /** An even nonzero word keeps its set bits when one is added. */
  lemma EvenNoCarry(y: bv32)
    requires y != 0 && Low(y) == 0
    ensures !CarriesThrough(y)
  {
  }

  /** For an odd word the carry runs on exactly when it runs on through the rest. */
  lemma OddCarry(y: bv32)
    requires Low(y) == 1
    ensures CarriesThrough(y) <==> CarriesThrough(Half(y))
    ensures y == Grow(Half(y))
  {
  }

  lemma GrowCarry(m: bv32)
    requires CarriesThrough(m)
    ensures CarriesThrough(Grow(m))
  {
  }

  /** A word that fits in `w` bits and passes the test is a block of ones below `w`. */
  lemma {:induction false} TestFindsBlock(y: bv32, w: nat) returns (k: nat)
    requires Fits(y, w) && CarriesThrough(y)
    ensures k <= w && y == LowMask(k)
  {
    if y == 0 {
      k := 0;
    } else if w == 0 {
      FitsNone(y);
    } else {
      if Low(y) == 0 {
        EvenNoCarry(y);
      }
      OddCarry(y);
      FitsStep(y, w);
      var j := TestFindsBlock(Half(y), w - 1);
      k := j + 1;
    }
  }

  /** Every block of ones starting at bit 0 passes the test. */
  lemma {:induction false} BlockPassesTest(k: nat)
    ensures CarriesThrough(LowMask(k))
  {
    if k > 0 {
      BlockPassesTest(k - 1);
      GrowCarry(LowMask(k - 1));
    }
  }

  /** `(y + 1) & y == 0` recognises the words `2^k - 1`, for `k` from 0 to 32. */
  lemma BlockTest(y: bv32)
    ensures (y + 1) & y == 0 <==> exists k: nat :: k <= 32 && y == LowMask(k)
  {
    if CarriesThrough(y) {
      FitsAll(y);
      var k := TestFindsBlock(y, 32);
      assert k <= 32 && y == LowMask(k);
    }
    forall k: nat | k <= 32 && y == LowMask(k)
      ensures CarriesThrough(y)
    {
      BlockPassesTest(k);
    }
  }

  /** `n ^ (n >> 1)`: bit `i` is set where bits `i` and `i + 1` of `n` differ. */
  function Differences(n: bv32): bv32
  {
    Xor(n, Half(n))
  }

  lemma DifferencesLow(n: bv32)
    ensures Low(Differences(n)) == 1 <==> Low(n) != Low(Half(n))
  {
  }

  lemma DifferencesHalf(n: bv32)
    ensures Half(Differences(n)) == Differences(Half(n))
  {
    HalfXor(n, Half(n));
  }

  lemma DifferencesZero(n: bv32)
    ensures Differences(n) == 0 <==> n == 0
  {
  }

  /**
   * Reading `n` upwards from bit 0 within `w` bits, each bit differs from the next one
   * until only zeros remain.
   */
  predicate Alternating(n: bv32, w: nat)
  {
    w == 0 || Half(n) == 0 || (Low(n) != Low(Half(n)) && Alternating(Half(n), w - 1))
  }

  /** A word whose only set bit is bit 0 passes. */
  lemma DifferencesOfOne(n: bv32)
    requires n != 0 && Half(n) == 0
    ensures CarriesThrough(Differences(n))
  {
    HalfZero(n);
    assert n == 1;
  }

  /** Two equal lowest bits below a set bit make the test fail. */
  lemma DifferencesRepeat(n: bv32)
    requires Half(n) != 0 && Low(n) == Low(Half(n))
    ensures !CarriesThrough(Differences(n))
  {
    DifferencesLow(n);
    DifferencesHalf(n);
    DifferencesZero(Half(n));
    HalfZero(Differences(n));
    EvenNoCarry(Differences(n));
  }

  /** Two differing lowest bits leave the test to the rest of the word. */
  lemma DifferencesDiffer(n: bv32)
    requires Low(n) != Low(Half(n))
    ensures CarriesThrough(Differences(n)) <==> CarriesThrough(Differences(Half(n)))
  {
    DifferencesLow(n);
    DifferencesHalf(n);
    OddCarry(Differences(n));
  }

  /** The test on `n ^ (n >> 1)` decides whether the bits of `n` alternate. */
  lemma {:induction false} AlternatingTest(n: bv32, w: nat)
    requires Fits(n, w)
    ensures Alternating(n, w) <==> CarriesThrough(Differences(n))
  {
    if n == 0 {
      DifferencesZero(n);
    } else if w == 0 {
      FitsNone(n);
    } else if Half(n) == 0 {
      DifferencesOfOne(n);
    } else if Low(n) == Low(Half(n)) {
      DifferencesRepeat(n);
    } else {
      DifferencesDiffer(n);
      FitsStep(n, w);
      AlternatingTest(Half(n), w - 1);
    }
  }

  /** The function accepts exactly the words whose bits alternate up to the highest set bit. */
  lemma BitsAreInAltOrderIsAlternating(n: bv32)
    ensures BitsAreInAltOrder(n) <==> Alternating(n, 32)
  {
    FitsAll(n);
    AlternatingTest(n, 32);
  }

  /**
   * Worked values. The comment in the source says 10101010 turns into 01010101; in fact
   * `n ^ (n >> 1)` is 11111111, which is why the word is accepted.
   */
  lemma BitsAreInAltOrderExamples()
    ensures 0xAA ^ (0xAA >> 1) == 0xFF as bv32
    ensures BitsAreInAltOrder(0) && BitsAreInAltOrder(0xA) && !BitsAreInAltOrder(0xB)
    ensures BitsAreInAltOrder(0xAA) && BitsAreInAltOrder(0xAAAA_AAAA)
    ensures BitsAreInAltOrder(0x5555_5555) && !BitsAreInAltOrder(0x6)
  {
  }

  // ---------------------------------------------------------------------------------------
  // CompareIntegers
  // ---------------------------------------------------------------------------------------

  /** Equality through exclusive-or: `a ^ b` is zero exactly when no bit differs. */
  function CompareIntegers(a: bv32, b: bv32): (r: bool)
    ensures r <==> a == b
  {
    (a ^ b) == 0
  }

  /** The comparison agrees with equality of the `int` values the words stand for. */
  lemma CompareIntegersSigned(a: bv32, b: bv32)
    ensures CompareIntegers(a, b) <==> Signed(a) == Signed(b)
  {
    if Signed(a) == Signed(b) {
      SignedInjective(a, b);
    }
  }

  // ---------------------------------------------------------------------------------------
  // GeneratePseudoRandomNumber
  // ---------------------------------------------------------------------------------------

  /**
   * The word the generator returns for `seed`. `int x = nSeed` keeps the 32 bits and reads
   * them as signed, so the right shift by 17 is the arithmetic one.
   */
  function PseudoRandom(seed: bv32): bv32
  {
    XorShl5(XorSar17(XorShl13(seed)))
  }

  /** One xorshift round on a seed, with the three compound assignments in order. */
  method GeneratePseudoRandomNumber(nSeed: bv32) returns (r: bv32)
    ensures r == PseudoRandom(nSeed)
    ensures r == 0 <==> nSeed == 0 || nSeed == CollidingMask
  {
    var x := nSeed;
    x := Xor(x, Shl13(x));
    x := Xor(x, Sar17(x));
    x := Xor(x, Shl5(x));
    PseudoRandomZeroSeeds(nSeed);
    r := x;
  }

  /** The seed the first step sends to the all-ones word. */
  const CollidingMask: bv32 := 0xFC00_1FFF

  lemma CollidingMaskStep()
    ensures XorShl13(CollidingMask) == 0xFFFF_FFFF
    ensures UndoXorShl13(0xFFFF_FFFF) == CollidingMask
  {
  }

  /**
   * The signed middle step cannot tell a word from its complement, so the generator maps
   * the seeds `s` and `s ^ 0xFC00_1FFF` (whose first steps are complements) to one output.
   */
  lemma PseudoRandomCollides(s: bv32)
    ensures Xor(s, CollidingMask) != s
    ensures PseudoRandom(Xor(s, CollidingMask)) == PseudoRandom(s)
  {
    XorShl13Xor(s, CollidingMask);
    CollidingMaskStep();
    XorSar17Complement(XorShl13(s));
  }

  /** The generator as written is linear over exclusive-or. */
  lemma PseudoRandomXor(a: bv32, b: bv32)
    ensures PseudoRandom(Xor(a, b)) == Xor(PseudoRandom(a), PseudoRandom(b))
  {
    XorShl13Xor(a, b);
    XorSar17Xor(XorShl13(a), XorShl13(b));
    XorShl5Xor(XorSar17(XorShl13(a)), XorSar17(XorShl13(b)));
  }

  /** Two seeds give the same output exactly when their exclusive-or gives 0. */
  lemma PseudoRandomSame(a: bv32, b: bv32)
    ensures PseudoRandom(a) == PseudoRandom(b) <==> PseudoRandom(Xor(a, b)) == 0
  {
    PseudoRandomXor(a, b);
    XorSolve(PseudoRandom(a), PseudoRandom(b), 0);
    XorZero(PseudoRandom(a));
  }

  /**
   * The generator as written is exactly two-to-one: two seeds give the same output if and
   * only if they are equal or differ by 0xFC00_1FFF.
   */
  lemma PseudoRandomTwoToOne(a: bv32, b: bv32)
    ensures PseudoRandom(a) == PseudoRandom(b) <==> b == a || b == Xor(a, CollidingMask)
  {
    PseudoRandomSame(a, b);
    PseudoRandomZeroSeeds(Xor(a, b));
    XorSolve(a, b, 0);
    XorZero(a);
    XorSolve(a, b, CollidingMask);
  }

  /** Exactly two seeds make the generator return 0: 0 and 0xFC00_1FFF. */
  lemma PseudoRandomZeroSeeds(s: bv32)
    ensures PseudoRandom(s) == 0 <==> s == 0 || s == CollidingMask
  {
    var y1 := XorShl13(s);
    var y2 := XorSar17(y1);
    CollidingMaskStep();
    XorSar17Zero(y1);
    XorSar17Zero(0);
    XorSar17Zero(0xFFFF_FFFF);
    if PseudoRandom(s) == 0 {
      UndoXorShl5Left(y2);
      assert UndoXorShl5(0) == 0;
      UndoXorShl13Left(s);
      assert UndoXorShl13(0) == 0;
    }
    assert XorShl13(0) == 0 && XorShl5(0) == 0;
  }

  /**
   * The evidently intended generator, Marsaglia's 32-bit xorshift on an unsigned word:
   * the same three steps with the unsigned right shift.
   */
  function XorShift32(seed: bv32): bv32
  {
    XorShl5(XorShr17(XorShl13(seed)))
  }

  /** Runs the three steps of `XorShift32` backwards. */
  function UndoXorShift32(r: bv32): bv32
  {
    UndoXorShl13(XorShr17(UndoXorShl5(r)))
  }

  /** `XorShift32` is a permutation of the words, with `UndoXorShift32` as its inverse. */
  lemma XorShift32RoundTrip(x: bv32)
    ensures UndoXorShift32(XorShift32(x)) == x
    ensures XorShift32(UndoXorShift32(x)) == x
  {
    UndoXorShl5Left(XorShr17(XorShl13(x)));
    XorShr17Involution(XorShl13(x));
    UndoXorShl13Left(x);
    UndoXorShl13Right(XorShr17(UndoXorShl5(x)));
    XorShr17Involution(UndoXorShl5(x));
    UndoXorShl5Right(x);
  }

  /** Distinct seeds give distinct outputs, and only the zero seed gives 0. */
  lemma XorShift32Injective(a: bv32, b: bv32)
    ensures XorShift32(a) == XorShift32(b) <==> a == b
    ensures XorShift32(a) == 0 <==> a == 0
  {
    XorShift32RoundTrip(a);
    XorShift32RoundTrip(b);
    assert XorShift32(0) == 0;
  }

  // ---------------------------------------------------------------------------------------
  // IsNumberEven
  // ---------------------------------------------------------------------------------------

  /** Evenness from the lowest bit, which is right for negative words too. */
  function IsNumberEven(x: bv32): (r: bool)
    ensures r <==> Signed(x) % 2 == 0
  {
    SignedParity(x);
    (x & 1) == 0
  }

  /** 4, 0 and -2 are even; 7 and -1 are odd. */
  lemma IsNumberEvenExamples()
    ensures IsNumberEven(4) && !IsNumberEven(7) && IsNumberEven(0)
    ensures IsNumberEven(0xFFFF_FFFE) && Signed(0xFFFF_FFFE) == -2
    ensures !IsNumberEven(0xFFFF_FFFF) && Signed(0xFFFF_FFFF) == -1
  {
    SignedMinusOneTwo();
  }

  // ---------------------------------------------------------------------------------------
  // IsAtLeastOneBitSet
  // ---------------------------------------------------------------------------------------

  /** `x | 0` is `x`, and returning it as a `bool` tests it against zero. */
  function IsAtLeastOneBitSet(x: bv32): (r: bool)
    ensures r <==> x != 0
  {
    (x | 0) != 0
  }

  /** Some bit is set exactly when the population count is positive. */
  lemma IsAtLeastOneBitSetFindsBit(x: bv32)
    ensures IsAtLeastOneBitSet(x) <==> exists i: nat :: i < 32 && Bit(x, i)
    ensures IsAtLeastOneBitSet(x) <==> PopCount(x) > 0
  {
    BitSetIffNonzero(x);
    PopCountZero(x);
  }

  // ---------------------------------------------------------------------------------------
  // GetBitCount
  // ---------------------------------------------------------------------------------------

  /**
   * Brian Kernighan's count: each round clears the lowest set bit of the copy, so the
   * rounds number the set bits of `x`.
   */
  method GetBitCount(x: bv32) returns (count: int)
    ensures count == PopCount(x)
    ensures 0 <= count <= 32
  {
    count := 0;
    var copy := x;
    while copy != 0
      invariant count + PopCount(copy) == PopCount(x)
      decreases copy
    {
      PopCountClearLowest(copy);
      ClearLowestDecreases(copy);
      count := count + 1;
      copy := copy & (copy - 1);
    }
    PopCountZero(copy);
  }

  /** Population counts of a few words, one cleared bit at a time. */
  lemma PopCountExamples()
    ensures PopCount(0) == 0 && PopCount(7) == 3 && PopCount(0x8000_0000) == 1
    ensures PopCount(255) == 8
  {
    PopCountZero(0);
    PopCountClearLowest(7);
    PopCountClearLowest(6);
    PopCountClearLowest(4);
    PopCountClearLowest(0x8000_0000);
    PopCountClearLowest(255);
    PopCountClearLowest(254);
    PopCountClearLowest(252);
    PopCountClearLowest(248);
    PopCountClearLowest(240);
    PopCountClearLowest(224);
    PopCountClearLowest(192);
    PopCountClearLowest(128);
  }
}
