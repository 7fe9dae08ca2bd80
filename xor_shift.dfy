/**
 * Exclusive or and shifts by a constant, on 32-bit words.
 *
 * Every operation here is linear over the two-element field: it distributes over `Xor`.
 * The library's exchange trick and its pseudo-random step are chains of such operations,
 * and their properties are proved here by the algebra of `Xor` (associative, commutative,
 * self-cancelling, with zero as unit) rather than bit by bit.
 */
module XorShift {
  import opened Word32

  // ---------------------------------------------------------------------------------------
  // Exclusive or
  // ---------------------------------------------------------------------------------------

  /** Bitwise exclusive or: `a ^ b`. */
  function Xor(a: bv32, b: bv32): bv32
  {
    a ^ b
  }

  lemma XorAssoc(a: bv32, b: bv32, c: bv32)
    ensures Xor(Xor(a, b), c) == Xor(a, Xor(b, c))
  {
  }

  lemma XorComm(a: bv32, b: bv32)
    ensures Xor(a, b) == Xor(b, a)
  {
  }

  /** Every word is its own inverse. */
  lemma XorSelf(a: bv32)
    ensures Xor(a, a) == 0
  {
  }

  /** Zero is the unit. */
  lemma XorZero(a: bv32)
    ensures Xor(a, 0) == a && Xor(0, a) == a
  {
  }

  /** Exclusive or with `b` twice, from either side, gives back `a`. */
  lemma XorCancel(a: bv32, b: bv32)
    ensures Xor(Xor(a, b), b) == a && Xor(b, Xor(b, a)) == a
  {
    XorAssoc(a, b, b);
    XorSelf(b);
    XorZero(a);
    XorAssoc(b, b, a);
  }

  /** A middle term shared by two pairs cancels: `(a ^ b) ^ (b ^ c) == a ^ c`. */
  lemma XorTelescope(a: bv32, b: bv32, c: bv32)
    ensures Xor(Xor(a, b), Xor(b, c)) == Xor(a, c)
  {
    XorAssoc(a, b, Xor(b, c));
    XorCancel(c, b);
  }

  /** Shifting right by one place distributes over exclusive or. */
  lemma HalfXor(a: bv32, b: bv32)
    ensures Half(Xor(a, b)) == Xor(Half(a), Half(b))
  {
  }

  /** Two pairs can be regrouped: `(a ^ b) ^ (c ^ d) == (a ^ c) ^ (b ^ d)`. */
  /** `a ^ b == c` is solved for `b` by `b == a ^ c`. */
  lemma XorSolve(a: bv32, b: bv32, c: bv32)
    ensures Xor(a, b) == c <==> b == Xor(a, c)
  {
    XorCancel(b, a);
    XorCancel(c, a);
  }

  lemma XorShuffle(a: bv32, b: bv32, c: bv32, d: bv32)
    ensures Xor(Xor(a, b), Xor(c, d)) == Xor(Xor(a, c), Xor(b, d))
  {
    calc {
      Xor(Xor(a, b), Xor(c, d));
      { XorAssoc(a, b, Xor(c, d)); }
      Xor(a, Xor(b, Xor(c, d)));
      { XorAssoc(b, c, d); XorComm(b, c); XorAssoc(c, b, d); }
      Xor(a, Xor(c, Xor(b, d)));
      { XorAssoc(a, c, Xor(b, d)); }
      Xor(Xor(a, c), Xor(b, d));
    }
  }

  // ---------------------------------------------------------------------------------------
  // Shifts by the constants of the xorshift step
  // ---------------------------------------------------------------------------------------

  /** `x << 13`: the low 19 bits move up by 13 places, zeros enter from below. */
  function Shl13(x: bv32): bv32
  {
    x << 13
  }

  /** `x << 5`. */
  function Shl5(x: bv32): bv32
  {
    x << 5
  }

  /** `x >> 17` on an unsigned word: the high 15 bits move down, zeros enter from above. */
  function Shr17(x: bv32): bv32
  {
    x >> 17
  }

  lemma Shl13Xor(a: bv32, b: bv32)
    ensures Shl13(Xor(a, b)) == Xor(Shl13(a), Shl13(b))
  {
  }

  lemma Shl5Xor(a: bv32, b: bv32)
    ensures Shl5(Xor(a, b)) == Xor(Shl5(a), Shl5(b))
  {
  }

  lemma Shr17Xor(a: bv32, b: bv32)
    ensures Shr17(Xor(a, b)) == Xor(Shr17(a), Shr17(b))
  {
  }

  /** Three shifts by 13 move every bit out of the word. */
  lemma Shl13Vanishes(x: bv32)
    ensures Shl13(Shl13(Shl13(x))) == 0
  {
  }

  /** Two shifts by 17 move every bit out of the word. */
  lemma Shr17Vanishes(x: bv32)
    ensures Shr17(Shr17(x)) == 0
  {
  }

  /** `x` shifted left by 5 places `k` times. */
  function Shl5Times(x: bv32, k: nat): bv32
  {
    if k == 0 then x else Shl5(Shl5Times(x, k - 1))
  }

  lemma Shl5Seven(x: bv32)
    ensures Shl5(Shl5(Shl5(Shl5(Shl5(Shl5(Shl5(x))))))) == 0
  {
  }

  /**
   * Seven shifts by 5 move every bit out of the word. `Shl5Times` is unfolded one shift at a
   * time because a single lemma about a shift by a variable amount is beyond the verifier's
   * bit-vector reasoning here.
   */
  lemma Shl5Vanishes(x: bv32)
    ensures Shl5Times(x, 7) == 0
  {
    assert Shl5Times(x, 1) == Shl5(x);
    assert Shl5Times(x, 2) == Shl5(Shl5Times(x, 1));
    assert Shl5Times(x, 3) == Shl5(Shl5Times(x, 2));
    assert Shl5Times(x, 4) == Shl5(Shl5Times(x, 3));
    assert Shl5Times(x, 5) == Shl5(Shl5Times(x, 4));
    assert Shl5Times(x, 6) == Shl5(Shl5Times(x, 5));
    assert Shl5Times(x, 7) == Shl5(Shl5Times(x, 6));
    Shl5Seven(x);
  }

  // ---------------------------------------------------------------------------------------
  // The arithmetic right shift of a signed word
  // ---------------------------------------------------------------------------------------

  /** The 17 bits an arithmetic shift by 17 fills in at the top: copies of the sign bit. */
  function SignFill17(x: bv32): bv32
  {
    if Negative(x) then 0xFFFF_8000 else 0
  }

  /**
   * `x >> 17` on a signed word as C++20 defines it (rounding towards minus infinity): the
   * high 15 bits move down and the sign bit is copied into the 17 places that empty.
   */
  function Sar17(x: bv32): bv32
  {
    Xor(Shr17(x), SignFill17(x))
  }

  /** On a non-negative word the arithmetic shift is the unsigned one. */
  lemma Sar17NonNegative(x: bv32)
    requires !Negative(x)
    ensures Sar17(x) == x >> 17
  {
  }

  /** On a negative word the arithmetic shift is the complement of the shifted complement. */
  lemma Sar17Negative(x: bv32)
    requires Negative(x)
    ensures Sar17(x) == !(!x >> 17)
  {
  }

  /** A logical shift by 17 is `x` halved 17 times, unfolded one place at a time. */
  lemma Shr17Halves(x: bv32)
    ensures Halves(x, 17) == Shr17(x)
  {
    assert Halves(x, 1) == Half(x);
    assert Halves(x, 2) == Half(Halves(x, 1));
    assert Halves(x, 3) == Half(Halves(x, 2));
    assert Halves(x, 4) == Half(Halves(x, 3));
    assert Halves(x, 5) == Half(Halves(x, 4));
    assert Halves(x, 6) == Half(Halves(x, 5));
    assert Halves(x, 7) == Half(Halves(x, 6));
    assert Halves(x, 8) == Half(Halves(x, 7));
    assert Halves(x, 9) == Half(Halves(x, 8));
    assert Halves(x, 10) == Half(Halves(x, 9));
    assert Halves(x, 11) == Half(Halves(x, 10));
    assert Halves(x, 12) == Half(Halves(x, 11));
    assert Halves(x, 13) == Half(Halves(x, 12));
    assert Halves(x, 14) == Half(Halves(x, 13));
    assert Halves(x, 15) == Half(Halves(x, 14));
    assert Halves(x, 16) == Half(Halves(x, 15));
    assert Halves(x, 17) == Half(Halves(x, 16));
    Shr17Seventeen(x);
  }

  lemma Shr17Seventeen(x: bv32)
    ensures Half(Half(Half(Half(Half(Half(Half(Half(Half(Half(Half(Half(Half(Half(Half(Half(
              Half(x))))))))))))))))) == Shr17(x)
  {
  }

  /** The logical shift leaves the 17 top places clear, where the sign fill goes. */
  lemma Shr17Top(x: bv32)
    ensures !Negative(Shr17(x)) && Disjoint(Shr17(x), 0xFFFF_8000)
  {
  }

  /** No bit is set in both words. */
  predicate Disjoint(a: bv32, b: bv32)
  {
    a & b == 0
  }

  lemma DisjointHalf(a: bv32, b: bv32)
    requires Disjoint(a, b)
    ensures Disjoint(Half(a), Half(b))
    ensures Low(Xor(a, b)) == Low(a) + Low(b) && Half(Xor(a, b)) == Xor(Half(a), Half(b))
  {
  }

  /** Words with no set bit in common add up under exclusive or. */
  lemma {:induction false} ValueXorDisjoint(a: bv32, b: bv32, w: nat)
    requires Disjoint(a, b)
    ensures Value(Xor(a, b), w) == Value(a, w) + Value(b, w)
  {
    if w > 0 {
      DisjointHalf(a, b);
      ValueXorDisjoint(Half(a), Half(b), w - 1);
      ValueXorStep(a, b, w);
    }
  }

  lemma ValueXorStep(a: bv32, b: bv32, w: nat)
    requires w > 0 && Low(Xor(a, b)) == Low(a) + Low(b)
    requires Half(Xor(a, b)) == Xor(Half(a), Half(b))
    requires Value(Xor(Half(a), Half(b)), w - 1) == Value(Half(a), w - 1) + Value(Half(b), w - 1)
    ensures Value(Xor(a, b), w) == Value(a, w) + Value(b, w)
  {
    ValueStep(a, w);
    ValueStep(b, w);
    ValueStep(Xor(a, b), w);
  }

  /** The sign fill denotes 2^32 - 2^15 unsigned (evaluated two bits at a time). */
  lemma SignFill17Value()
    ensures Unsigned(0xFFFF_8000) == 0xFFFF_8000
  {
    assert Value(0x3, 2) == 0x3;
    assert Value(0xF, 4) == 0xF;
    assert Value(0x3F, 6) == 0x3F;
    assert Value(0xFF, 8) == 0xFF;
    assert Value(0x3FF, 10) == 0x3FF;
    assert Value(0xFFF, 12) == 0xFFF;
    assert Value(0x3FFF, 14) == 0x3FFF;
    assert Value(0xFFFF, 16) == 0xFFFF;
    assert Value(0x3_FFFE, 18) == 0x3_FFFE;
    assert Value(0xF_FFF8, 20) == 0xF_FFF8;
    assert Value(0x3F_FFE0, 22) == 0x3F_FFE0;
    assert Value(0xFF_FF80, 24) == 0xFF_FF80;
    assert Value(0x3FF_FE00, 26) == 0x3FF_FE00;
    assert Value(0xFFF_F800, 28) == 0xFFF_F800;
    assert Value(0x3FFF_E000, 30) == 0x3FFF_E000;
  }

  lemma SignedSar17Negative(x: bv32)
    requires Negative(x)
    ensures Signed(Sar17(x)) == Unsigned(Shr17(x)) - 0x8000
  {
    Shr17Top(x);
    ValueXorDisjoint(Shr17(x), 0xFFFF_8000, 32);
    SignFill17Value();
    assert Unsigned(Sar17(x)) == Unsigned(Shr17(x)) + 0xFFFF_8000;
  }

  lemma SignedSar17NonNegative(x: bv32)
    requires !Negative(x)
    ensures Signed(Sar17(x)) == Unsigned(Shr17(x))
  {
    Shr17Top(x);
    XorZero(Shr17(x));
    assert Sar17(x) == Shr17(x);
  }

  /**
   * `Sar17` is the C++20 meaning of `x >> 17` on an `int`: the signed value divided by 2^17
   * and rounded towards minus infinity, the bits shifted out being the remainder.
   */
  lemma Sar17Floor(x: bv32)
    ensures Signed(x) == Pow2(17) * Signed(Sar17(x)) + Value(x, 17)
    ensures Signed(Sar17(x)) == Signed(x) / Pow2(17)
  {
    UnsignedShift(x, 17);
    Shr17Halves(x);
    Pow2Values();
    if Negative(x) {
      SignedSar17Negative(x);
    } else {
      SignedSar17NonNegative(x);
    }
    ValueBound(x, 17);
    DivUnique(Signed(x), Pow2(17), Signed(Sar17(x)), Value(x, 17));
  }

  lemma NegativeXor(a: bv32, b: bv32)
    ensures Negative(Xor(a, b)) <==> Negative(a) != Negative(b)
  {
  }

  lemma SignFill17Xor(a: bv32, b: bv32)
    ensures SignFill17(Xor(a, b)) == Xor(SignFill17(a), SignFill17(b))
  {
    NegativeXor(a, b);
    if Negative(a) {
      if Negative(b) {
        XorSelf(0xFFFF_8000);
        assert SignFill17(Xor(a, b)) == 0;
      } else {
        XorZero(0xFFFF_8000);
        assert SignFill17(Xor(a, b)) == 0xFFFF_8000;
      }
    } else {
      XorZero(SignFill17(b));
    }
  }

  lemma Sar17Xor(a: bv32, b: bv32)
    ensures Sar17(Xor(a, b)) == Xor(Sar17(a), Sar17(b))
  {
    Shr17Xor(a, b);
    SignFill17Xor(a, b);
    XorShuffle(Shr17(a), Shr17(b), SignFill17(a), SignFill17(b));
  }

  // ---------------------------------------------------------------------------------------
  // Xorshift steps: `x ^= x << 13`, `x ^= x >> 17`, `x ^= x << 5`
  // ---------------------------------------------------------------------------------------

  /** `x ^ (x << 13)`. */
  function XorShl13(x: bv32): bv32
  {
    Xor(x, Shl13(x))
  }

  /** `x ^ (x << 5)`. */
  function XorShl5(x: bv32): bv32
  {
    Xor(x, Shl5(x))
  }

  /** `x ^ (x >> 17)` with the unsigned shift. */
  function XorShr17(x: bv32): bv32
  {
    Xor(x, Shr17(x))
  }

  /** `x ^ (x >> 17)` with the arithmetic shift of a signed word. */
  function XorSar17(x: bv32): bv32
  {
    Xor(x, Sar17(x))
  }

  lemma XorShl13Xor(a: bv32, b: bv32)
    ensures XorShl13(Xor(a, b)) == Xor(XorShl13(a), XorShl13(b))
  {
    Shl13Xor(a, b);
    XorShuffle(a, b, Shl13(a), Shl13(b));
  }

  lemma XorSar17Xor(a: bv32, b: bv32)
    ensures XorSar17(Xor(a, b)) == Xor(XorSar17(a), XorSar17(b))
  {
    Sar17Xor(a, b);
    XorShuffle(a, b, Sar17(a), Sar17(b));
  }

  lemma XorShl5Xor(a: bv32, b: bv32)
    ensures XorShl5(Xor(a, b)) == Xor(XorShl5(a), XorShl5(b))
  {
    Shl5Xor(a, b);
    XorShuffle(a, b, Shl5(a), Shl5(b));
  }

  /** Undoes `XorShl13`: `y ^ (y << 13) ^ (y << 26)`. */
  function UndoXorShl13(y: bv32): bv32
  {
    Xor(Xor(y, Shl13(y)), Shl13(Shl13(y)))
  }

  /** The two shifts of `x ^ (x << 13)` that its inverse uses; the third one vanishes. */
  lemma XorShl13Shifted(x: bv32)
    ensures Shl13(XorShl13(x)) == Xor(Shl13(x), Shl13(Shl13(x)))
    ensures Shl13(Shl13(XorShl13(x))) == Shl13(Shl13(x))
  {
    var s1, s2 := Shl13(x), Shl13(Shl13(x));
    Shl13Xor(x, s1);
    Shl13Xor(s1, s2);
    Shl13Vanishes(x);
    XorZero(s2);
  }

  /** `UndoXorShl13` is a left inverse of `XorShl13`. */
  lemma UndoXorShl13Left(x: bv32)
    ensures UndoXorShl13(XorShl13(x)) == x
  {
    var s1, s2 := Shl13(x), Shl13(Shl13(x));
    XorShl13Shifted(x);
    calc {
      UndoXorShl13(XorShl13(x));
      Xor(Xor(Xor(x, s1), Xor(s1, s2)), s2);
      { XorTelescope(x, s1, s2); }
      Xor(Xor(x, s2), s2);
      { XorCancel(x, s2); }
      x;
    }
  }

  /** `UndoXorShl13` is a right inverse of `XorShl13`. */
  lemma UndoXorShl13Right(y: bv32)
    ensures XorShl13(UndoXorShl13(y)) == y
  {
    var s1, s2 := Shl13(y), Shl13(Shl13(y));
    Shl13Xor(Xor(y, s1), s2);
    Shl13Xor(y, s1);
    Shl13Vanishes(y);
    XorZero(s2);
    calc {
      XorShl13(UndoXorShl13(y));
      Xor(Xor(Xor(y, s1), s2), Xor(Xor(s1, s2), 0));
      { XorZero(Xor(s1, s2)); }
      Xor(Xor(Xor(y, s1), s2), Xor(s1, s2));
      { XorShuffle(Xor(y, s1), s2, s1, s2); XorSelf(s2); XorZero(Xor(Xor(y, s1), s1)); }
      Xor(Xor(y, s1), s1);
      { XorCancel(y, s1); }
      y;
    }
  }

  /** `y ^ (y << 5) ^ (y << 10) ^ ... ^ (y << 5k)`, in Horner form. */
  function Horner5(y: bv32, k: nat): bv32
  {
    if k == 0 then y else Xor(y, Shl5(Horner5(y, k - 1)))
  }

  /** Undoes `XorShl5`: `y ^ (y << 5) ^ ... ^ (y << 30)`. */
  function UndoXorShl5(y: bv32): bv32
  {
    Horner5(y, 6)
  }

  lemma {:induction false} Horner5Left(x: bv32, k: nat)
    ensures Horner5(XorShl5(x), k) == Xor(x, Shl5Times(x, k + 1))
  {
    if k > 0 {
      Horner5Left(x, k - 1);
      var p := Shl5Times(x, k);
      assert Shl5(Xor(x, p)) == Xor(Shl5(x), Shl5(p)) by {
        Shl5Xor(x, p);
      }
      XorTelescope(x, Shl5(x), Shl5(p));
    }
  }

  /** One step of `Horner5Right`: shifting its hypothesis by 5 places gives the next one. */
  lemma Horner5RightStep(y: bv32, h: bv32, p: bv32)
    requires XorShl5(h) == Xor(y, p)
    ensures XorShl5(Xor(y, Shl5(h))) == Xor(y, Shl5(p))
  {
    Shl5Xor(h, Shl5(h));
    Shl5Xor(y, p);
    calc {
      XorShl5(Xor(y, Shl5(h)));
      { Shl5Xor(y, Shl5(h)); }
      Xor(Xor(y, Shl5(h)), Xor(Shl5(y), Shl5(Shl5(h))));
      { XorShuffle(y, Shl5(h), Shl5(y), Shl5(Shl5(h))); }
      Xor(Xor(y, Shl5(y)), Xor(Shl5(h), Shl5(Shl5(h))));
      Xor(Xor(y, Shl5(y)), Xor(Shl5(y), Shl5(p)));
      { XorAssoc(y, Shl5(y), Xor(Shl5(y), Shl5(p))); XorCancel(Shl5(p), Shl5(y)); }
      Xor(y, Shl5(p));
    }
  }

  lemma {:induction false} Horner5Right(y: bv32, k: nat)
    ensures XorShl5(Horner5(y, k)) == Xor(y, Shl5Times(y, k + 1))
  {
    if k > 0 {
      Horner5Right(y, k - 1);
      Horner5RightStep(y, Horner5(y, k - 1), Shl5Times(y, k));
    }
  }

  /** `UndoXorShl5` is a left inverse of `XorShl5`. */
  lemma UndoXorShl5Left(x: bv32)
    ensures UndoXorShl5(XorShl5(x)) == x
  {
    Horner5Left(x, 6);
    Shl5Vanishes(x);
    XorZero(x);
  }

  /** `UndoXorShl5` is a right inverse of `XorShl5`. */
  lemma UndoXorShl5Right(y: bv32)
    ensures XorShl5(UndoXorShl5(y)) == y
  {
    Horner5Right(y, 6);
    Shl5Vanishes(y);
    XorZero(y);
  }

  /** The unsigned step is its own inverse. */
  lemma XorShr17Involution(x: bv32)
    ensures XorShr17(XorShr17(x)) == x
  {
    var s := Shr17(x);
    Shr17Xor(x, s);
    Shr17Vanishes(x);
    XorZero(s);
    XorCancel(x, s);
  }

  /**
   * The arithmetic step is not injective: it sends exactly the all-zeros and the all-ones
   * word to zero.
   */
  lemma XorSar17Zero(x: bv32)
    ensures XorSar17(x) == 0 <==> x == 0 || x == 0xFFFF_FFFF
  {
  }

  /** Complementing the input does not change the arithmetic step's result. */
  lemma XorSar17Complement(x: bv32)
    ensures XorSar17(Xor(x, 0xFFFF_FFFF)) == XorSar17(x)
  {
    XorSar17Xor(x, 0xFFFF_FFFF);
    XorSar17Zero(0xFFFF_FFFF);
    XorZero(XorSar17(x));
  }
}
