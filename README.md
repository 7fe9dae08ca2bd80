# BitManipulation in Dafny

A model of the header `BitManipulation/include/BitManipulation.h`. It holds eight inline
functions on 32-bit integers:

- a power-of-two test;
- an exchange of two `int` objects by exclusive-or;
- a test that the bits of a word alternate;
- an equality test by exclusive-or;
- one round of a xorshift pseudo-random generator;
- an evenness test;
- a nonzero test;
- Brian Kernighan's population count.

The model has three modules:

- `Word32` (`word32.dfy`) defines the vocabulary against which the operations are stated. It reads a `bv32` from bit 0 upwards and gives:
  - `Bit` (whether a bit is set), `PopCount` (how many bits are set) and `LowMask` (the words 2^k - 1);
  - `Unsigned` and `Signed`, the numbers a word denotes as `unsigned int` and as two's-complement `int`;
  - `Pow2` and `Halves` (a shift right by k places).
- `XorShift` (`xor_shift.dfy`) covers exclusive-or and shifts by 13, 17 and 5 places. It includes the arithmetic right shift `Sar17`, the three xorshift steps, and inverses of the steps that have one: `x ^= x << 13`, `x ^= x << 5` and `x ^= x >> 17` with the unsigned shift. The generator's own middle step, with the arithmetic shift, has none (`XorSar17Zero`). These are proved by the algebra of exclusive-or: it is associative and commutative, every word cancels itself, and every shift distributes over it.
- `BitManipulation` (`bit_manipulation.dfy`) models the eight operations.
  - Pure expressions are `function`s.
  - `SwapNumbers` writes through two pointers that may alias, so it is a `method` on two heap `Cell`s.
  - `GetBitCount` and `GeneratePseudoRandomNumber` update locals step by step, so they are `method`s. Each is proved against a specification function: `PopCount` and `PseudoRandom`.

Both `int` and `unsigned int` are `bv32`. Conversions and shifts follow C++20:

- `<<` on a signed `int` wraps around modulo 2^32.
- `int x = nSeed` keeps the 32 bits.
- `>>` on a signed `int` copies the sign bit into the vacated places. Dafny's `>>` on `bv32` is logical, so the sign fill is written out in `XorShift.Sar17`. `XorShift.Sar17Floor` proves that it rounds the quotient by 2^17 towards minus infinity.

Two places where the code is followed rather than its description:

- The comment on `IsPowerOfTwo` at lines 7-9 describes the test `x != 0 && (x & (x - 1)) == 0` in words. The code computes `x && (!x & (x - 1))`. The model follows the code and proves that it always returns false. The described test is modelled separately, as `IsPowerOfTwoCorrected` (see Findings).
- The comment on `BitsAreInAltOrder` says 10101010 becomes 01010101. In fact `n ^ (n >> 1)` is 11111111, and that is why the word is accepted. The model follows the code (`BitsAreInAltOrderExamples`).

## Model

| member | source | states |
|---|---|---|
| BitManipulation.IsPowerOfTwo | BitManipulation/include/BitManipulation.h:11-14 | The test as written is false for every word, because `!x` is 0 whenever `x` is nonzero |
| BitManipulation.IsPowerOfTwoCorrected | BitManipulation/include/BitManipulation.h:6-10 | The documented test (`x` nonzero and `x & (x - 1)` zero) holds exactly when `x` has one set bit |
| BitManipulation.PowerTest | BitManipulation/include/BitManipulation.h:7-9 | `x != 0 && x & (x - 1) == 0` if and only if the population count of `x` is 1 |
| BitManipulation.IsPowerOfTwoCorrectedIsPower | BitManipulation/include/BitManipulation.h:7-9 | The documented test accepts exactly the words whose unsigned value is 2^k for some k < 32 |
| BitManipulation.IsPowerOfTwoCorrectedOnPositives | BitManipulation/include/BitManipulation.h:6-10 | On a positive `int`, the documented test holds if and only if the value is 2^k for some k < 31 |
| BitManipulation.IsPowerOfTwoCounterexamples | BitManipulation/include/BitManipulation.h:13 | The code rejects 1 = 2^0 and 2 = 2^1, which the documented test accepts. With `x - 1` wrapping around, the documented test also accepts the most negative `int`; it rejects 0 and 6 |
| BitManipulation.XorInt32Exchange | BitManipulation/include/BitManipulation.h:19-22 | `b ^ (a ^ b)` is `a` and `(a ^ b) ^ a` is `b`, the two identities the exchange relies on |
| BitManipulation.XorInt32Self | BitManipulation/include/BitManipulation.h:26 | `a ^ a` is 0, so the first step zeroes an aliased object, and 0 ^ 0 keeps it 0 |
| BitManipulation.Cell.constructor | BitManipulation/include/BitManipulation.h:24 | A new `int` object, the target of an `int*`, holds the given word |
| BitManipulation.SwapNumbers | BitManipulation/include/BitManipulation.h:24-29 | On two distinct objects, each ends with the other's old contents. When both pointers name one object, it ends as 0. No other object is written |
| BitManipulation.BitsAreInAltOrder | BitManipulation/include/BitManipulation.h:43-47 | Accepts `n` if and only if `n ^ (n >> 1)` equals 2^k - 1 for some k from 0 to 32 |
| BitManipulation.BlockTest | BitManipulation/include/BitManipulation.h:46 | `((num + 1) & num) == 0` if and only if `num` is 2^k - 1 for some k from 0 to 32; the all-ones word passes because `num + 1` wraps to 0 |
| BitManipulation.AlternatingTest | BitManipulation/include/BitManipulation.h:37-41 | For a word of `w` bits, the test on `n ^ (n >> 1)` passes if and only if each bit of `n` differs from the next one up to the highest set bit |
| BitManipulation.BitsAreInAltOrderIsAlternating | BitManipulation/include/BitManipulation.h:40-46 | The function accepts exactly the words whose bits alternate up to the highest set bit |
| BitManipulation.BitsAreInAltOrderExamples | BitManipulation/include/BitManipulation.h:36 | 10101010 gives 11111111, not 01010101. 0, 0b1010, 0xAA, 0xAAAAAAAA and 0x55555555 are accepted; 0b1011 and 0b110 are rejected |
| BitManipulation.CompareIntegers | BitManipulation/include/BitManipulation.h:56-59 | `(a ^ b) == 0` if and only if `a == b` |
| BitManipulation.CompareIntegersSigned | BitManipulation/include/BitManipulation.h:52-54 | The comparison holds if and only if the two `int` values are equal |
| BitManipulation.GeneratePseudoRandomNumber | BitManipulation/include/BitManipulation.h:61-68 | Three compound assignments on the signed local produce `PseudoRandom(nSeed)`, a fixed function of the seed. The result is 0 exactly for the seeds 0 and 0xFC001FFF |
| BitManipulation.PseudoRandomCollides | BitManipulation/include/BitManipulation.h:63-65 | Every seed `s` and the distinct seed `s ^ 0xFC001FFF` give the same output, so the generator as written is not one-to-one |
| BitManipulation.PseudoRandomXor | BitManipulation/include/BitManipulation.h:63-65 | The round as written distributes over exclusive-or: the output for `a ^ b` is the exclusive-or of the outputs for `a` and `b` |
| BitManipulation.PseudoRandomTwoToOne | BitManipulation/include/BitManipulation.h:61-68 | Two seeds give the same output if and only if they are equal or differ by 0xFC001FFF, so the generator as written is exactly two-to-one |
| BitManipulation.PseudoRandomZeroSeeds | BitManipulation/include/BitManipulation.h:61-68 | The output is 0 if and only if the seed is 0 or 0xFC001FFF |
| BitManipulation.CollidingMaskStep | BitManipulation/include/BitManipulation.h:64 | `x ^= x << 13` sends 0xFC001FFF to the all-ones word, and undoing that step sends it back |
| BitManipulation.XorShift32RoundTrip | BitManipulation/include/BitManipulation.h:61-68 | With an unsigned shift by 17, the round has an inverse on both sides, so it is a permutation of the words |
| BitManipulation.XorShift32Injective | BitManipulation/include/BitManipulation.h:61-68 | With an unsigned shift by 17, distinct seeds give distinct outputs, and only seed 0 gives 0 |
| BitManipulation.XorInt32 | BitManipulation/include/BitManipulation.h:26-28 | `*a ^= *b` on the contents of two `int` objects. An `int` object is a `Cell` whose contents are an `Int32` word |
| BitManipulation.Differences | BitManipulation/include/BitManipulation.h:45 | `num = n ^ (n >> 1)` with the unsigned shift: bit i is set where bits i and i + 1 of `n` differ |
| BitManipulation.CarriesThrough | BitManipulation/include/BitManipulation.h:46 | `((num + 1) & num) == 0` with `num + 1` wrapping around |
| BitManipulation.PseudoRandom | BitManipulation/include/BitManipulation.h:63-66 | The generator's output for a seed: the three steps `x ^= x << 13`, `x ^= x >> 17` (arithmetic) and `x ^= x << 5`, in that order |
| BitManipulation.XorShift32 | BitManipulation/include/BitManipulation.h:61-68 | The corrected generator: the same three steps with the unsigned shift by 17 |
| BitManipulation.UndoXorShift32 | BitManipulation/include/BitManipulation.h:61-68 | The three steps of the corrected generator undone in reverse order |
| XorShift.Sar17 | BitManipulation/include/BitManipulation.h:65 | `x >> 17` on a signed `int`: the logical shift with the sign bit copied into the 17 vacated places |
| XorShift.XorShl13 | BitManipulation/include/BitManipulation.h:64 | `x ^= x << 13` |
| XorShift.XorSar17 | BitManipulation/include/BitManipulation.h:65 | `x ^= x >> 17` on a signed `int` |
| XorShift.XorShl5 | BitManipulation/include/BitManipulation.h:66 | `x ^= x << 5` |
| BitManipulation.IsNumberEven | BitManipulation/include/BitManipulation.h:75-78 | `(x & 1) == 0` if and only if the signed value of `x` is divisible by 2, negatives included |
| BitManipulation.IsNumberEvenExamples | BitManipulation/include/BitManipulation.h:75-78 | 4, 0 and -2 are even; 7 and -1 are not |
| BitManipulation.IsAtLeastOneBitSet | BitManipulation/include/BitManipulation.h:89-92 | `x | 0` converted to `bool` is true if and only if `x` is nonzero |
| BitManipulation.IsAtLeastOneBitSetFindsBit | BitManipulation/include/BitManipulation.h:80-84 | The result is true if and only if some bit of `x` is set, and if and only if the population count is positive |
| BitManipulation.GetBitCount | BitManipulation/include/BitManipulation.h:106-118 | The loop ends and returns the number of set bits of `x`, between 0 and 32. Each round removes one set bit from the copy, and the copy strictly decreases |
| BitManipulation.PopCountExamples | BitManipulation/include/BitManipulation.h:106-118 | The counts of 0, 7, 0x80000000 and 255 are 0, 3, 1 and 8 |
| Word32.ClearLowestBits | BitManipulation/include/BitManipulation.h:114 | `nCopy & (nCopy - 1)` clears the lowest set bit of `nCopy` and keeps every other bit |
| Word32.PopCountClearLowest | BitManipulation/include/BitManipulation.h:113-114 | On a nonzero word, `x & (x - 1)` has exactly one set bit fewer than `x` |
| Word32.ClearLowestDecreases | BitManipulation/include/BitManipulation.h:111-115 | On a nonzero word, `x & (x - 1)` is smaller than `x`, so the loop terminates |
| Word32.PopCountZero | BitManipulation/include/BitManipulation.h:111 | The population count is 0 if and only if the word is 0, so the loop stops exactly when every set bit has been counted |
| Word32.CountBitsClearLowest | BitManipulation/include/BitManipulation.h:101-103 | Within any width that holds `x`, clearing the lowest set bit of a nonzero `x` removes exactly one set bit |
| Word32.SomeBitSet | BitManipulation/include/BitManipulation.h:101 | A nonzero word has a lowest set bit, below its width |
| Word32.BitSetIffNonzero | BitManipulation/include/BitManipulation.h:81-84 | A word has a set bit if and only if it is nonzero |
| Word32.PopCountOneIffPower | BitManipulation/include/BitManipulation.h:7 | A word has one set bit if and only if its unsigned value is a power of two below 2^32 |
| Word32.Signed | BitManipulation/include/BitManipulation.h:75 | An `int` denotes a value in [-2^31, 2^31). It is negative exactly when bit 31 is set, and differs from the unsigned reading by 0 or 2^32 |
| Word32.SignedParity | BitManipulation/include/BitManipulation.h:77 | The signed value is odd exactly when bit 0 is set |
| Word32.SignedInjective | BitManipulation/include/BitManipulation.h:56-58 | Distinct words denote distinct `int` values |
| Word32.UnsignedShift | BitManipulation/include/BitManipulation.h:65 | Shifting an unsigned word right by k places divides its value by 2^k; the bits shifted out are the remainder |
| XorShift.Sar17Floor | BitManipulation/include/BitManipulation.h:65 | `x >> 17` on an `int` is the signed value divided by 2^17, rounded towards minus infinity, with the shifted-out bits as remainder |
| XorShift.Sar17NonNegative | BitManipulation/include/BitManipulation.h:65 | On a non-negative `int`, the arithmetic shift is the logical one |
| XorShift.Sar17Negative | BitManipulation/include/BitManipulation.h:65 | On a negative `int`, the arithmetic shift is the complement of the logically shifted complement |
| XorShift.XorSar17Zero | BitManipulation/include/BitManipulation.h:65 | `x ^ (x >> 17)` with the arithmetic shift is 0 exactly for 0 and the all-ones word, so that step is not one-to-one |
| XorShift.XorSar17Complement | BitManipulation/include/BitManipulation.h:65 | That step gives the same result for a word and its complement |
| XorShift.XorShr17Involution | BitManipulation/include/BitManipulation.h:65 | With the unsigned shift, `x ^ (x >> 17)` undoes itself |
| XorShift.UndoXorShl13Left | BitManipulation/include/BitManipulation.h:64 | `x ^= x << 13` is undone by `y ^ (y << 13) ^ (y << 26)` |
| XorShift.UndoXorShl13Right | BitManipulation/include/BitManipulation.h:64 | `x ^= x << 13` applied after that inverse gives back its input |
| XorShift.UndoXorShl5Left | BitManipulation/include/BitManipulation.h:66 | `x ^= x << 5` is undone by the Horner form of `y ^ (y << 5) ^ ... ^ (y << 30)` |
| XorShift.UndoXorShl5Right | BitManipulation/include/BitManipulation.h:66 | `x ^= x << 5` applied after that inverse gives back its input |
| XorShift.XorCancel | BitManipulation/include/BitManipulation.h:19-22 | Applying exclusive-or with `b` twice, from either side, gives back `a` |

## Left out

- Behaviour that is undefined or implementation-defined before C++20 is modelled with C++20 semantics. This covers the overflow of the signed `x << 13` and `x << 5`, the conversion of a large `unsigned int` to `int` in `int x = nSeed`, and the sign fill of `>>` on a negative `int`. The C++20 semantics are two's-complement wrap-around and the arithmetic right shift.
- BitManipulation.IsPowerOfTwo: `x - 1` overflows for the most negative `int`, which is undefined behaviour even in C++20. The model wraps around instead. The result does not depend on it, because `!x` is 0 there.
- BitManipulation.IsPowerOfTwoCorrected: `x - 1` on the most negative `int` wraps around to the largest `int` in the model, where C++ leaves the overflow undefined. The model therefore promises that the test accepts the most negative `int`, which C++ does not.
- BitManipulation.SwapNumbers: pointers are non-null references to `Cell`s. The null pointers the C++ code would dereference are not modelled.
- BitManipulation.GeneratePseudoRandomNumber: the statistical quality of the output is not modelled, because the code makes no checkable claim about it.
- The claims in the comments that bitwise operations are faster than `%` or `!= 0` are performance statements, not behaviour.
- `#pragma once`, the namespace and `inline` are header packaging with no behaviour.
- BitManipulation.GetBitCount: the `int` counter cannot overflow, because it stays at most 32. It is modelled as an unbounded integer.

## Findings

| source | as written | input that shows it | evidently intended | confidence | as-written member | corrected member |
|---|---|---|---|---|---|---|
| BitManipulation/include/BitManipulation.h:13 | `x && (!x & (x - 1))` is false for every `x`, because `!x` is 0 whenever `x` is nonzero | x = 1 (and every power of two) returns false | `x && !(x & (x - 1))`, the test the comment at lines 7-9 describes | high (proved; not executed) | BitManipulation.IsPowerOfTwoCounterexamples | BitManipulation.IsPowerOfTwoCorrected |
| BitManipulation/include/BitManipulation.h:63-65 | The seed is copied into a signed `int`, so `x >> 17` is arithmetic. The middle step then maps a word and its complement to the same value, the round is two-to-one, and a nonzero seed yields 0 | nSeed = 0xFC001FFF returns 0, as does nSeed = 0; every s and s ^ 0xFC001FFF collide | Marsaglia's xorshift32 on an `unsigned int`, a permutation of the nonzero words | medium (proved; not executed; intent inferred from the xorshift constants 13, 17, 5) | BitManipulation.PseudoRandomTwoToOne | BitManipulation.XorShift32RoundTrip |
