/** Bit-flag helpers on a mask passed by reference. The C++ templates work for any integral
    `T`; the model fixes `T` to the 64-bit `unsigned long` of an LP64 platform, and an update
    of the caller's mask is the method's result, the new value of that mask. */
module FlagOps {
  type Mask = bv64

  /** A mask with exactly one bit set. */
  predicate IsBit(b: Mask) {
    b != 0 && b & (b - 1) == 0
  }

  /** `FlagTest(mask, flag)`: whether every bit of `flag` is set in `mask` (FlagTestMeaning
      states it bit by bit). */
  predicate FlagTest(mask: Mask, flag: Mask) {
    (mask & flag) == flag
  }

  /** `FlagSet(mask, flag)`: `mask |= flag`. */
  method FlagSet(mask: Mask, flag: Mask) returns (after: Mask)
    ensures after & flag == flag && FlagTest(after, flag)
    ensures after & !flag == mask & !flag
  {
    after := mask | flag;
  }

  /** `FlagClear(mask, flag)`: `mask &= ~flag`. */
  method FlagClear(mask: Mask, flag: Mask) returns (after: Mask)
    ensures after & flag == 0
    ensures flag != 0 ==> !FlagTest(after, flag)
    ensures after & !flag == mask & !flag
  {
    after := mask & !flag;
  }

  /** `FlagFlip(mask, flag)`: `mask ^= flag`. */
  method FlagFlip(mask: Mask, flag: Mask) returns (after: Mask)
    ensures after & flag == !mask & flag
    ensures after & !flag == mask & !flag
  {
    after := mask ^ flag;
  }

  // ---------------------------------------------------------------------------------------
  // Proofs

  /** The effect `FlagFlip` promises, applied twice with the same flag, restores the mask. */
  lemma FlipInvolution(mask: Mask, flag: Mask, once: Mask, twice: Mask)
    requires once & flag == !mask & flag && mask & !flag == once & !flag
    requires twice & flag == !once & flag && once & !flag == twice & !flag
    ensures twice == mask
  {
  }

  /** What `FlagSet` and `FlagClear` promise fixes the new mask: the flag bits as given and
      every other bit kept. */
  lemma SetAndClearDetermined(mask: Mask, flag: Mask, after: Mask)
    requires after & !flag == mask & !flag
    ensures after & flag == flag ==> after == mask | flag
    ensures after & flag == 0 ==> after == mask & !flag
  {
  }

  /** `FlagTest(mask, flag)` holds exactly when every single bit of `flag` is also in `mask`. */
  lemma FlagTestMeaning(mask: Mask, flag: Mask)
    ensures FlagTest(mask, flag) <==> forall b | IsBit(b) && b & flag != 0 :: b & mask != 0
  {
    hide IsBit, FlagTest;
    if FlagTest(mask, flag) {
      forall b | IsBit(b) && b & flag != 0 ensures b & mask != 0 {
        BitOfTested(mask, flag, b);
      }
    } else {
      var b := MissingBit(mask, flag);
    }
  }

  /** Every mask passes the test against itself. */
  lemma FlagTestSelf(mask: Mask)
    ensures FlagTest(mask, mask)
  {
  }

  /** A mask with one flag bit among others passes the test for that bit. */
  lemma FlagTestOneOfTwo()
    ensures FlagTest(0x100010, 0x10) && !FlagTest(0x10, 0x100010)
  {
  }

  lemma BitOfTested(mask: Mask, flag: Mask, b: Mask)
    requires FlagTest(mask, flag) && b & flag != 0
    ensures b & mask != 0
  {
  }

  /** A flag that fails the test has a single bit that the mask lacks. */
  lemma MissingBit(mask: Mask, flag: Mask) returns (b: Mask)
    requires !FlagTest(mask, flag)
    ensures IsBit(b) && b & flag != 0 && b & mask == 0
  {
    var d := Outside(mask, flag);
    b := LowestBit(d);
    InFlagOnly(mask, flag, d, b);
  }

  /** The bits of a failing flag that the mask lacks. */
  lemma Outside(mask: Mask, flag: Mask) returns (d: Mask)
    requires !FlagTest(mask, flag)
    ensures d != 0 && d == flag & !mask
  {
    d := flag & !mask;
  }

  lemma InFlagOnly(mask: Mask, flag: Mask, d: Mask, b: Mask)
    requires d == flag & !mask && b != 0 && b & d == b
    ensures b & flag != 0 && b & mask == 0
  {
  }

  /** The lowest set bit of a non-zero mask, `d & -d` in two's complement. */
  lemma LowestBit(d: Mask) returns (b: Mask)
    requires d != 0
    ensures IsBit(b) && b != 0 && b & d == b
  {
    b := d & (0 - d);
  }
}
