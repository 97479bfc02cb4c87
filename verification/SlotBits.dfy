/** The three flag bits and the remainder inside one packed element, and the index masks. */
module SlotBits {
  import opened Words
  import opened RingLayout

  /** The slot that an element encodes: occupied, continuation and shifted bits, then the remainder. */
  function Decode(elem: Word): Slot {
    Slot(Bit(elem, 0), Bit(elem, 1), Bit(elem, 2), elem / 8)
  }

  predicate IsOccupied(elem: Word)
    ensures IsOccupied(elem) <==> Decode(elem).occupied
  {
    TestBit(elem, 0);
    And(elem, 1) != 0
  }

  predicate IsContinuation(elem: Word)
    ensures IsContinuation(elem) <==> Decode(elem).continuation
  {
    TestBit(elem, 1);
    And(elem, 2) != 0
  }

  predicate IsShifted(elem: Word)
    ensures IsShifted(elem) <==> Decode(elem).shifted
  {
    TestBit(elem, 2);
    And(elem, 4) != 0
  }

  function SetOccupied(elem: Word): (r: Word)
    ensures Decode(r) == Decode(elem).(occupied := true)
  {
    SetFlag(elem, 0);
    WordOr(elem, 1)
  }

  function ClearOccupied(elem: Word): (r: Word)
    ensures Decode(r) == Decode(elem).(occupied := false) && r <= elem
  {
    ClearFlag(elem, 0);
    And(elem, Not(1))
  }

  function SetContinuation(elem: Word): (r: Word)
    ensures Decode(r) == Decode(elem).(continuation := true)
  {
    SetFlag(elem, 1);
    WordOr(elem, 2)
  }

  function ClearContinuation(elem: Word): (r: Word)
    ensures Decode(r) == Decode(elem).(continuation := false) && r <= elem
  {
    ClearFlag(elem, 1);
    And(elem, Not(2))
  }

  function SetShifted(elem: Word): (r: Word)
    ensures Decode(r) == Decode(elem).(shifted := true)
  {
    SetFlag(elem, 2);
    WordOr(elem, 4)
  }

  function ClearShifted(elem: Word): (r: Word)
    ensures Decode(r) == Decode(elem).(shifted := false) && r <= elem
  {
    ClearFlag(elem, 2);
    And(elem, Not(4))
  }

  function GetRemainder(elem: Word): (r: Word)
    ensures r == Decode(elem).rem
  {
    assert Shr(elem, 3) == Shr(elem / 2, 2) == Shr(elem / 2 / 2, 1) == Shr(elem / 2 / 2 / 2, 0);
    Shr(elem, 3)
  }

  predicate IsEmptyElement(elem: Word)
    ensures IsEmptyElement(elem) <==> Clear(Decode(elem))
  {
    TestLowBits(elem);
    And(elem, 7) == 0
  }

  predicate IsClusterStart(elem: Word) {
    IsOccupied(elem) && !IsContinuation(elem) && !IsShifted(elem)
  }

  predicate IsRunStart(elem: Word) {
    !IsContinuation(elem) && (IsOccupied(elem) || IsShifted(elem))
  }

  /** `(rem << 3) & ~7`: an element with a remainder and no flag. */
  function Plain(rem: Word): (r: Word)
    requires rem < MODULUS / 8
    ensures r == 8 * rem && Decode(r) == Slot(false, false, false, rem)
  {
    assert Pow2(3) == 8;
    ShlIsTimes(rem, 3);
    PlainIsMasked(8 * rem);
    And(Shl(rem, 3), Not(7))
  }

  // ----- proofs

  lemma {:induction false} BitPow2(j: nat, k: nat)
    ensures Bit(Pow2(j), k) <==> j == k
  {
    if j == 0 {
      if k > 0 {
        BitOfZero(k - 1);
      }
    } else if k > 0 {
      BitPow2(j - 1, k - 1);
    }
  }

  lemma SmallPowers()
    ensures Pow2(0) == 1 && Pow2(1) == 2 && Pow2(2) == 4 && Pow2(3) == 8
  {
    assert Pow2(1) == 2 * Pow2(0);
    assert Pow2(3) == 2 * Pow2(2);
  }

  lemma TestBit(elem: Word, j: nat)
    requires j < 3
    ensures Bit(elem, j) <==> And(elem, Pow2(j)) != 0
    ensures Pow2(0) == 1 && Pow2(1) == 2 && Pow2(2) == 4
  {
    SmallPowers();
    Pow2Is64();
    BitAnd(elem, Pow2(j), j);
    BitPow2(j, j);
    if And(elem, Pow2(j)) == 0 {
      BitOfZero(j);
    } else if !Bit(elem, j) {
      forall k: nat | k < 64
        ensures Bit(And(elem, Pow2(j)), k) == Bit(0, k)
      {
        BitAnd(elem, Pow2(j), k);
        BitPow2(j, k);
        BitOfZero(k);
      }
      SameBits(And(elem, Pow2(j)), 0, 64);
    }
  }

  /** Elements that agree on every bit from the third on have the same remainder. */
  lemma SameRemainder(x: Word, y: Word)
    requires forall k: nat :: 3 <= k < 64 ==> Bit(x, k) == Bit(y, k)
    ensures x / 8 == y / 8
  {
    Pow2Is64();
    assert Pow2(64) == 8 * Pow2(61);
    forall k: nat | k < 61
      ensures Bit(x / 8, k) == Bit(y / 8, k)
    {
      EighthBit(x, k);
      EighthBit(y, k);
    }
    SameBits(x / 8, y / 8, 61);
  }

  lemma EighthBit(x: nat, k: nat)
    ensures Bit(x, k + 3) == Bit(x / 8, k)
  {
    assert x / 2 / 2 / 2 == x / 8;
    assert Bit(x, k + 3) == Bit(x / 2, k + 2);
    assert Bit(x / 2, k + 2) == Bit(x / 2 / 2, k + 1);
  }

  lemma SetFlag(elem: Word, j: nat)
    requires j < 3
    ensures Pow2(0) == 1 && Pow2(1) == 2 && Pow2(2) == 4
    ensures forall k: nat {:trigger Bit(Or(elem, Pow2(j)), k)} :: Bit(Or(elem, Pow2(j)), k) == (Bit(elem, k) || k == j)
    ensures Or(elem, Pow2(j)) < MODULUS && Or(elem, Pow2(j)) / 8 == elem / 8
  {
    SmallPowers();
    Pow2Is64();
    OrBound(elem, Pow2(j), 64);
    forall k: nat
      ensures Bit(Or(elem, Pow2(j)), k) == (Bit(elem, k) || k == j)
    {
      BitOr(elem, Pow2(j), k);
      BitPow2(j, k);
    }
    SameRemainder(Or(elem, Pow2(j)), elem);
  }

  lemma ClearFlag(elem: Word, j: nat)
    requires j < 3
    ensures Pow2(0) == 1 && Pow2(1) == 2 && Pow2(2) == 4
    ensures forall k: nat {:trigger Bit(And(elem, Not(Pow2(j))), k)} ::
              k < 64 ==> Bit(And(elem, Not(Pow2(j))), k) == (Bit(elem, k) && k != j)
    ensures And(elem, Not(Pow2(j))) / 8 == elem / 8
  {
    SmallPowers();
    forall k: nat | k < 64
      ensures Bit(And(elem, Not(Pow2(j))), k) == (Bit(elem, k) && k != j)
    {
      BitAnd(elem, Not(Pow2(j)), k);
      BitNot(Pow2(j), k);
      BitPow2(j, k);
    }
    SameRemainder(And(elem, Not(Pow2(j))), elem);
  }

  lemma BitsOfSeven(k: nat)
    ensures Bit(7, k) <==> k < 3
  {
    SmallPowers();
    BitOnes(3, k);
  }

  lemma TestLowBits(elem: Word)
    ensures And(elem, 7) == 0 <==> Clear(Decode(elem))
  {
    Pow2Is64();
    forall k: nat
      ensures Bit(And(elem, 7), k) == (Bit(elem, k) && k < 3)
    {
      BitAnd(elem, 7, k);
      BitsOfSeven(k);
    }
    if And(elem, 7) == 0 {
      forall k: nat | k < 3
        ensures !Bit(elem, k)
      {
        BitOfZero(k);
        assert !Bit(And(elem, 7), k);
      }
    } else if Clear(Decode(elem)) {
      forall k: nat | k < 64
        ensures Bit(And(elem, 7), k) == Bit(0, k)
      {
        BitOfZero(k);
        assert k < 3 ==> k == 0 || k == 1 || k == 2;
      }
      SameBits(And(elem, 7), 0, 64);
    }
  }

  lemma LowBitsOfMultiple(x: nat, k: nat)
    requires x % 8 == 0 && k < 3
    ensures !Bit(x, k)
  {
    if k == 1 {
      assert Bit(x, 1) == Bit(x / 2, 0);
    } else if k == 2 {
      assert Bit(x, 2) == Bit(x / 2, 1) == Bit(x / 2 / 2, 0);
    }
  }

  lemma PlainIsMasked(x: Word)
    requires x % 8 == 0
    ensures And(x, Not(7)) == x
    ensures !Bit(x, 0) && !Bit(x, 1) && !Bit(x, 2)
  {
    LowBitsOfMultiple(x, 0);
    LowBitsOfMultiple(x, 1);
    LowBitsOfMultiple(x, 2);
    Pow2Is64();
    forall k: nat | k < 64
      ensures Bit(And(x, Not(7)), k) == Bit(x, k)
    {
      BitAnd(x, Not(7), k);
      BitNot(7, k);
      BitsOfSeven(k);
      if k < 3 {
        LowBitsOfMultiple(x, k);
      }
    }
    SameBits(And(x, Not(7)), x, 64);
  }

  // ----- index and hash masks

  lemma MaskIsMod(x: Word, n: nat)
    requires n < 64
    ensures And(x, LowMask(n)) == x % Pow2(n)
  {
    LowMaskValue(n);
    forall k: nat | k < n
      ensures Bit(And(x, LowMask(n)), k) == Bit(x % Pow2(n), k)
    {
      BitAnd(x, LowMask(n), k);
      BitLowMask(n, k);
      BitMod(x, n, k);
    }
    SameBits(And(x, LowMask(n)), x % Pow2(n), n);
  }

  lemma RingSizeFits(qBits: nat)
    requires qBits < 63
    ensures 2 * Pow2(qBits) < MODULUS
  {
    Pow2Is64();
    Pow2Monotone(qBits + 1, 63);
  }

  lemma MaskOfNext(index: nat, n: nat)
    requires n < 63 && index < Pow2(n)
    ensures index + 1 < MODULUS && And(index + 1, LowMask(n)) == Next(index, Pow2(n))
  {
    RingSizeFits(n);
    MaskIsMod(index + 1, n);
    if index + 1 == Pow2(n) {
      ModUnique(index + 1, Pow2(n), 1, 0);
    } else {
      ModUnique(index + 1, Pow2(n), 0, index + 1);
    }
  }

  lemma MaskOfPrev(index: nat, n: nat)
    requires n < 63 && 0 < index < Pow2(n)
    ensures index - 1 < MODULUS && And(index - 1, LowMask(n)) == index - 1
  {
    RingSizeFits(n);
    MaskIsMod(index - 1, n);
    ModUnique(index - 1, Pow2(n), 0, index - 1);
  }

  /** `(index + 1) & indexMask` is the next slot of the ring. */
  function Increase(index: Word, qBits: nat): (r: Word)
    requires qBits < 63 && index < Pow2(qBits)
    ensures r == Next(index, Pow2(qBits))
  {
    MaskOfNext(index, qBits);
    And(index + 1, LowMask(qBits))
  }

  /** `(index - 1) & indexMask`, with the unsigned subtraction wrapping at zero. */
  function Decrease(index: Word, qBits: nat): (r: Word)
    requires qBits < 63 && index < Pow2(qBits)
    ensures r == Prev(index, Pow2(qBits))
  {
    if index == 0 then
      OnesMasked(qBits);
      And(MODULUS - 1, LowMask(qBits))
    else
      MaskOfPrev(index, qBits);
      And(index - 1, LowMask(qBits))
  }

  lemma OnesMasked(n: nat)
    requires n < 64
    ensures And(MODULUS - 1, LowMask(n)) == LowMask(n) == Pow2(n) - 1
  {
    LowMaskValue(n);
    Pow2Is64();
    forall k: nat | k < n
      ensures Bit(And(MODULUS - 1, LowMask(n)), k) == Bit(LowMask(n), k)
    {
      BitAnd(MODULUS - 1, LowMask(n), k);
      BitOnes(64, k);
      BitLowMask(n, k);
    }
    SameBits(And(MODULUS - 1, LowMask(n)), LowMask(n), n);
  }
}
