/** Fixed-width elements packed back to back into 64-bit words: the quotient filter's
    `getElement` and `setElement`, and the proof that the packed words are an array of
    independent slots, including slots that straddle two words. */
module PackedSlots {
  import opened Words

  /** Bit `p` of the whole packed area. */
  predicate AreaBit(words: seq<Word>, p: nat) {
    p / 64 < |words| && Bit(words[p / 64], p % 64)
  }

  /** `count` elements of `width` bits fit into the words. */
  predicate Fits(words: seq<Word>, width: nat, count: nat) {
    0 < width < 64 && count * width <= 64 * |words|
  }

  lemma InArea(words: seq<Word>, width: nat, count: nat, index: nat)
    requires Fits(words, width, count) && index < count
    ensures 0 <= width * index && width * (index + 1) <= 64 * |words|
    ensures (width * index) / 64 < |words|
    ensures (width * index) % 64 + width > 64 ==> (width * index) / 64 + 1 < |words|
  {
    MulMonotone(index + 1, count, width);
    assert width * (index + 1) == width * index + width;
  }

  /** The element that starts at bit `slotPos` of word `tabPos`: the part in that word, and the spilled
      high bits from the next one. */
  function Field(words: seq<Word>, tabPos: nat, slotPos: nat, width: nat): (elem: Word)
    requires 0 < width < 64 && slotPos < 64 && tabPos < |words|
    requires slotPos + width > 64 ==> tabPos + 1 < |words|
  {
    var spillBits := slotPos + width - 64;
    var elem := And(Shr(words[tabPos], slotPos), LowMask(width));
    if spillBits > 0 then
      var x := And(words[tabPos + 1], LowMask(spillBits));
      WordOr(elem, Shl(x, width - spillBits))
    else
      elem
  }

  function GetElement(words: seq<Word>, width: nat, ghost count: nat, index: nat): (elem: Word)
    requires Fits(words, width, count) && index < count
  {
    InArea(words, width, count, index);
    var bitPos := width * index;
    Field(words, bitPos / 64, bitPos % 64, width)
  }

  lemma AreaBitAt(words: seq<Word>, t: nat, b: nat)
    requires b < 64
    ensures AreaBit(words, 64 * t + b) == (t < |words| && Bit(words[t], b))
  {
    assert (64 * t + b) / 64 == t && (64 * t + b) % 64 == b;
  }

  lemma FirstPartBit(w: Word, slotPos: nat, width: nat, k: nat)
    requires 0 < width < 64 && slotPos < 64
    ensures Bit(And(Shr(w, slotPos), LowMask(width)), k) == (slotPos + k < 64 && k < width && Bit(w, slotPos + k))
  {
    BitAnd(Shr(w, slotPos), LowMask(width), k);
    BitShr(w, slotPos, k);
    BitLowMask(width, k);
    if slotPos + k >= 64 {
      Pow2Is64();
      HighBitsClear(w, 64, slotPos + k);
    }
  }

  lemma SpilledPartBit(w: Word, spill: nat, width: nat, k: nat)
    requires 0 < spill <= width < 64 && k < 64
    ensures Bit(Shl(And(w, LowMask(spill)), width - spill), k)
         == (width - spill <= k < width && Bit(w, k - (width - spill)))
  {
    BitShl(And(w, LowMask(spill)), width - spill, k);
    if width - spill <= k {
      BitAnd(w, LowMask(spill), k - (width - spill));
      BitLowMask(spill, k - (width - spill));
    }
  }

  lemma FieldBit(words: seq<Word>, tabPos: nat, slotPos: nat, width: nat, k: nat)
    requires 0 < width < 64 && slotPos < 64 && tabPos < |words| && k < 64
    requires slotPos + width > 64 ==> tabPos + 1 < |words|
    ensures Bit(Field(words, tabPos, slotPos, width), k)
         == (k < width && if slotPos + k < 64 then Bit(words[tabPos], slotPos + k)
                          else Bit(words[tabPos + 1], slotPos + k - 64))
  {
    var spill := slotPos + width - 64;
    var elem := And(Shr(words[tabPos], slotPos), LowMask(width));
    FirstPartBit(words[tabPos], slotPos, width, k);
    if spill > 0 {
      var high := Shl(And(words[tabPos + 1], LowMask(spill)), width - spill);
      SpilledPartBit(words[tabPos + 1], spill, width, k);
      BitOr(elem, high, k);
    }
  }

  lemma GetElementBit(words: seq<Word>, width: nat, count: nat, index: nat, k: nat)
    requires Fits(words, width, count) && index < count && k < 64
    ensures width * index >= 0
    ensures Bit(GetElement(words, width, count, index), k) == (k < width && AreaBit(words, width * index + k))
  {
    InArea(words, width, count, index);
    var bitPos := width * index;
    var slotPos, tabPos := bitPos % 64, bitPos / 64;
    FieldBit(words, tabPos, slotPos, width, k);
    if slotPos + k < 64 {
      AreaBitAt(words, tabPos, slotPos + k);
    } else {
      AreaBitAt(words, tabPos + 1, slotPos + k - 64);
    }
  }

  lemma GetElementBound(words: seq<Word>, width: nat, count: nat, index: nat)
    requires Fits(words, width, count) && index < count
    ensures GetElement(words, width, count, index) < Pow2(width)
  {
    var e := GetElement(words, width, count, index);
    Pow2Is64();
    Pow2Monotone(width, 64);
    forall k: nat | width <= k < 64
      ensures !Bit(e, k)
    {
      GetElementBit(words, width, count, index, k);
    }
    BelowPow2(e, width, 64);
  }

  lemma {:induction false} BelowPow2(x: nat, w: nat, top: nat)
    requires w <= top && x < Pow2(top)
    requires forall k: nat :: w <= k < top ==> !Bit(x, k)
    ensures x < Pow2(w)
    decreases w
  {
    if w == 0 {
      forall k: nat | k < top
        ensures Bit(x, k) == Bit(0, k)
      {
        BitOfZero(k);
      }
      SameBits(x, 0, top);
    } else {
      forall k: nat | w - 1 <= k < top - 1
        ensures !Bit(x / 2, k)
      {
        assert !Bit(x, k + 1);
      }
      BelowPow2(x / 2, w - 1, top - 1);
    }
  }

  /** What one call of `setElement` does to the packed area: bits `start .. start + width` become the
      element's bits and no other bit changes. */
  ghost predicate Overwritten(before: seq<Word>, after: seq<Word>, start: nat, width: nat, elem: Word) {
    && |after| == |before|
    && forall p: nat {:trigger AreaBit(after, p)} ::
         AreaBit(after, p) == if start <= p < start + width then Bit(elem, p - start) else AreaBit(before, p)
  }

  /** Clearing the field at `slotPos` of one word and storing `elem` there. */
  lemma FirstWordBit(w: Word, width: nat, slotPos: nat, elem: Word, b: nat)
    requires 0 < width < 64 && slotPos < 64 && b < 64 && elem < Pow2(width)
    ensures Bit(WordOr(And(w, Not(Shl(LowMask(width), slotPos))), Shl(elem, slotPos)), b)
         == if slotPos <= b < slotPos + width then Bit(elem, b - slotPos) else Bit(w, b)
  {
    var mask := Shl(LowMask(width), slotPos);
    BitOr(And(w, Not(mask)), Shl(elem, slotPos), b);
    BitAnd(w, Not(mask), b);
    BitNot(mask, b);
    BitShl(LowMask(width), slotPos, b);
    BitShl(elem, slotPos, b);
    if slotPos <= b {
      BitLowMask(width, b - slotPos);
      if width <= b - slotPos {
        HighBitsClear(elem, width, b - slotPos);
      }
    }
  }

  /** Clearing the `spill` low bits of the next word and storing the high bits of `elem` there. */
  lemma NextWordBit(w: Word, width: nat, spill: nat, elem: Word, b: nat)
    requires 0 < spill <= width < 64 && b < 64 && elem < Pow2(width)
    ensures Bit(WordOr(And(w, Not(LowMask(spill))), Shr(elem, width - spill)), b)
         == if b < spill then Bit(elem, b + width - spill) else Bit(w, b)
  {
    BitOr(And(w, Not(LowMask(spill))), Shr(elem, width - spill), b);
    BitAnd(w, Not(LowMask(spill)), b);
    BitNot(LowMask(spill), b);
    BitLowMask(spill, b);
    BitShr(elem, width - spill, b);
    if spill <= b {
      HighBitsClear(elem, width, b + width - spill);
    }
  }

  /** The words after writing one element, as `setElement` computes them. */
  function Stored(words: seq<Word>, width: nat, ghost count: nat, index: nat, elem: Word): (after: seq<Word>)
    requires Fits(words, width, count) && index < count
    ensures |after| == |words|
  {
    InArea(words, width, count, index);
    var bitPos := width * index;
    var slotPos, tabPos := bitPos % 64, bitPos / 64;
    var spill := slotPos + width - 64;
    var first := words[tabPos :=
      WordOr(And(words[tabPos], Not(Shl(LowMask(width), slotPos))), Shl(elem, slotPos))];
    if spill > 0 then
      first[tabPos + 1 := WordOr(And(words[tabPos + 1], Not(LowMask(spill))), Shr(elem, width - spill))]
    else
      first
  }

  lemma StoredOverwrites(words: seq<Word>, width: nat, count: nat, index: nat, elem: Word)
    requires Fits(words, width, count) && index < count && elem < Pow2(width)
    ensures width * index >= 0
    ensures Overwritten(words, Stored(words, width, count, index, elem), width * index, width, elem)
  {
    InArea(words, width, count, index);
    var bitPos := width * index;
    var slotPos, tabPos := bitPos % 64, bitPos / 64;
    var spill := slotPos + width - 64;
    var after := Stored(words, width, count, index, elem);
    forall p: nat
      ensures AreaBit(after, p)
           == if bitPos <= p < bitPos + width then Bit(elem, p - bitPos) else AreaBit(words, p)
    {
      var t, b := p / 64, p % 64;
      if t == tabPos {
        FirstWordBit(words[t], width, slotPos, elem, b);
      } else if t == tabPos + 1 && spill > 0 {
        NextWordBit(words[t], width, spill, elem, b);
      }
    }
  }

  lemma SlotsApart(width: nat, i: nat, j: nat)
    requires i != j
    ensures width * (j + 1) <= width * i || width * (i + 1) <= width * j
  {
    if i < j {
      MulMonotone(i + 1, j, width);
    } else {
      MulMonotone(j + 1, i, width);
    }
  }

  /** The packed words behave as an array of independent slots. */
  lemma SlotsAreIndependent(words: seq<Word>, width: nat, count: nat, index: nat, elem: Word, j: nat)
    requires Fits(words, width, count) && index < count && j < count && elem < Pow2(width)
    ensures Fits(Stored(words, width, count, index, elem), width, count)
    ensures GetElement(Stored(words, width, count, index, elem), width, count, j)
         == if j == index then elem else GetElement(words, width, count, j)
  {
    var after := Stored(words, width, count, index, elem);
    StoredOverwrites(words, width, count, index, elem);
    var e := if j == index then elem else GetElement(words, width, count, j);
    var r := GetElement(after, width, count, j);
    GetElementBound(words, width, count, j);
    GetElementBound(after, width, count, j);
    forall k: nat | k < width
      ensures Bit(r, k) == Bit(e, k)
    {
      GetElementBit(after, width, count, j, k);
      GetElementBit(words, width, count, j, k);
      if j != index {
        SlotsApart(width, index, j);
        assert width * (j + 1) == width * j + width;
        assert width * (index + 1) == width * index + width;
      }
      assert AreaBit(after, width * j + k)
          == if width * index <= width * j + k < width * index + width
             then Bit(elem, width * j + k - width * index) else AreaBit(words, width * j + k);
    }
    SameBits(r, e, width);
  }

  /** `setElement`, updating the words in place. */
  method SetElement(filter: array<Word>, width: nat, ghost count: nat, index: nat, elem: Word)
    requires Fits(filter[..], width, count) && index < count
    modifies filter
    ensures Fits(filter[..], width, count)
    ensures GetElement(filter[..], width, count, index) == And(elem, LowMask(width))
    ensures forall j: nat :: j < count && j != index ==>
              GetElement(filter[..], width, count, j) == old(GetElement(filter[..], width, count, j))
  {
    ghost var before := filter[..];
    InArea(before, width, count, index);
    var bitPos := width * index;
    var slotPos := bitPos % 64;
    var spillBits := slotPos + width - 64;
    var tabPos := bitPos / 64;
    var masked: Word := And(elem, LowMask(width));
    LowMaskValue(width);
    filter[tabPos] := And(filter[tabPos], Not(Shl(LowMask(width), slotPos)));
    filter[tabPos] := WordOr(filter[tabPos], Shl(masked, slotPos));
    if spillBits > 0 {
      tabPos := tabPos + 1;
      filter[tabPos] := And(filter[tabPos], Not(LowMask(spillBits)));
      filter[tabPos] := WordOr(filter[tabPos], Shr(masked, width - spillBits));
    }
    assert filter[..] == Stored(before, width, count, index, masked);
    forall j: nat | j < count
      ensures GetElement(filter[..], width, count, j)
           == if j == index then masked else GetElement(before, width, count, j)
    {
      SlotsAreIndependent(before, width, count, index, masked, j);
    }
  }
}
