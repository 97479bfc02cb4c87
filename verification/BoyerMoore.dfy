/** Boyer-Moore with the strong good-suffix rule. */
module BoyerMoore {
  import opened Matching

  /** The pattern shifted right by `s` agrees with itself at position `k`. */
  ghost predicate Agrees(p: seq<Byte>, s: int, k: int)
    requires 0 <= s <= k < |p|
  {
    p[k - s] == p[k]
  }

  /** After a mismatch at pattern position `j`, with everything right of it matched, shifting the pattern by `s`
      can only succeed if the shifted pattern agrees with what was matched and differs from what was not. */
  ghost predicate Compatible(p: seq<Byte>, j: int, s: int)
    requires 0 <= j < |p|
  {
    && 1 <= s <= |p|
    && (forall k :: j < k < |p| && s <= k ==> Agrees(p, s, k))
    && (s <= j ==> !Agrees(p, s, j))
  }

  /** `s` is the smallest compatible shift for a mismatch at `j`. */
  ghost predicate LeastShift(p: seq<Byte>, j: int, s: int)
    requires 0 <= j < |p|
  {
    Compatible(p, j, s) && forall x :: 1 <= x < s ==> !Compatible(p, j, x)
  }

  /** `s` is the smallest compatible shift among those past the mismatch and those from `low` on. */
  ghost predicate LeastFrom(p: seq<Byte>, j: int, s: int, low: int)
    requires 0 <= j < |p|
  {
    Compatible(p, j, s) && forall x :: 1 <= x < s && (j < x || low <= x) ==> !Compatible(p, j, x)
  }

  ghost predicate GoodSuffixFrom(table: seq<nat>, p: seq<Byte>, from: int, low: int) {
    |p| <= |table| && forall j :: 0 <= from <= j < |p| ==> LeastFrom(p, j, table[j] - (|p| - 1 - j), low)
  }

  /** The good-suffix table: for every mismatch position the least compatible shift, plus the distance of the
      position from the end of the pattern. */
  ghost predicate GoodSuffixTable(table: seq<nat>, p: seq<Byte>) {
    |p| <= |table| && forall j :: 0 <= j < |p| ==> LeastShift(p, j, table[j] - (|p| - 1 - j))
  }

  /** The suffix from `start` on is also a prefix of the pattern. */
  ghost predicate SuffixIsPrefix(p: seq<Byte>, start: int) {
    0 <= start <= |p| && forall k :: start <= k < |p| ==> Agrees(p, start, k)
  }

  method IsPrefixFrom(p: seq<Byte>, start: nat) returns (isPrefix: bool)
    requires start <= |p|
    ensures isPrefix <==> SuffixIsPrefix(p, start)
  {
    isPrefix := true;
    for i := 0 to |p| - start
      invariant isPrefix && forall k :: start <= k < start + i ==> Agrees(p, start, k)
    {
      if p[i] != p[start + i] {
        assert !Agrees(p, start, start + i);
        return false;
      }
    }
  }

  /** Shifts beyond the mismatch position are compatible exactly when the rest is a prefix. */
  lemma LongShift(p: seq<Byte>, j: int, s: int)
    requires 0 <= j < s <= |p|
    ensures Compatible(p, j, s) <==> SuffixIsPrefix(p, s)
  {
  }

  /** The first pass: shifts that move the mismatch position out of the pattern. */
  method FillFromPrefixes(table: array<nat>, p: seq<Byte>)
    requires table.Length == 256 && 0 < |p| <= 256
    modifies table
    ensures GoodSuffixFrom(table[..], p, 0, |p|)
  {
    var lastPrefixIdx := 1;
    var pos := |p| - 1;
    while pos >= 0
      invariant -1 <= pos < |p|
      invariant pos < |p| - 1 ==> LeastPrefix(p, pos + 1, lastPrefixIdx)
      invariant GoodSuffixFrom(table[..], p, pos + 1, |p|)
    {
      var isPrefix := IsPrefixFrom(p, pos + 1);
      if isPrefix {
        lastPrefixIdx := pos + 1;
      }
      assert LeastPrefix(p, pos, lastPrefixIdx);
      LeastLongShift(p, pos, lastPrefixIdx);
      ghost var before := table[..];
      table[pos] := lastPrefixIdx + (|p| - 1 - pos);
      PrefixPassStep(before, table[..], p, pos, lastPrefixIdx);
      pos := pos - 1;
    }
  }

  /** `s` is the first start past `j` of a suffix that is also a prefix. */
  ghost predicate LeastPrefix(p: seq<Byte>, j: int, s: int) {
    j < s <= |p| && SuffixIsPrefix(p, s) && forall x :: j < x < s ==> !SuffixIsPrefix(p, x)
  }

  lemma PrefixPassStep(before: seq<nat>, after: seq<nat>, p: seq<Byte>, pos: int, s: int)
    requires 0 <= pos < |p| && GoodSuffixFrom(before, p, pos + 1, |p|) && LeastFrom(p, pos, s, |p|)
    requires after == before[pos := s + (|p| - 1 - pos)]
    ensures GoodSuffixFrom(after, p, pos, |p|)
  {
    forall j | pos <= j < |p|
      ensures LeastFrom(p, j, after[j] - (|p| - 1 - j), |p|)
    {
      assert pos < j ==> LeastFrom(p, j, before[j] - (|p| - 1 - j), |p|);
    }
  }

  lemma LeastLongShift(p: seq<Byte>, j: int, s: int)
    requires 0 <= j && LeastPrefix(p, j, s)
    ensures LeastFrom(p, j, s, |p|)
  {
    LongShift(p, j, s);
    forall x | 1 <= x < s && (j < x || |p| <= x)
      ensures !Compatible(p, j, x)
    {
      LongShift(p, j, x);
    }
  }

  /** The last `len` bytes before and including `pos` equal the last `len` bytes of the pattern. */
  ghost predicate CommonSuffix(p: seq<Byte>, pos: int, len: int) {
    0 <= pos < |p| && 0 <= len <= pos + 1 && AgreesPast(p, |p| - 1 - pos, |p| - 1 - len)
  }

  ghost predicate AgreesPast(p: seq<Byte>, s: int, j: int)
    requires 0 <= s <= j + 1
  {
    forall k :: j < k < |p| ==> Agrees(p, s, k)
  }

  /** A shift of |p| - 1 - pos is compatible only with the position at which the common suffix breaks. */
  lemma ShortShift(p: seq<Byte>, pos: int, len: int, j: int)
    requires 0 <= pos < |p| - 1 && CommonSuffix(p, pos, len) && |p| - 1 - pos <= j < |p|
    requires len <= pos ==> !Agrees(p, |p| - 1 - pos, |p| - 1 - len)
    ensures Compatible(p, j, |p| - 1 - pos) <==> len <= pos && j == |p| - 1 - len
  {
  }

  method CommonSuffixLength(p: seq<Byte>, pos: nat) returns (suffixLen: nat)
    requires pos < |p| - 1
    ensures CommonSuffix(p, pos, suffixLen)
    ensures suffixLen <= pos ==> !Agrees(p, |p| - 1 - pos, |p| - 1 - suffixLen)
  {
    suffixLen := 0;
    while suffixLen <= pos && suffixLen <= |p| - 1 && p[pos - suffixLen] == p[|p| - 1 - suffixLen]
      invariant CommonSuffix(p, pos, suffixLen)
      decreases |p| - suffixLen
    {
      suffixLen := suffixLen + 1;
    }
  }

  /** The second pass: shifts that keep the mismatch position inside the pattern, larger shifts first. */
  method FillFromSuffixes(table: array<nat>, p: seq<Byte>)
    requires table.Length == 256 && 0 < |p| <= 256
    requires GoodSuffixFrom(table[..], p, 0, |p|)
    modifies table
    ensures GoodSuffixTable(table[..], p)
  {
    var m := |p|;
    for pos := 0 to m - 1
      invariant GoodSuffixFrom(table[..], p, 0, m - pos)
    {
      var suffixLen := CommonSuffixLength(p, pos);
      ghost var before := table[..];
      if suffixLen <= pos && suffixLen <= m - 1 && p[pos - suffixLen] != p[m - 1 - suffixLen] {
        table[m - 1 - suffixLen] := m - 1 - pos + suffixLen;
      }
      SuffixPassStep(before, table[..], p, pos, suffixLen);
    }
    AllShifts(table[..], p);
  }

  lemma AllShifts(table: seq<nat>, p: seq<Byte>)
    requires GoodSuffixFrom(table, p, 0, 1)
    ensures GoodSuffixTable(table, p)
  {
    forall j | 0 <= j < |p|
      ensures LeastShift(p, j, table[j] - (|p| - 1 - j))
    {
      assert LeastFrom(p, j, table[j] - (|p| - 1 - j), 1);
    }
  }

  lemma SuffixPassStep(before: seq<nat>, after: seq<nat>, p: seq<Byte>, pos: int, len: int)
    requires 0 <= pos < |p| - 1 && CommonSuffix(p, pos, len)
    requires len <= pos ==> !Agrees(p, |p| - 1 - pos, |p| - 1 - len)
    requires GoodSuffixFrom(before, p, 0, |p| - pos)
    requires after == if len <= pos then before[|p| - 1 - len := |p| - 1 - pos + len] else before
    ensures GoodSuffixFrom(after, p, 0, |p| - pos - 1)
  {
    forall j | 0 <= j < |p|
      ensures LeastFrom(p, j, after[j] - (|p| - 1 - j), |p| - pos - 1)
    {
      SuffixPassAt(before, p, pos, len, j);
    }
  }

  lemma SuffixPassAt(before: seq<nat>, p: seq<Byte>, pos: int, len: int, j: int)
    requires 0 <= pos < |p| - 1 && CommonSuffix(p, pos, len) && 0 <= j < |p|
    requires len <= pos ==> !Agrees(p, |p| - 1 - pos, |p| - 1 - len)
    requires GoodSuffixFrom(before, p, 0, |p| - pos)
    ensures var s := if len <= pos && j == |p| - 1 - len then |p| - 1 - pos else before[j] - (|p| - 1 - j);
            LeastFrom(p, j, s, |p| - pos - 1)
  {
    assert LeastFrom(p, j, before[j] - (|p| - 1 - j), |p| - pos);
    if |p| - 1 - pos <= j {
      ShortShift(p, pos, len, j);
    }
  }

  method FillGoodSuffixRuleTable(table: array<nat>, p: seq<Byte>)
    requires table.Length == 256 && 0 < |p| <= 256
    modifies table
    ensures GoodSuffixTable(table[..], p)
  {
    FillFromPrefixes(table, p);
    FillFromSuffixes(table, p);
  }

  /** At alignment `a` the pattern matches right of position `j` and not at `j`. */
  ghost predicate MismatchAt(text: seq<Byte>, p: seq<Byte>, a: int, j: int) {
    && 0 <= a <= |text| - |p| && 0 <= j < |p|
    && text[a + j] != p[j]
    && forall k :: j < k < |p| ==> text[a + k] == p[k]
  }

  /** An occurrence to the right of a mismatch is at a compatible distance. */
  lemma OccurrenceIsCompatible(text: seq<Byte>, p: seq<Byte>, a: int, j: int, s: int)
    requires MismatchAt(text, p, a, j) && 1 <= s <= |p| && Occurs(text, p, a + s)
    ensures Compatible(p, j, s)
  {
    forall k | j < k < |p| && s <= k
      ensures Agrees(p, s, k)
    {
      assert text[a + s + (k - s)] == p[k - s];
    }
    if s <= j {
      assert text[a + s + (j - s)] == p[j - s];
    }
  }

  /** Neither rule skips an occurrence. */
  lemma ShiftIsSafe(text: seq<Byte>, p: seq<Byte>, a: int, j: int, good: int, last: int, i: int)
    requires MismatchAt(text, p, a, j) && LeastShift(p, j, good)
    requires LastIndex(p, |p|, text[a + j], last)
    requires a <= i && (i < a + good || i < a + j - last)
    ensures !Occurs(text, p, i)
  {
    var s := i - a;
    if s == 0 {
      assert p[j] != text[i + j];
    } else if s < good {
      if Occurs(text, p, i) {
        OccurrenceIsCompatible(text, p, a, j, s);
      }
    } else if s <= j {
      var k := j - s;
      assert last < k && p[k] != text[i + k];
    }
  }

  /** The tables hold 256 entries. As in `Horspool`, the index can leave 32 bits only behind the last alignment. */
  method BM(text: seq<Byte>, pattern: seq<Byte>) returns (shift: int, wraps: bool)
    requires (|pattern| <= 256 || |text| < |pattern|) && |text| < 0x1_0000_0000
    ensures !wraps ==> IsLeastOccurrence(text, pattern, shift)
    ensures wraps ==> |text| + |pattern| > 0x1_0000_0000 && NoneBefore(text, pattern, |text| + 1)
  {
    shift, wraps := -1, false;
    if |text| == 0 || |pattern| == 0 || |text| < |pattern| {
      return;
    }
    var m := |pattern|;
    var badChar := new nat[256];
    var goodSuffix := new nat[256];
    FillSkipTable(badChar, pattern, m, m - 1);
    FillGoodSuffixRuleTable(goodSuffix, pattern);
    ghost var bad, good := badChar[..], goodSuffix[..];
    var textIdx: Index := m - 1;
    while textIdx < |text|
      invariant badChar[..] == bad && goodSuffix[..] == good
      invariant m - 1 <= textIdx && NoneBefore(text, pattern, textIdx - (m - 1))
      decreases |text| - textIdx
    {
      ghost var a := textIdx - (m - 1);
      var patternIdx := m - 1;
      while patternIdx > 0 && text[textIdx] == pattern[patternIdx]
        invariant badChar[..] == bad && goodSuffix[..] == good
        invariant 0 <= patternIdx < m && textIdx == a + patternIdx
        invariant forall k :: patternIdx < k < m ==> text[a + k] == pattern[k]
      {
        textIdx := textIdx - 1;
        patternIdx := patternIdx - 1;
      }
      if patternIdx == 0 && text[textIdx] == pattern[patternIdx] {
        return textIdx, false;
      }
      assert MismatchAt(text, pattern, a, patternIdx);
      var x, y := badChar[text[textIdx]], goodSuffix[patternIdx];
      AlignmentSkip(text, pattern, a, patternIdx, bad, good);
      var skip := if x > y then x else y;
      if textIdx + skip >= 0x1_0000_0000 {
        return -1, true;
      }
      textIdx := textIdx + skip;
    }
  }

  /** The larger of the two table entries moves the alignment right, past no occurrence, and not out of range. */
  lemma AlignmentSkip(text: seq<Byte>, p: seq<Byte>, a: int, j: int, bad: seq<nat>, good: seq<nat>)
    requires 0 < |p| && MismatchAt(text, p, a, j) && NoneBefore(text, p, a)
    requires SkipTable(bad, p, |p|, |p| - 1) && GoodSuffixTable(good, p)
    ensures var x, y := bad[text[a + j]], good[j];
            var b := a + j + (if x > y then x else y) - (|p| - 1);
            a < b <= a + j + |p| && b <= a + |p| && NoneBefore(text, p, b)
  {
    var x, y := bad[text[a + j]], good[j];
    var last, s := |p| - 1 - x, y - (|p| - 1 - j);
    var b := a + j + (if x > y then x else y) - (|p| - 1);
    assert LastIndex(p, |p|, text[a + j], last) && LeastShift(p, j, s);
    assert b == a + if j - last > s then j - last else s;
    forall i | a <= i < b
      ensures !Occurs(text, p, i)
    {
      ShiftIsSafe(text, p, a, j, s, last, i);
    }
    SkipIsSafe(text, p, a, b);
  }
}
