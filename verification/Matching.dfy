/** String matching: what every matcher of the source promises, and the skip-table matchers. */
module Matching {

  type Byte = x: int | 0 <= x < 256

  /** Index variables are 32-bit in the source; assigning to this type shows that no sum wraps. */
  type Index = x: int | 0 <= x < 0x1_0000_0000

  ghost predicate Occurs(text: seq<Byte>, pattern: seq<Byte>, i: int) {
    0 <= i <= |text| - |pattern| && forall k {:trigger pattern[k]} :: 0 <= k < |pattern| ==> text[i + k] == pattern[k]
  }

  /** No occurrence starts before `i`. */
  ghost predicate NoneBefore(text: seq<Byte>, pattern: seq<Byte>, i: int) {
    forall a :: 0 <= a < i ==> !Occurs(text, pattern, a)
  }

  /** The promised answer: the least occurrence of a nonempty pattern, or -1. */
  ghost predicate IsLeastOccurrence(text: seq<Byte>, pattern: seq<Byte>, r: int) {
    if |pattern| > 0 && r != -1 then Occurs(text, pattern, r) && NoneBefore(text, pattern, r)
    else r == -1 && (|pattern| > 0 ==> NoneBefore(text, pattern, |text| + 1))
  }

  /** The answer is unique, so all correct matchers agree. */
  lemma LeastOccurrenceUnique(text: seq<Byte>, pattern: seq<Byte>, r: int, s: int)
    requires IsLeastOccurrence(text, pattern, r) && IsLeastOccurrence(text, pattern, s)
    ensures r == s
  {
  }

  /** Skipping from alignment `a` to `b` loses nothing if no occurrence starts in between. */
  lemma SkipIsSafe(text: seq<Byte>, pattern: seq<Byte>, a: int, b: int)
    requires NoneBefore(text, pattern, a)
    requires forall i :: a <= i < b ==> !Occurs(text, pattern, i)
    ensures NoneBefore(text, pattern, b)
  {
  }

  // ----- bad-character tables

  /** `last` is the last index below `n` at which the pattern has byte `c`, or -1. */
  ghost predicate LastIndex(pattern: seq<Byte>, n: nat, c: Byte, last: int)
    requires n <= |pattern|
  {
    && -1 <= last < n
    && (last >= 0 ==> pattern[last] == c)
    && forall k :: last < k < n ==> pattern[k] != c
  }

  /** The table holds `top - last` for the last index of each byte among the first `n`. */
  ghost predicate SkipTable(table: seq<nat>, pattern: seq<Byte>, n: nat, top: int)
    requires n <= |pattern|
  {
    |table| == 256 && forall c: Byte {:trigger table[c]} :: LastIndex(pattern, n, c, top - table[c])
  }

  /** Fills a skip table from the first `n` bytes of a pattern; the three variants of the source differ in `n`,
      in `top` and in the value for bytes that do not occur, which is `top + 1`. */
  method FillSkipTable(table: array<nat>, pattern: seq<Byte>, n: nat, top: nat)
    requires table.Length == 256 && n <= |pattern| && n <= top + 1
    modifies table
    ensures SkipTable(table[..], pattern, n, top)
  {
    for c := 0 to 256
      invariant forall d :: 0 <= d < c ==> table[d] == top + 1
    {
      table[c] := top + 1;
    }
    for i := 0 to n
      invariant SkipTable(table[..], pattern, i, top)
    {
      ghost var before := table[..];
      table[pattern[i]] := top - i;
      SkipTableStep(before, table[..], pattern, i, top);
    }
  }

  lemma SkipTableStep(before: seq<nat>, after: seq<nat>, pattern: seq<Byte>, i: nat, top: nat)
    requires i < |pattern| && i <= top && SkipTable(before, pattern, i, top)
    requires after == before[pattern[i] := top - i]
    ensures SkipTable(after, pattern, i + 1, top)
  {
    forall c: Byte
      ensures LastIndex(pattern, i + 1, c, top - after[c])
    {
      assert LastIndex(pattern, i, c, top - before[c]);
    }
  }

  // ----- Horspool

  /** The byte under the last pattern position rules out every alignment before the skip. */
  lemma HorspoolSkip(text: seq<Byte>, pattern: seq<Byte>, a: int, last: int)
    requires 0 < |pattern| && 0 <= a <= |text| - |pattern|
    requires LastIndex(pattern, |pattern| - 1, text[a + |pattern| - 1], last)
    ensures forall i :: a < i < a + |pattern| - 1 - last ==> !Occurs(text, pattern, i)
  {
    var m := |pattern|;
    forall i | a < i < a + m - 1 - last
      ensures !Occurs(text, pattern, i)
    {
      var k := a + m - 1 - i;
      assert last < k < m - 1;
      assert pattern[k] != text[i + k];
    }
  }

  /** Every text that holds the pattern is searched rightly. In others the index can leave 32 bits behind the last alignment,
      if text and pattern have more than 2^32 bytes together; what happens from there on is left open. */
  method Horspool(text: seq<Byte>, pattern: seq<Byte>) returns (shift: int, wraps: bool)
    requires |text| < 0x1_0000_0000
    ensures !wraps ==> IsLeastOccurrence(text, pattern, shift)
    ensures wraps ==> |text| + |pattern| > 0x1_0000_0000 && NoneBefore(text, pattern, |text| + 1)
  {
    shift, wraps := -1, false;
    if |text| == 0 || |pattern| == 0 || |text| < |pattern| {
      return;
    }
    var m := |pattern|;
    var table := new nat[256];
    FillSkipTable(table, pattern, m - 1, m - 1);
    ghost var skips := table[..];
    var moveLen: Index := m - 1;
    while moveLen <= |text| - 1
      invariant m - 1 <= moveLen && table[..] == skips
      invariant NoneBefore(text, pattern, moveLen - (m - 1))
      decreases |text| - moveLen
    {
      ghost var a := moveLen - (m - 1);
      var matchLen := 0;
      while matchLen <= m - 1 && pattern[m - 1 - matchLen] == text[moveLen - matchLen]
        invariant 0 <= matchLen <= m && table[..] == skips
        invariant forall k :: m - matchLen <= k < m ==> pattern[k] == text[a + k]
      {
        matchLen := matchLen + 1;
      }
      if matchLen == m {
        shift := moveLen - m + 1;
        return;
      }
      assert pattern[m - 1 - matchLen] != text[a + (m - 1 - matchLen)];
      var skip := table[text[moveLen]];
      assert LastIndex(pattern, m - 1, text[moveLen], m - 1 - skips[text[moveLen]]);
      HorspoolSkip(text, pattern, a, m - 1 - skip);
      SkipIsSafe(text, pattern, a, a + skip);
      if moveLen + skip >= 0x1_0000_0000 {
        return -1, true;
      }
      moveLen := moveLen + skip;
    }
  }

  // ----- Sunday

  /** The byte just behind the window rules out every alignment before the skip. */
  lemma SundaySkip(text: seq<Byte>, pattern: seq<Byte>, a: int, last: int)
    requires 0 < |pattern| && 0 <= a && a + |pattern| < |text|
    requires LastIndex(pattern, |pattern|, text[a + |pattern|], last)
    ensures forall i :: a < i < a + |pattern| - last ==> !Occurs(text, pattern, i)
  {
    var m := |pattern|;
    forall i | a < i < a + m - last
      ensures !Occurs(text, pattern, i)
    {
      var k := a + m - i;
      assert last < k;
      if k < m {
        assert pattern[k] != text[i + k];
      }
    }
  }

  /** Sunday's matcher reads the cell behind the last window, so the text comes in a buffer with at least one
      more readable cell, such as a terminator. In a text of 2^32 - 1 bytes without the pattern the index can come to 2^32, which
      is zero in 32 bits: the search starts again, forever. */
  method Sunday(buffer: seq<Byte>, textLen: nat, pattern: seq<Byte>) returns (shift: int, endless: bool)
    requires textLen < |buffer| && textLen < 0x1_0000_0000
    ensures !endless ==> IsLeastOccurrence(buffer[..textLen], pattern, shift)
    ensures endless ==> textLen == 0xffff_ffff && NoneBefore(buffer[..textLen], pattern, textLen + 1)
  {
    shift, endless := -1, false;
    if textLen == 0 || |pattern| == 0 || textLen < |pattern| {
      return;
    }
    ghost var text := buffer[..textLen];
    var m := |pattern|;
    var table := new nat[256];
    FillSkipTable(table, pattern, m, m);
    ghost var skips := table[..];
    var textIdx: Index := 0;
    while textIdx <= textLen - m
      invariant NoneBefore(text, pattern, textIdx) && table[..] == skips
      decreases textLen - textIdx
    {
      var matchLen := 0;
      while buffer[textIdx + matchLen] == pattern[matchLen]
        invariant 0 <= matchLen < m && table[..] == skips
        invariant forall k :: 0 <= k < matchLen ==> pattern[k] == text[textIdx + k]
        decreases m - matchLen
      {
        matchLen := matchLen + 1;
        if matchLen == m {
          return textIdx, false;
        }
      }
      assert pattern[matchLen] != text[textIdx + matchLen];
      var skip := table[buffer[textIdx + m]];
      assert LastIndex(pattern, m, buffer[textIdx + m], m - skips[buffer[textIdx + m]]);
      if textIdx + m < textLen {
        SundaySkip(text, pattern, textIdx, m - skip);
      }
      SkipIsSafe(text, pattern, textIdx, textIdx + skip);
      if textIdx + skip >= 0x1_0000_0000 {
        assert (textIdx + skip) % 0x1_0000_0000 == 0;
        return -1, true;
      }
      textIdx := textIdx + skip;
    }
  }
}
