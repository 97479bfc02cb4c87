/** Rabin-Karp: a rolling polynomial hash modulo 10^9 + 7 in signed 64-bit arithmetic. */
module RabinKarp {
  import opened Matching

  /** Assigning to this type shows that no intermediate value leaves the signed 64-bit range. */
  type Int64 = x: int | -0x8000_0000_0000_0000 <= x < 0x8000_0000_0000_0000

  const BASE: int := 256
  const MOD: int := 1_000_000_007

  /** The remainder of a division that truncates toward zero. */
  function Rem(a: int, b: int): int
    requires b > 0
  {
    if a >= 0 then a % b else -((-a) % b)
  }

  /** The polynomial value of a window, its first byte most significant. */
  ghost function Poly(s: seq<Byte>): nat {
    if s == [] then 0 else 256 * Poly(s[..|s| - 1]) + s[|s| - 1]
  }

  ghost function Power(k: nat): nat {
    if k == 0 then 1 else 256 * Power(k - 1)
  }

  ghost function Hash(s: seq<Byte>): nat {
    Poly(s) % MOD
  }

  lemma {:induction false} PolyHead(s: seq<Byte>)
    requires s != []
    ensures Poly(s) == s[0] * Power(|s| - 1) + Poly(s[1..])
  {
    if |s| == 1 {
      assert s[..0] == [] && s[1..] == [];
    } else {
      var t := s[..|s| - 1];
      PolyHead(t);
      assert s[1..][..|s| - 2] == t[1..];
    }
  }

  /** Dropping the first byte and appending one. */
  lemma PolyRoll(s: seq<Byte>, x: Byte)
    requires s != []
    ensures Poly(s[1..] + [x]) == 256 * (Poly(s) - s[0] * Power(|s| - 1)) + x
  {
    PolyHead(s);
    var t := s[1..] + [x];
    assert t[..|t| - 1] == s[1..];
  }

  lemma ModStep(v: nat, c: Byte)
    ensures (256 * v + c) % MOD == (256 * (v % MOD) + c) % MOD
  {
    SameRemainder(256 * v + c, 256 * (v % MOD) + c, 256 * (v / MOD));
  }

  lemma SameRemainder(a: int, b: int, z: int)
    requires a == b + MOD * z
    ensures a % MOD == b % MOD
  {
    RemainderIs(b, b / MOD, b % MOD);
    RemainderIs(a, b / MOD + z, b % MOD);
  }

  lemma RemainderIs(a: int, q: int, r: int)
    requires a == MOD * q + r && 0 <= r < MOD
    ensures a % MOD == r
  {
    var d := a / MOD - q;
    assert r - a % MOD == MOD * d;
    assert d == 0;
  }

  /** The rolling update, with its truncating remainder and sign fix, computes the hash of the next window. */
  lemma RollIsHash(window: seq<Byte>, x: Byte, hash: int, pow: int)
    requires window != [] && hash == Hash(window) && pow == Power(|window| - 1) % MOD
    ensures var v := Rem(256 * (hash - window[0] * pow) + x, MOD);
            (if v < 0 then v + MOD else v) == Hash(window[1..] + [x])
  {
    var c := window[0];
    var P := Power(|window| - 1);
    PolyRoll(window, x);
    var q, k := Poly(window) / MOD, P / MOD;
    assert c * P == c * pow + c * k * MOD by {
      Distribute(c, k, pow);
    }
    var v := 256 * (hash - c * pow) + x;
    var w := Poly(window[1..] + [x]);
    var z := 256 * (q - c * k);
    assert w == v + MOD * z;
    SameResidue(v, w, z);
  }

  lemma Distribute(c: int, k: int, pow: int)
    ensures c * (MOD * k + pow) == c * pow + c * k * MOD
  {
  }

  lemma SameResidue(v: int, w: nat, z: int)
    requires w == v + MOD * z
    ensures var r := Rem(v, MOD); (if r < 0 then r + MOD else r) == w % MOD
  {
    if v >= 0 {
      SameRemainder(w, v, z);
    } else {
      var q, r := (-v) / MOD, (-v) % MOD;
      if r == 0 {
        RemainderIs(w, z - q, 0);
      } else {
        RemainderIs(w, z - q - 1, MOD - r);
      }
    }
  }

  method FirstHashes(text: seq<Byte>, pattern: seq<Byte>) returns (textHash: Int64, patternHash: Int64)
    requires |pattern| <= |text|
    ensures textHash == Hash(text[..|pattern|]) && patternHash == Hash(pattern)
  {
    textHash, patternHash := 0, 0;
    for i := 0 to |pattern|
      invariant 0 <= textHash < MOD && 0 <= patternHash < MOD
      invariant textHash == Hash(text[..i]) && patternHash == Hash(pattern[..i])
    {
      assert text[..i + 1][..i] == text[..i] && pattern[..i + 1][..i] == pattern[..i];
      ModStep(Poly(text[..i]), text[i]);
      ModStep(Poly(pattern[..i]), pattern[i]);
      var p: Int64 := BASE * patternHash + pattern[i];
      var t: Int64 := BASE * textHash + text[i];
      patternHash := Rem(p, MOD);
      textHash := Rem(t, MOD);
    }
    assert pattern[..|pattern|] == pattern;
  }

  method LeadingPower(n: nat) returns (pow: Int64)
    ensures pow == Power(n) % MOD
  {
    pow := 1;
    for i := 0 to n
      invariant 0 <= pow < MOD && pow == Power(i) % MOD
    {
      ModStep(Power(i), 0);
      var p: Int64 := pow * BASE;
      pow := Rem(p, MOD);
    }
  }

  /** `memcmp` of the window at `i` with the pattern. */
  method SameAt(text: seq<Byte>, pattern: seq<Byte>, i: nat) returns (same: bool)
    requires i + |pattern| <= |text|
    ensures same <==> Occurs(text, pattern, i)
    ensures same ==> text[i..i + |pattern|] == pattern
  {
    var window := text[i..i + |pattern|];
    same := window == pattern;
    if same {
      forall k | 0 <= k < |pattern|
        ensures text[i + k] == pattern[k]
      {
        assert window[k] == pattern[k];
      }
    }
  }

  /** From the hash of a window to that of the next one; every intermediate value is a signed 64-bit one. */
  method Roll(hash: Int64, pow: Int64, first: Byte, next: Byte, ghost window: seq<Byte>) returns (r: Int64)
    requires window != [] && window[0] == first && hash == Hash(window) && pow == Power(|window| - 1) % MOD
    ensures r == Hash(window[1..] + [next]) && 0 <= r < MOD
  {
    hide Hash, Poly, Power;
    RollIsHash(window, next, hash, pow);
    HashBound(window);
    HashBound(window[1..] + [next]);
    assert 0 <= first * pow <= 255 * MOD by {
      ProductBound(first, pow);
    }
    var lead: Int64 := first * pow;
    var rest: Int64 := hash - lead;
    var v: Int64 := BASE * rest + next;
    r := Rem(v, MOD);
    if r < 0 {
      r := r + MOD;
    }
  }

  lemma HashBound(s: seq<Byte>)
    ensures 0 <= Hash(s) < MOD
  {
  }

  lemma ProductBound(c: Byte, p: int)
    requires 0 <= p < MOD
    ensures 0 <= c * p <= 255 * MOD
  {
    assert c * p <= 255 * p;
  }

  method RK(text: seq<Byte>, pattern: seq<Byte>) returns (shift: int)
    requires |text| < 0x1_0000_0000
    ensures IsLeastOccurrence(text, pattern, shift)
  {
    if |text| == 0 || |pattern| == 0 || |text| < |pattern| {
      return -1;
    }
    hide Hash, Power, Occurs;
    var m := |pattern|;
    var pow := LeadingPower(m - 1);
    var textHash, patternHash := FirstHashes(text, pattern);
    HashBound(text[..m]);
    assert text[0..0 + m] == text[..m];
    for i := 0 to |text| - m + 1
      invariant NoneBefore(text, pattern, i)
      invariant i <= |text| - m ==> 0 <= textHash < MOD && textHash == Hash(text[i..i + m])
    {
      if patternHash == textHash {
        var same := SameAt(text, pattern, i);
        if same {
          return i;
        }
      }
      HashRejects(text, pattern, i);
      if i < |text| - m {
        ghost var window := text[i..i + m];
        NextWindow(text, i, m);
        textHash := Roll(textHash, pow, text[i], text[i + m], window);
      }
    }
    shift := -1;
  }

  lemma NextWindow(text: seq<Byte>, i: nat, m: nat)
    requires 0 < m && i + m < |text|
    ensures text[i..i + m][1..] + [text[i + m]] == text[i + 1..i + 1 + m]
    ensures text[i..i + m] != [] && text[i..i + m][0] == text[i]
  {
  }

  /** Windows with another hash are no occurrence. */
  lemma HashRejects(text: seq<Byte>, pattern: seq<Byte>, i: nat)
    requires i + |pattern| <= |text|
    ensures Occurs(text, pattern, i) ==> Hash(text[i..i + |pattern|]) == Hash(pattern)
  {
    if Occurs(text, pattern, i) {
      assert text[i..i + |pattern|] == pattern;
    }
  }
}
