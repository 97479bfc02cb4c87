/** Base64 as in section 4 of RFC 4648. */
module Base64 {
  import opened Basics
  import opened Division

  type Byte = x: nat | x < 256

  /** A running stream of at most 24 bits, kept in 32. */
  type Bits = x: nat | x < 0x100_0000

  // ----- the alphabet

  /** The alphabet, by position. */
  function Letter(v: nat): (c: char)
    requires v < 64
    ensures c != '='
  {
    if v < 26 then (v + 'A' as int) as char
    else if v < 52 then (v - 26 + 'a' as int) as char
    else if v < 62 then (v - 52 + '0' as int) as char
    else if v == 62 then '+'
    else '/'
  }

  /** The 64 letters of table 1 of RFC 4648. */
  const UPPER: string := "ABCDEFGHIJKLMNOPQRSTUVWXYZ"
  const LOWER: string := "abcdefghijklmnopqrstuvwxyz"
  const OTHERS: string := "0123456789+/"

  ghost function Alphabet(): (s: string)
    ensures |s| == 64
  {
    UPPER + LOWER + OTHERS
  }

  lemma UpperLetter(v: nat)
    requires v < 26
    ensures Letter(v) == UPPER[v]
  {
    assert UPPER[..13] == "ABCDEFGHIJKLM" && UPPER[13..] == "NOPQRSTUVWXYZ";
    assert v < 13 ==> UPPER[v] == UPPER[..13][v];
    assert v >= 13 ==> UPPER[v] == UPPER[13..][v - 13];
  }

  lemma LowerLetter(v: nat)
    requires 26 <= v < 52
    ensures Letter(v) == LOWER[v - 26]
  {
    assert LOWER[..13] == "abcdefghijklm" && LOWER[13..] == "nopqrstuvwxyz";
    assert v < 39 ==> LOWER[v - 26] == LOWER[..13][v - 26];
    assert v >= 39 ==> LOWER[v - 26] == LOWER[13..][v - 39];
  }

  lemma OtherLetter(v: nat)
    requires 52 <= v < 64
    ensures Letter(v) == OTHERS[v - 52]
  {
  }

  /** The letters are those of the standard, in its order. */
  lemma LettersInOrder(v: nat)
    requires v < 64
    ensures Letter(v) == Alphabet()[v]
  {
    if v < 26 {
      UpperLetter(v);
    } else if v < 52 {
      LowerLetter(v);
    } else {
      OtherLetter(v);
    }
  }

  /** `find` in the alphabet: the value of a letter, or none. */
  function Find(c: char, from: nat): (r: Option<nat>)
    requires from <= 64
    ensures r.Some? ==> from <= r.value < 64 && Letter(r.value) == c
    ensures r.None? ==> forall i :: from <= i < 64 ==> Letter(i) != c
    decreases 64 - from
  {
    if from == 64 then None else if Letter(from) == c then Some(from) else Find(c, from + 1)
  }

  function ValueOf(c: char): (r: Option<nat>)
    ensures r.Some? ==> r.value < 64
  {
    Find(c, 0)
  }

  lemma LetterValue(v: nat)
    requires v < 64
    ensures ValueOf(Letter(v)) == Some(v)
  {
    var r := ValueOf(Letter(v));
    assert Letter(v) == Letter(v);
  }

  lemma PaddingValue()
    ensures ValueOf('=').None?
  {
  }

  // ----- what the encoding is: groups of three bytes as four letters of six bits each

  function Group(a: Byte, b: Byte, c: Byte): (n: Bits) {
    a * 0x1_0000 + b * 0x100 + c
  }

  /** The letter for the six bits that start `k` bits above the bottom. */
  function Sextet(n: Bits, k: nat): char
    requires IsShift(k)
  {
    Letter(n / Scale(k) % 64)
  }

  /** The shifts that occur. */
  predicate IsShift(k: nat) {
    k == 18 || k == 16 || k == 12 || k == 8 || k == 6 || k == 0
  }

  /** Two to the power of a shift. */
  function Scale(k: nat): nat
    requires IsShift(k)
  {
    if k == 18 then 0x4_0000 else if k == 16 then 0x1_0000 else if k == 12 then 0x1000 else if k == 8 then 0x100
    else if k == 6 then 0x40 else 1
  }

  function Encoded(data: seq<Byte>): string {
    if data == [] then ""
    else if |data| == 1 then
      var n := Group(data[0], 0, 0);
      [Sextet(n, 18), Sextet(n, 12), '=', '=']
    else if |data| == 2 then
      var n := Group(data[0], data[1], 0);
      [Sextet(n, 18), Sextet(n, 12), Sextet(n, 6), '=']
    else
      var n := Group(data[0], data[1], data[2]);
      [Sextet(n, 18), Sextet(n, 12), Sextet(n, 6), Sextet(n, 0)] + Encoded(data[3..])
  }

  /** The letters of a group, by the bits of its bytes: six of the first, two of the first and four of the second, four of the
      second and two of the third, six of the third. */
  lemma GroupLetters(a: Byte, b: Byte, c: Byte)
    ensures a / 4 < 64 && a % 4 * 16 + b / 16 < 64 && b % 16 * 4 + c / 64 < 64
    ensures Sextet(Group(a, b, c), 18) == Alphabet()[a / 4]
    ensures Sextet(Group(a, b, c), 12) == Alphabet()[a % 4 * 16 + b / 16]
    ensures Sextet(Group(a, b, c), 6) == Alphabet()[b % 16 * 4 + c / 64]
    ensures Sextet(Group(a, b, c), 0) == Alphabet()[c % 64]
  {
    hide Letter, Alphabet, Group, Sextet;
    FirstSextet(a, b, c);
    SecondSextet(a, b, c);
    ThirdSextet(a, b, c);
    FourthSextet(a, b, c);
    LettersInOrder(a / 4);
    LettersInOrder(a % 4 * 16 + b / 16);
    LettersInOrder(b % 16 * 4 + c / 64);
    LettersInOrder(c % 64);
  }

  lemma FirstSextet(a: Byte, b: Byte, c: Byte)
    ensures Sextet(Group(a, b, c), 18) == Letter(a / 4)
  {
    hide *;
    TopSix(a, b, c);
    GroupIs(a, b, c);
    SextetLetters(Group(a, b, c));
    LessThan64(a / 4);
  }

  lemma GroupIs(a: Byte, b: Byte, c: Byte)
    ensures Group(a, b, c) == a * 0x1_0000 + b * 0x100 + c
  {
  }

  lemma LessThan64(x: nat)
    requires x < 64
    ensures x % 64 == x
  {
  }

  lemma TopSix(a: nat, b: nat, c: nat)
    requires a < 256 && b < 256 && c < 256
    ensures (a * 0x1_0000 + b * 0x100 + c) / 0x4_0000 == a / 4 && a / 4 < 64
  {
    var h, l := a / 4, a % 4;
    assert a == 4 * h + l;
    Quotient(a * 0x1_0000 + b * 0x100 + c, 0x4_0000, h, l * 0x1_0000 + b * 0x100 + c);
  }

  lemma SecondSextet(a: Byte, b: Byte, c: Byte)
    ensures a % 4 * 16 + b / 16 < 64 && Sextet(Group(a, b, c), 12) == Letter(a % 4 * 16 + b / 16)
  {
    hide Letter;
    Quotient(Group(a, b, c), 0x1000, a * 16 + b / 16, b % 16 * 0x100 + c);
    Quotient(a * 16 + b / 16, 64, a / 4, a % 4 * 16 + b / 16);
  }

  lemma ThirdSextet(a: Byte, b: Byte, c: Byte)
    ensures b % 16 * 4 + c / 64 < 64 && Sextet(Group(a, b, c), 6) == Letter(b % 16 * 4 + c / 64)
  {
    hide Letter;
    Quotient(Group(a, b, c), 0x40, a * 0x400 + b * 4 + c / 64, c % 64);
    Quotient(a * 0x400 + b * 4 + c / 64, 64, a * 16 + b / 16, b % 16 * 4 + c / 64);
  }

  lemma FourthSextet(a: Byte, b: Byte, c: Byte)
    ensures Sextet(Group(a, b, c), 0) == Letter(c % 64)
  {
    hide Letter;
    Quotient(Group(a, b, c), 64, a * 0x400 + b * 4 + c / 64, c % 64);
  }

  /** The encoding as the standard gives it: group by group, the last one padded. */
  lemma EncodesGroups(a: Byte, b: Byte, c: Byte, rest: seq<Byte>)
    ensures a % 4 * 16 + b / 16 < 64 && b % 16 * 4 + c / 64 < 64
    ensures Encoded([a, b, c] + rest)
            == [Alphabet()[a / 4], Alphabet()[a % 4 * 16 + b / 16], Alphabet()[b % 16 * 4 + c / 64], Alphabet()[c % 64]] + Encoded(rest)
    ensures Encoded([a, b]) == [Alphabet()[a / 4], Alphabet()[a % 4 * 16 + b / 16], Alphabet()[b % 16 * 4], '=']
    ensures Encoded([a]) == [Alphabet()[a / 4], Alphabet()[a % 4 * 16], '=', '='] && Encoded([]) == ""
  {
    hide Sextet, Group, Alphabet;
    GroupLetters(a, b, c);
    GroupLetters(a, b, 0);
    GroupLetters(a, 0, 0);
    assert ([a, b, c] + rest)[3..] == rest;
  }

  /** Four letters for every three bytes begun. */
  lemma {:induction false} EncodedLength(data: seq<Byte>)
    ensures |Encoded(data)| == (|data| + 2) / 3 * 4
  {
    hide Sextet, Group;
    if |data| >= 3 {
      EncodedLength(data[3..]);
    }
  }

  // ----- the encoder

  /** The bits of the bytes of a group begun. */
  function Pending(p: seq<Byte>): Bits
    requires |p| < 3
  {
    if |p| == 0 then 0 else if |p| == 1 then Group(p[0], 0, 0) else Group(p[0], p[1], 0)
  }

  ghost predicate Encoding(data: seq<Byte>, i: nat, p: seq<Byte>, encoded: string)
    requires i <= |data| && |p| < 3
  {
    |p| <= |Encoded(p + data[i..])| && encoded + Encoded(p + data[i..])[|p|..] == Encoded(data)
  }

  lemma EncodeStart(data: seq<Byte>)
    ensures Encoding(data, 0, [], "") && Pending([]) == 0
  {
    assert [] + data[0..] == data;
  }

  /** Bits below do not show in a sextet above them. */
  lemma SextetsAbove(a: Byte, b: Byte, c: Byte)
    ensures Sextet(Group(a, b, c), 18) == Sextet(Group(a, 0, 0), 18)
    ensures Sextet(Group(a, b, c), 12) == Sextet(Group(a, b, 0), 12)
  {
    hide Letter;
    Quotient(Group(a, b, c), 0x4_0000, a / 4, a % 4 * 0x1_0000 + b * 0x100 + c);
    Quotient(Group(a, 0, 0), 0x4_0000, a / 4, a % 4 * 0x1_0000);
    Quotient(Group(a, b, c), 0x1000, a * 16 + b / 16, b % 16 * 0x100 + c);
    Quotient(Group(a, b, 0), 0x1000, a * 16 + b / 16, b % 16 * 0x100);
  }

  /** Adding a byte to the stream fills bits that are all zero. */
  lemma Fills(p: seq<Byte>, value: Byte)
    requires |p| < 3
    ensures var offset := 16 - |p| * 8; Pending(p) % (256 * Scale(offset)) == 0
    ensures var n := Pending(p) + value * Scale(16 - |p| * 8);
            n < 0x100_0000 && n == if |p| < 2 then Pending(p + [value]) else Group(p[0], p[1], value)
  {
    if |p| == 1 {
      Quotient(Pending(p), 0x1_0000, p[0], 0);
    } else if |p| == 2 {
      var a: nat := p[0];
      Quotient(Pending(p), 0x100, a * 0x100 + p[1], 0);
    }
  }

  ghost function Emitted(p: seq<Byte>, value: Byte): string
    requires |p| < 3
  {
    if |p| == 0 then [Sextet(Pending([value]), 18)]
    else if |p| == 1 then [Sextet(Pending([p[0], value]), 12)]
    else [Sextet(Group(p[0], p[1], value), 6)] + [Sextet(Group(p[0], p[1], value), 0)]
  }

  lemma EncodeStep(data: seq<Byte>, i: nat, p: seq<Byte>, encoded: string)
    requires i < |data| && |p| < 3 && Encoding(data, i, p, encoded)
    ensures Encoding(data, i + 1, if |p| < 2 then p + [data[i]] else [], encoded + Emitted(p, data[i]))
  {
    hide Sextet, Group, Encoded, Emitted;
    var value, rest, e := data[i], data[i + 1..], Emitted(p, data[i]);
    var all := Encoded((p + [value]) + rest);
    assert p + data[i..] == (p + [value]) + rest;
    FirstLetters(p, value, rest);
    Consumed(encoded, all, |p|, |e|);
    if |p| == 2 {
      FullGroup(p + [value], rest);
      assert [] + rest == rest && Encoded(rest)[0..] == Encoded(rest);
    }
  }

  /** Letters taken from the rest to the text written. */
  lemma Consumed(encoded: string, all: string, i: nat, n: nat)
    requires i + n <= |all|
    ensures encoded + all[i..] == (encoded + all[i..i + n]) + all[i + n..]
  {
  }

  lemma FirstLetters(p: seq<Byte>, value: Byte, rest: seq<Byte>)
    requires |p| < 3
    ensures var all := Encoded((p + [value]) + rest); var e := Emitted(p, value);
            |e| == (if |p| < 2 then 1 else 2) && |p| + |e| <= |all| && all[|p|..|p| + |e|] == e
  {
    hide Sextet, Group;
    var d := (p + [value]) + rest;
    if |p| == 0 {
      SextetsAbove(d[0], if |d| > 1 then d[1] else 0, if |d| > 2 then d[2] else 0);
    } else if |p| == 1 {
      SextetsAbove(d[0], d[1], if |d| > 2 then d[2] else 0);
    }
  }

  lemma FullGroup(p: seq<Byte>, rest: seq<Byte>)
    requires |p| == 3
    ensures |Encoded(p + rest)| >= 4 && Encoded(p + rest)[4..] == Encoded(rest)
  {
    hide Sextet, Group;
    assert (p + rest)[3..] == rest;
  }

  lemma EncodeEnd(data: seq<Byte>, p: seq<Byte>, encoded: string)
    requires |p| < 3 && Encoding(data, |data|, p, encoded)
    ensures |p| == 0 ==> encoded == Encoded(data)
    ensures |p| == 1 ==> encoded + [Sextet(Pending(p), 12)] + "==" == Encoded(data)
    ensures |p| == 2 ==> encoded + [Sextet(Pending(p), 6)] + "=" == Encoded(data)
  {
    hide Sextet, Group, Encoded, Pending;
    assert p + data[|data|..] == p;
    ShortEncoded(p);
    if |p| == 0 {
      assert encoded + "" == encoded;
    } else if |p| == 1 {
      assert encoded + ([Sextet(Pending(p), 12)] + "==") == encoded + [Sextet(Pending(p), 12)] + "==";
    } else {
      assert encoded + ([Sextet(Pending(p), 6)] + "=") == encoded + [Sextet(Pending(p), 6)] + "=";
    }
  }

  lemma ShortEncoded(p: seq<Byte>)
    requires |p| < 3
    ensures |p| <= |Encoded(p)|
    ensures |p| == 0 ==> Encoded(p)[0..] == ""
    ensures |p| == 1 ==> Encoded(p)[1..] == [Sextet(Pending(p), 12)] + "=="
    ensures |p| == 2 ==> Encoded(p)[2..] == [Sextet(Pending(p), 6)] + "="
  {
    hide Sextet, Group;
  }

  method Base64Encode(data: seq<Byte>) returns (encoded: string)
    ensures encoded == Encoded(data)
  {
    hide Letter, Sextet, Group, Encoded, Pending, Encoding, Emitted, Scale;
    var counter: nat, offset: nat, bitStream: Bits := 0, 0, 0;
    encoded := "";
    ghost var p: seq<Byte> := [];
    EncodeStart(data);
    for i := 0 to |data|
      invariant counter == i && |p| == i % 3 && bitStream == Pending(p) && Encoding(data, i, p, encoded)
      invariant offset == if |p| == 0 then 0 else 24 - 8 * |p|
    {
      var value: Byte := data[i];
      EncodeStep(data, i, p, encoded);
      EmittedIs(p, value);
      Fills(p, value);
      offset := 16 - counter % 3 * 8;
      bitStream := bitStream + value * Scale(offset);
      if offset == 16 {
        encoded := encoded + [Sextet(bitStream, 18)];
        p := p + [value];
      } else if offset == 8 {
        encoded := encoded + [Sextet(bitStream, 12)];
        p := p + [value];
      } else {
        if counter != 3 {
          encoded := encoded + ([Sextet(bitStream, 6)] + [Sextet(bitStream, 0)]);
          bitStream := 0;
        }
        EncodeStart(data);
        p := [];
      }
      counter := counter + 1;
    }
    EncodeEnd(data, p, encoded);
    if offset == 16 {
      encoded := encoded + [Sextet(bitStream, 12)];
      encoded := encoded + "==";
    } else if offset == 8 {
      encoded := encoded + [Sextet(bitStream, 6)];
      encoded := encoded + "=";
    }
  }

  lemma EmittedIs(p: seq<Byte>, value: Byte)
    requires |p| < 3
    ensures |p| == 0 ==> Emitted(p, value) == [Sextet(Pending(p + [value]), 18)]
    ensures |p| == 1 ==> Emitted(p, value) == [Sextet(Pending(p + [value]), 12)]
    ensures |p| == 2 ==>
              Emitted(p, value) == [Sextet(Group(p[0], p[1], value), 6)] + [Sextet(Group(p[0], p[1], value), 0)]
  {
    hide Sextet, Group;
    assert |p| == 0 ==> p + [value] == [value];
    assert |p| == 1 ==> p + [value] == [p[0], value];
  }

  /** The padding is exactly what completes the last group. */
  lemma {:induction false} PaddingCompletes(data: seq<Byte>, i: nat)
    requires i < |Encoded(data)|
    ensures Encoded(data)[i] == '=' <==> i >= |Encoded(data)| - (3 - |data| % 3) % 3
  {
    EncodedLength(data);
    hide Sextet, Group;
    if |data| >= 3 && i >= 4 {
      PaddingCompletes(data[3..], i - 4);
      EncodedLength(data[3..]);
    } else {
      var n := Group(data[0], if |data| > 1 then data[1] else 0, if |data| > 2 then data[2] else 0);
      NoPadding(n, 18);
      NoPadding(n, 12);
      NoPadding(n, 6);
      NoPadding(n, 0);
    }
  }

  lemma NoPadding(n: Bits, k: nat)
    requires IsShift(k)
    ensures Sextet(n, k) != '='
  {
  }

  // ----- the decoder

  const WORD: nat := 0x1_0000_0000

  function Prepended(b: seq<Byte>, r: Option<seq<Byte>>): Option<seq<Byte>> {
    if r.Some? then Some(b + r.value) else r
  }

  /** One letter added to the stream, in 32 bits. */
  function Shifted(bits: nat, v: nat, phase: nat): nat
    requires phase < 4
  {
    (bits + v * Scale(18 - phase * 6)) % WORD
  }

  /** The bytes that a letter completes. */
  function Completed(bits: nat, phase: nat): seq<Byte>
    requires phase < 4
  {
    if phase == 0 then [] else [bits / Scale(24 - phase * 8) % 256]
  }

  /** The loop of the decoder, `phase` being the counter modulo four. */
  function Decoded(phase: nat, bits: nat, data: string): Option<seq<Byte>>
    requires phase < 4
    decreases |data|
  {
    if data == [] then Some([])
    else
      var v, next := ValueOf(data[0]), (phase + 1) % 4;
      if v.Some? then
        var bits' := Shifted(bits, v.value, phase);
        Prepended(Completed(bits', phase), Decoded(next, if phase == 3 then 0 else bits', data[1..]))
      else if data[0] == '=' then Decoded(next, bits, data[1..])
      else None
  }

  method Base64Decode(data: string) returns (r: Option<seq<Byte>>)
    ensures r == Decoded(0, 0, data)
  {
    hide Find, ValueOf, Shifted, Completed;
    var counter: nat, bitStream: nat := 0, 0;
    var decoded: seq<Byte> := [];
    assert data[0..] == data && forall b: seq<Byte> :: [] + b == b;
    for i := 0 to |data|
      invariant counter == i && Prepended(decoded, Decoded(counter % 4, bitStream, data[i..])) == Decoded(0, 0, data)
    {
      var v := ValueOf(data[i]);
      ghost var phase := counter % 4;
      DecodeStep(data[i..], phase, bitStream, decoded);
      assert data[i..][1..] == data[i + 1..];
      if v.Some? {
        bitStream := Shifted(bitStream, v.value, counter % 4);
        var out := Completed(bitStream, counter % 4);
        decoded := decoded + out;
        if counter % 4 == 3 && counter != 4 {
          bitStream := 0;
        }
      } else if data[i] != '=' {
        return None;
      }
      counter := counter + 1;
    }
    assert data[|data|..] == [] && decoded + [] == decoded;
    return Some(decoded);
  }

  lemma DecodeStep(data: string, phase: nat, bits: nat, decoded: seq<Byte>)
    requires data != [] && phase < 4
    ensures var v, next, all := ValueOf(data[0]), (phase + 1) % 4, Prepended(decoded, Decoded(phase, bits, data));
            if v.Some? then
              var bits' := Shifted(bits, v.value, phase);
              all == Prepended(decoded + Completed(bits', phase), Decoded(next, if phase == 3 then 0 else bits', data[1..]))
            else if data[0] == '=' then all == Prepended(decoded, Decoded(next, bits, data[1..]))
            else all == None
  {
    hide Find, ValueOf, Shifted, Completed;
    var v := ValueOf(data[0]);
    if v.Some? {
      var bits' := Shifted(bits, v.value, phase);
      var rest := Decoded((phase + 1) % 4, if phase == 3 then 0 else bits', data[1..]);
      if rest.Some? {
        assert decoded + (Completed(bits', phase) + rest.value) == decoded + Completed(bits', phase) + rest.value;
      }
    }
  }

  /** Decoding fails exactly on a character that is neither a letter nor padding. */
  lemma {:induction false} DecodesLetters(phase: nat, bits: nat, data: string)
    requires phase < 4
    ensures Decoded(phase, bits, data).Some? <==> forall i :: 0 <= i < |data| ==> ValueOf(data[i]).Some? || data[i] == '='
    decreases |data|
  {
    hide Find, ValueOf, Shifted, Completed;
    if data != [] {
      var v, next, rest := ValueOf(data[0]), (phase + 1) % 4, data[1..];
      assert forall i :: 0 <= i < |rest| ==> rest[i] == data[i + 1];
      assert forall i :: 1 <= i < |data| ==> data[i] == rest[i - 1];
      if v.Some? {
        var bits' := Shifted(bits, v.value, phase);
        DecodesLetters(next, if phase == 3 then 0 else bits', rest);
      } else {
        DecodesLetters(next, bits, rest);
      }
    }
  }

  // ----- the round trip

  lemma DecodeLetter(v: nat, rest: string, phase: nat, bits: nat)
    requires v < 64 && phase < 4
    ensures var bits' := Shifted(bits, v, phase);
            Decoded(phase, bits, [Letter(v)] + rest)
            == Prepended(Completed(bits', phase), Decoded((phase + 1) % 4, if phase == 3 then 0 else bits', rest))
  {
    hide Find, ValueOf, Shifted, Completed, Letter;
    LetterValue(v);
    var data := [Letter(v)] + rest;
    assert data[0] == Letter(v) && data[1..] == rest;
  }

  lemma DecodePadding(rest: string, phase: nat, bits: nat)
    requires phase < 4
    ensures Decoded(phase, bits, ['='] + rest) == Decoded((phase + 1) % 4, bits, rest)
  {
    hide Find, ValueOf, Shifted, Completed;
    PaddingValue();
    var data := ['='] + rest;
    assert data[0] == '=' && data[1..] == rest;
  }

  /** The parts of a group. */
  lemma Sextets(n: Bits, x: nat, y: nat, z: nat, w: nat)
    requires x == n / 0x4_0000 % 64 && y == n / 0x1000 % 64 && z == n / 0x40 % 64 && w == n % 64
    ensures n == x * 0x4_0000 + y * 0x1000 + z * 0x40 + w
  {
  }

  /** The stream after each letter of a group, and the byte it completes. */
  ghost predicate Streamed(a: Byte, b: Byte, c: Byte, x: nat, y: nat, z: nat, w: nat, s: nat, t: nat, u: nat, n: nat) {
    && x < 64 && y < 64 && z < 64 && w < 64
    && Shifted(0, x, 0) == s && Shifted(s, y, 1) == t && Shifted(t, z, 2) == u && Shifted(u, w, 3) == n
    && Completed(t, 1) == [a] && Completed(u, 2) == [b] && Completed(n, 3) == [c]
  }

  lemma FirstByte(a: Byte, b: Byte, c: Byte, t: nat, low: nat)
    requires Group(a, b, c) == t + low && low < 0x1000 && t % 0x1000 == 0
    ensures Completed(t, 1) == [a]
  {
    var n, high: nat := Group(a, b, c), a;
    Quotient(n, 0x1000, t / 0x1000, low);
    Quotient(n, 0x1000, high * 16 + b / 16, b % 16 * 0x100 + c);
    Quotient(t, 0x1_0000, a, b / 16 * 0x1000);
  }

  lemma SecondByte(a: Byte, b: Byte, c: Byte, u: nat, low: nat)
    requires Group(a, b, c) == u + low && low < 0x40 && u % 0x40 == 0
    ensures Completed(u, 2) == [b]
  {
    var n, high: nat := Group(a, b, c), a;
    Quotient(n, 0x40, u / 0x40, low);
    Quotient(n, 0x40, high * 0x400 + b * 4 + c / 64, c % 64);
    Quotient(u, 0x100, high * 0x100 + b, c / 64 * 64);
    Quotient(high * 0x100 + b, 0x100, a, b);
  }

  lemma ThirdByte(a: Byte, b: Byte, c: Byte)
    ensures Completed(Group(a, b, c), 3) == [c]
  {
    var high: nat := a;
    Quotient(Group(a, b, c), 0x100, high * 0x100 + b, c);
  }

  lemma Streams(a: Byte, b: Byte, c: Byte) returns (x: nat, y: nat, z: nat, w: nat, s: nat, t: nat, u: nat, n: nat)
    ensures n == Group(a, b, c) && Streamed(a, b, c, x, y, z, w, s, t, u, n)
    ensures Sextet(n, 18) == Letter(x) && Sextet(n, 12) == Letter(y) && Sextet(n, 6) == Letter(z) && Sextet(n, 0) == Letter(w)
  {
    hide *;
    n := Group(a, b, c);
    x, y, z, w := n / 0x4_0000 % 64, n / 0x1000 % 64, n / 0x40 % 64, n % 64;
    Sextets(n, x, y, z, w);
    SextetLetters(n);
    s := x * 0x4_0000;
    t := s + y * 0x1000;
    u := t + z * 0x40;
    Shifts(x, y, z, w, s, t, u, n);
    FirstByte(a, b, c, t, z * 0x40 + w);
    SecondByte(a, b, c, u, w);
    ThirdByte(a, b, c);
    StreamedBy(a, b, c, x, y, z, w, s, t, u, n);
  }

  lemma StreamedBy(a: Byte, b: Byte, c: Byte, x: nat, y: nat, z: nat, w: nat, s: nat, t: nat, u: nat, n: nat)
    requires x < 64 && y < 64 && z < 64 && w < 64
    requires Shifted(0, x, 0) == s && Shifted(s, y, 1) == t && Shifted(t, z, 2) == u && Shifted(u, w, 3) == n
    requires Completed(t, 1) == [a] && Completed(u, 2) == [b] && Completed(n, 3) == [c]
    ensures Streamed(a, b, c, x, y, z, w, s, t, u, n)
  {
    hide Shifted, Completed;
  }

  lemma SextetLetters(n: Bits)
    ensures Sextet(n, 18) == Letter(n / 0x4_0000 % 64) && Sextet(n, 12) == Letter(n / 0x1000 % 64)
    ensures Sextet(n, 6) == Letter(n / 0x40 % 64) && Sextet(n, 0) == Letter(n % 64)
  {
    hide Letter;
  }

  lemma Shifts(x: nat, y: nat, z: nat, w: nat, s: nat, t: nat, u: nat, n: nat)
    requires x < 64 && y < 64 && z < 64 && w < 64
    requires s == x * 0x4_0000 && t == s + y * 0x1000 && u == t + z * 0x40 && n == u + w
    ensures Shifted(0, x, 0) == s && Shifted(s, y, 1) == t && Shifted(t, z, 2) == u && Shifted(u, w, 3) == n
    ensures t % 0x1000 == 0 && u % 0x40 == 0
  {
    Quotient(t, 0x1000, x * 64 + y, 0);
    Quotient(u, 0x40, x * 0x1000 + y * 64 + z, 0);
  }

  lemma Letters(a: Byte, b: Byte, c: Byte, rest: string)
    ensures var n := Group(a, b, c);
            Decoded(0, 0, [Sextet(n, 18), Sextet(n, 12), Sextet(n, 6), Sextet(n, 0)] + rest)
            == Prepended([a, b, c], Decoded(0, 0, rest))
  {
    hide Letter, Decoded, Shifted, Completed, Group, Sextet, Prepended;
    var x, y, z, w, s, t, u, n := Streams(a, b, c);
    var s3 := [Letter(w)] + rest;
    var s2 := [Letter(z)] + s3;
    var s1 := [Letter(y)] + s2;
    assert [Letter(x), Letter(y), Letter(z), Letter(w)] + rest == [Letter(x)] + s1;
    DecodeLetter(x, s1, 0, 0);
    DecodeLetter(y, s2, 1, s);
    DecodeLetter(z, s3, 2, t);
    DecodeLetter(w, rest, 3, u);
    Joined([a], [b], [c], Decoded(0, 0, rest));
    assert [a] + [b] + [c] == [a, b, c];
    CompletedNothing(s, Decoded(1, s, s1));
  }

  /** Four letters decode to three bytes: six bits and two, four and four, two and six. */
  lemma GroupDecodes(x: nat, y: nat, z: nat, w: nat, rest: string)
    requires x < 64 && y < 64 && z < 64 && w < 64
    ensures x * 4 + y / 16 < 256 && y % 16 * 16 + z / 4 < 256 && z % 4 * 64 + w < 256
    ensures Decoded(0, 0, [Letter(x), Letter(y), Letter(z), Letter(w)] + rest)
         == Prepended([x * 4 + y / 16, y % 16 * 16 + z / 4, z % 4 * 64 + w], Decoded(0, 0, rest))
  {
    hide Letter, Decoded, Group, Sextet, Prepended;
    var a: Byte, b: Byte, c: Byte := x * 4 + y / 16, y % 16 * 16 + z / 4, z % 4 * 64 + w;
    BitsBack(x, y, z, w);
    FirstSextet(a, b, c);
    SecondSextet(a, b, c);
    ThirdSextet(a, b, c);
    FourthSextet(a, b, c);
    Letters(a, b, c, rest);
  }

  lemma BitsBack(x: nat, y: nat, z: nat, w: nat)
    requires x < 64 && y < 64 && z < 64 && w < 64
    ensures var a, b, c := x * 4 + y / 16, y % 16 * 16 + z / 4, z % 4 * 64 + w;
            a / 4 == x && a % 4 * 16 + b / 16 == y && b % 16 * 4 + c / 64 == z && c % 64 == w
  {
    Quotient(x * 4 + y / 16, 4, x, y / 16);
    Quotient(y % 16 * 16 + z / 4, 16, y % 16, z / 4);
    Quotient(z % 4 * 64 + w, 64, z % 4, w);
  }

  /** How many bytes come out: one for each letter that is not the first of four. */
  function LaterLetters(phase: nat, data: string): nat
    requires phase < 4
    decreases |data|
  {
    if data == [] then 0
    else (if data[0] != '=' && phase != 0 then 1 else 0) + LaterLetters((phase + 1) % 4, data[1..])
  }

  lemma {:induction false} DecodedLength(phase: nat, bits: nat, data: string)
    requires phase < 4
    ensures var r := Decoded(phase, bits, data); r.Some? ==> |r.value| == LaterLetters(phase, data)
    decreases |data|
  {
    hide Find, ValueOf, Shifted, Scale;
    if data != [] {
      PaddingValue();
      var v, next := ValueOf(data[0]), (phase + 1) % 4;
      if v.Some? {
        var bits' := Shifted(bits, v.value, phase);
        DecodedLength(next, if phase == 3 then 0 else bits', data[1..]);
      } else {
        DecodedLength(next, bits, data[1..]);
      }
    }
  }

  lemma Joined(a: seq<Byte>, b: seq<Byte>, c: seq<Byte>, r: Option<seq<Byte>>)
    ensures Prepended(a, Prepended(b, Prepended(c, r))) == Prepended(a + b + c, r)
  {
    if r.Some? {
      assert a + (b + (c + r.value)) == a + b + c + r.value;
    }
  }

  lemma CompletedNothing(bits: nat, r: Option<seq<Byte>>)
    ensures Prepended(Completed(bits, 0), r) == r
  {
    if r.Some? {
      assert [] + r.value == r.value;
    }
  }

  lemma LastLetters(a: Byte, b: Byte)
    ensures var n := Group(a, b, 0); Decoded(0, 0, [Sextet(n, 18), Sextet(n, 12), Sextet(n, 6), '=']) == Some([a, b])
    ensures var n := Group(a, 0, 0); Decoded(0, 0, [Sextet(n, 18), Sextet(n, 12), '=', '=']) == Some([a])
  {
    hide Letter, Decoded, Shifted, Completed, Sextet, Group;
    PaddedTwo(a, b);
    PaddedOne(a);
  }

  lemma PaddedTwo(a: Byte, b: Byte)
    ensures var n := Group(a, b, 0); Decoded(0, 0, [Sextet(n, 18), Sextet(n, 12), Sextet(n, 6), '=']) == Some([a, b])
  {
    hide Letter, Decoded, Shifted, Completed, Group, Sextet;
    var x, y, z, w, s, t, u, n := Streams(a, b, 0);
    var s3 := ['='] + "";
    var s2 := [Letter(z)] + s3;
    var s1 := [Letter(y)] + s2;
    assert [Letter(x), Letter(y), Letter(z), '='] == [Letter(x)] + s1;
    DecodeLetter(x, s1, 0, 0);
    DecodeLetter(y, s2, 1, s);
    DecodeLetter(z, s3, 2, t);
    DecodePadding("", 3, u);
    DecodeNothing(0, u);
    CompletedNothing(s, Decoded(1, s, s1));
    assert [a] + ([b] + []) == [a, b];
  }

  lemma DecodeNothing(phase: nat, bits: nat)
    requires phase < 4
    ensures Decoded(phase, bits, "") == Some([])
  {
  }

  lemma PaddedOne(a: Byte)
    ensures var n := Group(a, 0, 0); Decoded(0, 0, [Sextet(n, 18), Sextet(n, 12), '=', '=']) == Some([a])
  {
    hide Letter, Decoded, Shifted, Completed, Group, Sextet;
    var x, y, z, w, s, t, u, n := Streams(a, 0, 0);
    var s3 := ['='] + "";
    var s2 := ['='] + s3;
    var s1 := [Letter(y)] + s2;
    assert [Letter(x), Letter(y), '=', '='] == [Letter(x)] + s1;
    DecodeLetter(x, s1, 0, 0);
    DecodeLetter(y, s2, 1, s);
    DecodePadding(s3, 2, t);
    DecodePadding("", 3, t);
    DecodeNothing(0, t);
    CompletedNothing(s, Decoded(1, s, s1));
    assert [a] + [] == [a];
  }

  /** Decoding undoes encoding, for every byte string. */
  lemma {:induction false} DecodeUndoesEncode(data: seq<Byte>)
    ensures Decoded(0, 0, Encoded(data)) == Some(data)
  {
    hide Decoded, Sextet, Group;
    if data == [] {
      DecodeNothing(0, 0);
    } else if |data| < 3 {
      LastLetters(data[0], if |data| == 2 then data[1] else 0);
      assert data == if |data| == 1 then [data[0]] else [data[0], data[1]];
    } else {
      Letters(data[0], data[1], data[2], Encoded(data[3..]));
      DecodeUndoesEncode(data[3..]);
      assert [data[0], data[1], data[2]] + data[3..] == data;
    }
  }

  // ----- the decoder's stream

  /** Each letter is added into bits that are all zero, and the stream stays below 24 bits. */
  ghost predicate Disjoint(phase: nat, bits: nat, data: string)
    requires phase < 4
    decreases |data|
  {
    data == [] ||
    var v, next := ValueOf(data[0]), (phase + 1) % 4;
    if v.Some? then
      var unit := Scale(18 - phase * 6);
      && bits % (64 * unit) == 0 && bits + v.value * unit < 0x100_0000
      && Disjoint(next, if phase == 3 then 0 else bits + v.value * unit, data[1..])
    else data[0] == '=' ==> Disjoint(next, bits, data[1..])
  }

  /** No letter stands behind padding. */
  ghost predicate PaddedAtEnd(data: string) {
    forall i, j :: 0 <= i < j < |data| && data[i] == '=' ==> ValueOf(data[j]).None?
  }

  lemma {:induction false} PaddingOnly(phase: nat, bits: nat, data: string)
    requires phase < 4 && forall j :: 0 <= j < |data| ==> ValueOf(data[j]).None?
    ensures Disjoint(phase, bits, data)
    decreases |data|
  {
    hide ValueOf;
    if data != [] && data[0] == '=' {
      PaddingOnly((phase + 1) % 4, bits, data[1..]);
    }
  }

  lemma Room(phase: nat, bits: nat, v: nat)
    requires phase < 4 && v < 64 && bits < 0x100_0000 && bits % (64 * Scale(18 - phase * 6)) == 0
    ensures var sum := bits + v * Scale(18 - phase * 6);
            sum < 0x100_0000 && sum % WORD == sum && (phase < 3 ==> sum % (64 * Scale(12 - phase * 6)) == 0)
  {
    if phase == 0 {
      Quotient(bits + v * 0x4_0000, 0x4_0000, v, 0);
    } else if phase == 1 {
      var q := bits / 0x4_0000;
      Quotient(bits + v * 0x1000, 0x1000, q * 64 + v, 0);
    } else if phase == 2 {
      var q := bits / 0x1000;
      Quotient(bits + v * 0x40, 0x40, q * 64 + v, 0);
    }
  }

  lemma {:induction false} StreamDisjoint(phase: nat, bits: nat, data: string)
    requires phase < 4 && bits < 0x100_0000 && bits % (64 * Scale(18 - phase * 6)) == 0 && PaddedAtEnd(data)
    ensures Disjoint(phase, bits, data)
    decreases |data|
  {
    hide ValueOf, Scale;
    if data != [] {
      var v, next, rest := ValueOf(data[0]), (phase + 1) % 4, data[1..];
      assert forall j :: 0 <= j < |rest| ==> rest[j] == data[j + 1];
      if v.Some? {
        Room(phase, bits, v.value);
        ZeroFits();
        StreamDisjoint(next, if phase == 3 then 0 else bits + v.value * Scale(18 - phase * 6), rest);
      } else if data[0] == '=' {
        PaddingOnly(next, bits, rest);
      }
    }
  }

  lemma ZeroFits()
    ensures 0 % (64 * Scale(18)) == 0
  {
  }

  /** As long as no letter stands behind padding, the decoder's additions are disjoint. */
  lemma DecoderIsDisjoint(data: string)
    requires PaddedAtEnd(data)
    ensures Disjoint(0, 0, data)
  {
    hide ValueOf, Disjoint;
    StreamDisjoint(0, 0, data);
  }

  /** So they are on everything the encoder writes. */
  lemma EncodedIsDisjoint(data: seq<Byte>)
    ensures Disjoint(0, 0, Encoded(data))
  {
    hide ValueOf, Disjoint, Encoded;
    var s := Encoded(data);
    forall i, j | 0 <= i < j < |s| && s[i] == '='
      ensures ValueOf(s[j]).None?
    {
      PaddingCompletes(data, i);
      PaddingCompletes(data, j);
      PaddingValue();
    }
    DecoderIsDisjoint(s);
  }

  lemma DisjointStep(phase: nat, bits: nat, v: nat, rest: string)
    requires phase < 4 && v < 64
    ensures var unit := Scale(18 - phase * 6);
            Disjoint(phase, bits, [Letter(v)] + rest)
            <==> && bits % (64 * unit) == 0 && bits + v * unit < 0x100_0000
                 && Disjoint((phase + 1) % 4, if phase == 3 then 0 else bits + v * unit, rest)
  {
    hide ValueOf, Letter;
    LetterValue(v);
    var data := [Letter(v)] + rest;
    assert data[0] == Letter(v) && data[1..] == rest;
  }

  /** Behind stray padding the stream is not reset: a letter can fall on bits in use, beyond the 24th. */
  lemma StrayPaddingOverlaps()
    ensures !Disjoint(0, 0, "///=///=")
    ensures Shifted(0xff_ffc0, 63, 0) == 0x1fb_ffc0
  {
    hide Disjoint;
    var slash := [Letter(63)];
    var tail := slash + (slash + (slash + "="));
    var s := ['='] + tail;
    assert "///=///=" == slash + (slash + (slash + s));
    DisjointStep(0, 0, 63, slash + (slash + s));
    DisjointStep(1, 0xfc_0000, 63, slash + s);
    DisjointStep(2, 0xff_f000, 63, s);
    DisjointPadding(3, 0xff_ffc0, tail);
    DisjointStep(0, 0xff_ffc0, 63, slash + (slash + "="));
  }

  lemma DisjointPadding(phase: nat, bits: nat, rest: string)
    requires phase < 4
    ensures Disjoint(phase, bits, ['='] + rest) <==> Disjoint((phase + 1) % 4, bits, rest)
  {
    hide ValueOf;
    PaddingValue();
    var data := ['='] + rest;
    assert data[0] == '=' && data[1..] == rest;
  }

  // ----- exactly when

  /** The value of the lowest bit below which a stream is zero when `used` sextets of it are taken. */
  function Floor(used: nat): nat
    requires used <= 4
  {
    if used == 0 then 0x100_0000 else if used == 1 then 0x4_0000 else if used == 2 then 0x1000 else if used == 3 then 0x40 else 1
  }

  /** Nonzero sextets of the stream end with the one before `used`. */
  ghost predicate Uses(bits: nat, used: nat)
    requires used <= 4
  {
    bits < 0x100_0000 && bits % Floor(used) == 0 && (used > 0 ==> bits % Floor(used - 1) != 0)
  }

  /** Read off the text: no letter comes at a place in its group up to which letters other than `A` are still there. */
  ghost predicate NoOverlap(phase: nat, used: nat, data: string)
    requires phase < 4
    decreases |data|
  {
    data == [] ||
    var v, next := ValueOf(data[0]), (phase + 1) % 4;
    if v.Some? then
      used <= phase && NoOverlap(next, if phase == 3 then 0 else if v.value > 0 then phase + 1 else used, data[1..])
    else data[0] == '=' ==> NoOverlap(next, used, data[1..])
  }

  /** A stream is zero below a place exactly when that place is not before the ones used. */
  lemma ZeroBelow(bits: nat, used: nat, phase: nat)
    requires used <= 4 && phase < 4 && Uses(bits, used)
    ensures bits % Floor(phase) == 0 <==> used <= phase
  {
    if used <= phase {
      Coarser(bits, used, phase);
    } else if bits % Floor(phase) == 0 {
      Coarser(bits, phase, used - 1);
    }
  }

  lemma Coarser(bits: nat, a: nat, b: nat)
    requires a <= b <= 4 && bits % Floor(a) == 0
    ensures bits % Floor(b) == 0
  {
    if a < b {
      var k := Floor(a) / Floor(b);
      assert Floor(a) == k * Floor(b);
      var q := bits / Floor(a);
      assert bits == q * Floor(a);
      assert bits == (q * k) * Floor(b);
      Quotient(bits, Floor(b), q * k, 0);
    }
  }

  lemma UsesMore(bits: nat, phase: nat, v: nat)
    requires phase < 4 && bits < 0x100_0000 && bits % Floor(phase) == 0 && 0 < v < 64
    ensures Uses(bits + v * Floor(phase + 1), phase + 1)
  {
    if phase == 0 {
      UsesMore0(bits, v);
    } else if phase == 1 {
      UsesMore1(bits, v);
    } else if phase == 2 {
      UsesMore2(bits, v);
    } else {
      UsesMore3(bits, v);
    }
  }

  lemma Floors(phase: nat)
    requires phase < 4
    ensures Floor(phase) == 64 * Floor(phase + 1) && Floor(phase + 1) > 0
    ensures Floor(phase) == 64 * Scale(18 - phase * 6) && Floor(phase + 1) == Scale(18 - phase * 6)
  {
  }

  lemma UsesMore0(bits: nat, v: nat)
    requires bits < 0x100_0000 && bits % 0x100_0000 == 0 && 0 < v < 64
    ensures var sum := bits + v * 0x4_0000; sum < 0x100_0000 && sum % 0x4_0000 == 0 && sum % 0x100_0000 != 0
  {
    var q := bits / 0x100_0000;
    Quotient(bits + v * 0x4_0000, 0x100_0000, q, v * 0x4_0000);
    Quotient(bits + v * 0x4_0000, 0x4_0000, q * 64 + v, 0);
  }

  lemma UsesMore1(bits: nat, v: nat)
    requires bits < 0x100_0000 && bits % 0x4_0000 == 0 && 0 < v < 64
    ensures var sum := bits + v * 0x1000; sum < 0x100_0000 && sum % 0x1000 == 0 && sum % 0x4_0000 != 0
  {
    var q := bits / 0x4_0000;
    Quotient(bits + v * 0x1000, 0x4_0000, q, v * 0x1000);
    Quotient(bits + v * 0x1000, 0x1000, q * 64 + v, 0);
  }

  lemma UsesMore2(bits: nat, v: nat)
    requires bits < 0x100_0000 && bits % 0x1000 == 0 && 0 < v < 64
    ensures var sum := bits + v * 0x40; sum < 0x100_0000 && sum % 0x40 == 0 && sum % 0x1000 != 0
  {
    var q := bits / 0x1000;
    Quotient(bits + v * 0x40, 0x1000, q, v * 0x40);
    Quotient(bits + v * 0x40, 0x40, q * 64 + v, 0);
  }

  lemma UsesMore3(bits: nat, v: nat)
    requires bits < 0x100_0000 && bits % 0x40 == 0 && 0 < v < 64
    ensures var sum := bits + v * 1; sum < 0x100_0000 && sum % 1 == 0 && sum % 0x40 != 0
  {
    var q := bits / 0x40;
    Quotient(bits + v * 1, 0x40, q, v * 1);
    Quotient(bits + v * 1, 1, q * 64 + v, 0);
  }

  /** The decoder's additions are disjoint exactly when no letter overlaps one before it. */
  lemma {:induction false} DisjointIff(phase: nat, bits: nat, used: nat, data: string)
    requires phase < 4 && used <= 4 && Uses(bits, used)
    ensures Disjoint(phase, bits, data) <==> NoOverlap(phase, used, data)
    decreases |data|
  {
    hide ValueOf, Scale, Floor, Uses;
    if data != [] {
      var v, next, rest := ValueOf(data[0]), (phase + 1) % 4, data[1..];
      if v.Some? {
        var unit := Scale(18 - phase * 6);
        Floors(phase);
        ZeroBelow(bits, used, phase);
        if used <= phase {
          InBounds(bits, used);
          if v.value > 0 {
            UsesMore(bits, phase, v.value);
            InBounds(bits + v.value * unit, phase + 1);
          } else {
            assert bits + v.value * unit == bits;
          }
          UsesNothing();
          DisjointIff(next, if phase == 3 then 0 else bits + v.value * unit,
                      if phase == 3 then 0 else if v.value > 0 then phase + 1 else used, rest);
        }
      } else if data[0] == '=' {
        DisjointIff(next, bits, used, rest);
      }
    }
  }

  lemma InBounds(bits: nat, used: nat)
    requires used <= 4 && Uses(bits, used)
    ensures bits < 0x100_0000
  {
  }

  lemma UsesNothing()
    ensures Uses(0, 0)
  {
  }

  /** For a whole text. */
  lemma DecoderDisjointIff(data: string)
    ensures Disjoint(0, 0, data) <==> NoOverlap(0, 0, data)
  {
    hide Disjoint, NoOverlap;
    UsesNothing();
    DisjointIff(0, 0, 0, data);
  }
}
