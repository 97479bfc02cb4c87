/** How strings and numbers may be spelled, and what each spelling reads as. */
module JsonSpelling {
  import opened Basics
  import opened JsonText
  import opened JsonParse
  import opened JsonRoundTrip

  // ----- strings

  /** A character of a string as it stands in the text. */
  datatype Piece = Raw(c: char) | Short(c: char) | Hex(digits: string)

  predicate PieceOk(p: Piece) {
    match p
    case Raw(c) => c != '\"' && c != '\\'
    case Short(c) => c != 'u'
    case Hex(digits) => |digits| == 4 && forall i :: 0 <= i < 4 ==> IsHex(digits[i])
  }

  function SpellPiece(p: Piece): string {
    match p
    case Raw(c) => [c]
    case Short(c) => ['\\', c]
    case Hex(digits) => "\\u" + digits
  }

  /** What it stands for. The four digits of a character code are kept as they are, and a backslash before a character that
      makes no escape swallows it. */
  function PieceRead(p: Piece): string {
    match p
    case Raw(c) => [c]
    case Hex(digits) => "\\u" + digits
    case Short(c) =>
      match c
      case '\"' => ['\"']
      case '\\' => ['\\']
      case '/' => ['/']
      case 'b' => ['\U{0008}']
      case 'f' => ['\U{000C}']
      case 'n' => ['\U{000A}']
      case 'r' => ['\U{000D}']
      case 't' => ['\U{0009}']
      case _ => ['\\']
  }

  function SpellPieces(ps: seq<Piece>): string {
    if ps == [] then "" else SpellPiece(ps[0]) + SpellPieces(ps[1..])
  }

  function PiecesRead(ps: seq<Piece>): string {
    if ps == [] then "" else PieceRead(ps[0]) + PiecesRead(ps[1..])
  }

  predicate PiecesOk(ps: seq<Piece>) {
    forall i :: 0 <= i < |ps| ==> PieceOk(ps[i])
  }

  lemma OnePiece(fmt: string, o: nat, p: Piece, val: string)
    requires PieceOk(p) && Here(fmt, o, SpellPiece(p)) && o + |SpellPiece(p)| < |fmt|
    ensures StringFrom(fmt, o, val) == StringFrom(fmt, o + |SpellPiece(p)|, val + PieceRead(p))
  {
    hide Here;
    var t := SpellPiece(p);
    HereAt(fmt, o, t, 0);
    match p
    case Raw(_) =>
    case Short(c) =>
      HereAt(fmt, o, t, 1);
      assert Unescaped(c) == PieceRead(p);
    case Hex(digits) => HexPiece(fmt, o, digits, val);
  }

  lemma HexPiece(fmt: string, o: nat, digits: string, val: string)
    requires PieceOk(Hex(digits)) && Here(fmt, o, "\\u" + digits) && o + 6 < |fmt|
    ensures StringFrom(fmt, o, val) == StringFrom(fmt, o + 6, val + ("\\u" + digits))
  {
    var t := "\\u" + digits;
    HereAt(fmt, o, t, 0);
    HereAt(fmt, o, t, 1);
    HereSlice(fmt, o, t, 2, 6);
    assert t[2..6] == digits;
    assert fmt[o + 2..o + 6] == digits;
    forall i | o + 2 <= i <= o + 5
      ensures IsHex(fmt[i])
    {
      HereAt(fmt, o, t, i - o);
      assert fmt[i] == digits[i - o - 2];
    }
    assert val + "\\u" + digits == val + ("\\u" + digits);
  }

  lemma {:induction false} PiecesParse(fmt: string, o: nat, ps: seq<Piece>, val: string)
    requires PiecesOk(ps) && Here(fmt, o, SpellPieces(ps) + ['\"'])
    ensures StringFrom(fmt, o, val) == Parsed(Str(val + PiecesRead(ps)), o + |SpellPieces(ps)| + 1)
    decreases |ps|
  {
    hide PieceOk, SpellPiece, PieceRead;
    if ps == [] {
      HereAt(fmt, o, SpellPieces(ps) + ['\"'], 0);
      assert val + "" == val;
    } else {
      hide StringFrom, Here;
      var t, rest := SpellPiece(ps[0]), SpellPieces(ps[1..]) + ['\"'];
      assert SpellPieces(ps) + ['\"'] == t + rest;
      HereParts(fmt, o, t, rest);
      HereAt(fmt, o + |t|, rest, 0);
      OnePiece(fmt, o, ps[0], val);
      var val' := val + PieceRead(ps[0]);
      PiecesParse(fmt, o + |t|, ps[1..], val');
      assert val' + PiecesRead(ps[1..]) == val + (PieceRead(ps[0]) + PiecesRead(ps[1..]));
    }
  }

  /** The first piece of a text that is read as a string. */
  lemma FirstPiece(fmt: string, o: nat, val: string) returns (p: Piece)
    requires StringFrom(fmt, o, val).Parsed? && o < |fmt| && fmt[o] != '\"'
    ensures PieceOk(p) && Here(fmt, o, SpellPiece(p)) && o + |SpellPiece(p)| < |fmt|
  {
    if fmt[o] != '\\' {
      p := Raw(fmt[o]);
    } else if fmt[o + 1] == 'u' {
      p := Hex(fmt[o + 2..o + 6]);
      assert fmt[o..o + 6] == "\\u" + fmt[o + 2..o + 6];
    } else {
      p := Short(fmt[o + 1]);
      assert fmt[o..o + 2] == ['\\', fmt[o + 1]];
    }
  }

  lemma {:induction false} PiecesOf(fmt: string, o: nat, val: string) returns (ps: seq<Piece>)
    requires StringFrom(fmt, o, val).Parsed?
    ensures var r := StringFrom(fmt, o, val);
            && PiecesOk(ps) && Here(fmt, o, SpellPieces(ps) + ['\"'])
            && r == Parsed(Str(val + PiecesRead(ps)), o + |SpellPieces(ps)| + 1)
    decreases |fmt| - o
  {
    hide PieceOk, SpellPiece, PieceRead;
    if fmt[o] == '\"' {
      ps := [];
      assert fmt[o..o + 1] == SpellPieces(ps) + ['\"'];
    } else {
      var p := FirstPiece(fmt, o, val);
      hide StringFrom;
      OnePiece(fmt, o, p, val);
      SpelledPiece(p);
      var t := SpellPiece(p);
      var rest := PiecesOf(fmt, o + |t|, val + PieceRead(p));
      ps := [p] + rest;
      assert ps[1..] == rest;
      HereJoin(fmt, o, t, SpellPieces(rest) + ['\"']);
      assert t + (SpellPieces(rest) + ['\"']) == SpellPieces(ps) + ['\"'];
      PiecesParse(fmt, o, ps, val);
    }
  }

  lemma SpelledPiece(p: Piece)
    ensures |SpellPiece(p)| > 0
  {
  }

  lemma HereJoin(fmt: string, o: nat, a: string, b: string)
    requires Here(fmt, o, a) && Here(fmt, o + |a|, b)
    ensures Here(fmt, o, a + b)
  {
    assert fmt[o..o + |a + b|] == fmt[o..o + |a|] + fmt[o + |a|..o + |a| + |b|];
  }

  // ----- numbers

  /** The text of a number is read as one, to its end. */
  ghost predicate ReadsNumber(rs: Reals, t: string) {
    && t != "" && (IsDigit(t[0]) || t[0] == '-')
    && var r := ParseNumber(rs, t + [','], 0); r.Parsed? && r.offset == |t|
  }

  ghost function NumberRead(rs: Reals, t: string): JSON
    requires ReadsNumber(rs, t)
  {
    ParseNumber(rs, t + [','], 0).value
  }

  /** A text that is one run of digits, signs and points reads the same in front of whatever ends a number. */
  lemma MantissaReads(rs: Reals, fmt: string, p: nat, e: nat)
    requires p < |fmt| && (IsDigit(fmt[p]) || fmt[p] == '-') && NumberEnd(fmt, p) == e && e < |fmt| && EndsNumber(fmt[e])
    ensures var m := fmt[p..e];
            ParseNumber(rs, fmt, p) == if '.' in m then Scaled(rs, m, "", e)
                                       else if Stol(m).Some? then Parsed(Integral(Stol(m).value), e) else Failed
  {
    hide Scaled, Stol, Exponent;
  }

  lemma NumberReads(rs: Reals, fmt: string, p: nat, t: string)
    requires ReadsNumber(rs, t) && Here(fmt, p, t) && p + |t| < |fmt| && EndsNumber(fmt[p + |t|])
    ensures (IsDigit(fmt[p]) || fmt[p] == '-') && ParseNumber(rs, fmt, p) == Parsed(NumberRead(rs, t), p + |t|)
  {
    if NumberRead(rs, t).Floating? {
      FloatBack(rs, fmt, p, t);
    } else {
      IntegralEnd(rs, t);
      hide ParseNumber, NumberEnd, Stol, Scaled, Here;
      var g := t + [','];
      MantissaReads(rs, g, 0, |t|);
      assert g[0..|t|] == t;
      HereAt(fmt, p, t, 0);
      NumberEndSame(fmt, p, t, 0);
      MantissaReads(rs, fmt, p, p + |t|);
      HereSlice(fmt, p, t, 0, |t|);
      assert t[0..|t|] == t;
      ScaledIsFloating(rs, t, "", |t|);
    }
  }

  lemma ScaledIsFloating(rs: Reals, m: string, exp: string, e: nat)
    ensures Scaled(rs, m, exp, e).Parsed? ==> Scaled(rs, m, exp, e).value.Floating?
  {
  }

  lemma IntegralEnd(rs: Reals, t: string)
    requires ReadsNumber(rs, t) && !NumberRead(rs, t).Floating?
    ensures NumberEnd(t + [','], 0) == |t|
  {
    hide Scaled, Stol, Exponent;
  }

  /** What is read as a number in the middle of a text is the text of one. */
  lemma NumberSpelled(rs: Reals, fmt: string, p: nat)
    requires p < |fmt| && (IsDigit(fmt[p]) || fmt[p] == '-')
    requires var r := ParseNumber(rs, fmt, p); r.Parsed? && !IsDigit(fmt[r.offset])
    ensures var r := ParseNumber(rs, fmt, p); var t := fmt[p..r.offset];
            ReadsNumber(rs, t) && NumberRead(rs, t) == r.value && EndsNumber(fmt[r.offset])
  {
    var r := ParseNumber(rs, fmt, p);
    var t := fmt[p..r.offset];
    var g := t + [','];
    var e := NumberEnd(fmt, p);
    if EndsNumber(fmt[e]) {
      PlainNumberText(rs, fmt, p);
    } else {
      ExponentText(rs, fmt, p);
    }
  }

  lemma PlainNumberText(rs: Reals, fmt: string, p: nat)
    requires p < |fmt| && (IsDigit(fmt[p]) || fmt[p] == '-')
    requires ParseNumber(rs, fmt, p).Parsed? && NumberEnd(fmt, p) < |fmt| && EndsNumber(fmt[NumberEnd(fmt, p)])
    ensures var r := ParseNumber(rs, fmt, p); var t := fmt[p..r.offset];
            ReadsNumber(rs, t) && NumberRead(rs, t) == r.value && r.offset == NumberEnd(fmt, p)
  {
    hide *;
    var e := NumberEnd(fmt, p);
    var t := fmt[p..e];
    var g := t + [','];
    MantissaReads(rs, fmt, p, e);
    NumberStarts(fmt, p);
    SliceHere(fmt, p, e);
    NumberEndSame(fmt, p, t, 0);
    CommaEnds();
    assert g[0] == fmt[p] && g[|t|] == ',' && g[0..|t|] == t;
    MantissaReads(rs, g, 0, |t|);
    ScaledOffset(rs, t, "", e, |t|);
    ScaledEnds(rs, t, "", e);
    ReadsAs(rs, t);
  }

  lemma ScaledEnds(rs: Reals, m: string, exp: string, e: nat)
    ensures Scaled(rs, m, exp, e).Parsed? ==> Scaled(rs, m, exp, e).offset == e
  {
  }

  lemma NumberStarts(fmt: string, p: nat)
    requires p < |fmt| && (IsDigit(fmt[p]) || fmt[p] == '-')
    ensures NumberEnd(fmt, p) > p
  {
  }

  /** With an exponent whose digits do not run to the end of the text. */
  lemma ExponentText(rs: Reals, fmt: string, p: nat)
    requires p < |fmt| && (IsDigit(fmt[p]) || fmt[p] == '-')
    requires ParseNumber(rs, fmt, p).Parsed? && !IsDigit(fmt[ParseNumber(rs, fmt, p).offset])
    requires var e := NumberEnd(fmt, p); e == |fmt| || !EndsNumber(fmt[e])
    ensures var r := ParseNumber(rs, fmt, p); var t := fmt[p..r.offset];
            ReadsNumber(rs, t) && NumberRead(rs, t) == r.value && EndsNumber(fmt[r.offset])
  {
    hide *;
    var e, start, end := ExponentForm(rs, fmt, p);
    NumberStarts(fmt, p);
    WithExponent(rs, fmt, p, e, start, end);
    ExcerptReads(rs, fmt, p, e, start, end);
    ScaledOffset(rs, fmt[p..e], Sign(fmt[e + 1]) + fmt[start..end], end, end - p);
    ReadsAs(rs, fmt[p..end]);
  }

  lemma ExcerptReads(rs: Reals, fmt: string, p: nat, e: nat, start: nat, end: nat)
    requires p < e && e + 1 < |fmt| && (IsDigit(fmt[p]) || fmt[p] == '-') && NumberEnd(fmt, p) == e
    requires (fmt[e] == 'e' || fmt[e] == 'E') && start == (if IsSign(fmt[e + 1]) then e + 2 else e + 1) < end < |fmt|
    requires DigitsEnd(fmt, start) == end && EndsNumber(fmt[end])
    ensures ParseNumber(rs, fmt[p..end] + [','], 0) == Scaled(rs, fmt[p..e], Sign(fmt[e + 1]) + fmt[start..end], end - p)
  {
    hide *;
    var t := fmt[p..end];
    var g := t + [','];
    Excerpt(fmt, p, e, start, end);
    ExcerptEnds(fmt, p, start, end);
    CommaEnds();
    WithExponent(rs, g, 0, e - p, start - p, end - p);
  }

  lemma ExcerptEnds(fmt: string, p: nat, start: nat, end: nat)
    requires p <= start <= end < |fmt| && EndsNumber(fmt[end])
    ensures var g := fmt[p..end] + [',']; NumberEnd(fmt, p) == p + NumberEnd(g, 0) && DigitsEnd(fmt, start) == p + DigitsEnd(g, start - p)
  {
    hide *;
    SliceHere(fmt, p, end);
    NumberEndSame(fmt, p, fmt[p..end], 0);
    DigitsEndSame(fmt, p, fmt[p..end], start - p);
  }

  lemma Excerpt(fmt: string, p: nat, e: nat, start: nat, end: nat)
    requires p <= e && e + 1 <= start < end < |fmt|
    ensures var g := fmt[p..end] + [','];
            && |g| == end - p + 1 && g[0] == fmt[p] && g[e - p] == fmt[e] && g[e - p + 1] == fmt[e + 1] && g[end - p] == ','
            && g[0..e - p] == fmt[p..e] && g[start - p..end - p] == fmt[start..end]
  {
  }

  lemma ReadsAs(rs: Reals, t: string)
    requires t != "" && (IsDigit(t[0]) || t[0] == '-')
    requires var r := ParseNumber(rs, t + [','], 0); r.Parsed? && r.offset == |t|
    ensures ReadsNumber(rs, t) && NumberRead(rs, t) == ParseNumber(rs, t + [','], 0).value
  {
  }

  lemma SliceHere(fmt: string, p: nat, e: nat)
    requires p <= e <= |fmt|
    ensures Here(fmt, p, fmt[p..e])
  {
  }

  lemma CommaEnds()
    ensures EndsNumber(',')
  {
  }

  lemma ExponentForm(rs: Reals, fmt: string, p: nat) returns (e: nat, start: nat, end: nat)
    requires p < |fmt| && (IsDigit(fmt[p]) || fmt[p] == '-')
    requires ParseNumber(rs, fmt, p).Parsed? && !IsDigit(fmt[ParseNumber(rs, fmt, p).offset])
    requires NumberEnd(fmt, p) == |fmt| || !EndsNumber(fmt[NumberEnd(fmt, p)])
    ensures e == NumberEnd(fmt, p) && e + 1 < |fmt| && (fmt[e] == 'e' || fmt[e] == 'E')
    ensures start == (if IsSign(fmt[e + 1]) then e + 2 else e + 1) < end < |fmt|
    ensures DigitsEnd(fmt, start) == end && EndsNumber(fmt[end]) && ParseNumber(rs, fmt, p).offset == end
  {
    hide Scaled, Stol, NumberEnd, DigitsEnd;
    e := NumberEnd(fmt, p);
    LastOfRun(fmt, p);
    var o := e + 1;
    start := if o < |fmt| && IsSign(fmt[o]) then o + 1 else o;
    end := DigitsEnd(fmt, start);
    var digits := fmt[start..end];
    NoDigits();
    assert digits == "" ==> "-" + digits == "-";
    ScaledNeedsDigits(rs, fmt[p..e], end);
  }

  lemma ScaledNeedsDigits(rs: Reals, m: string, e: nat)
    ensures Scaled(rs, m, "-", e) == Failed && (e > 0 ==> Scaled(rs, m, "-", e - 1) == Failed)
  {
    NoDigits();
  }

  lemma LastOfRun(fmt: string, p: nat)
    requires p < |fmt| && (IsDigit(fmt[p]) || fmt[p] == '-')
    ensures var c := fmt[|fmt| - 1];
            NumberEnd(fmt, p) == |fmt| ==> (IsDigit(c) || c == '-' || c == '.') && !EndsNumber(c) && c != 'e' && c != 'E'
  {
  }

  // ----- which texts are numbers

  predicate IsNumeral(c: char) {
    IsDigit(c) || c == '-' || c == '.'
  }

  /** Digits, signs and points, a digit or a minus in front. */
  predicate Mantissa(m: string) {
    m != "" && (IsDigit(m[0]) || m[0] == '-') && forall i :: 0 <= i < |m| ==> IsNumeral(m[i])
  }

  predicate AllDigits(s: string) {
    s != "" && forall i :: 0 <= i < |s| ==> IsDigit(s[i])
  }

  lemma {:induction false} RunEnds(fmt: string, o: nat, e: nat)
    requires o <= e <= |fmt| && (e < |fmt| ==> !IsNumeral(fmt[e])) && forall i :: o <= i < e ==> IsNumeral(fmt[i])
    ensures NumberEnd(fmt, o) == e
    decreases e - o
  {
    if o < e {
      RunEnds(fmt, o + 1, e);
    }
  }

  lemma {:induction false} DigitRunEnds(fmt: string, o: nat, e: nat)
    requires o <= e <= |fmt| && (e < |fmt| ==> !IsDigit(fmt[e])) && forall i :: o <= i < e ==> IsDigit(fmt[i])
    ensures DigitsEnd(fmt, o) == e
    decreases e - o
  {
    if o < e {
      DigitRunEnds(fmt, o + 1, e);
    }
  }

  /** `stol` reads the digits in front, behind a minus or not, and ignores what follows. */
  lemma StolReads(digits: string, rest: string)
    requires AllDigits(digits) && (rest == "" || !IsDigit(rest[0]))
    ensures var n: int := Horner(digits);
            && Stol(digits + rest) == (if n <= INT64_MAX then Some(n) else None)
            && Stol(['-'] + digits + rest) == (if -n >= INT64_MIN then Some(-n) else None)
  {
    hide Horner, DigitsEnd;
    var s, m := digits + rest, ['-'] + digits + rest;
    DigitRunEnds(s, 0, |digits|);
    assert s[0..|digits|] == digits;
    DigitRunEnds(m, 1, 1 + |digits|);
    assert m[1..1 + |digits|] == digits;
  }

  /** Without a digit there `stol` fails. */
  lemma StolFails(s: string)
    requires s == "" || (s[0] != '-' && !IsDigit(s[0])) || (s[0] == '-' && (|s| == 1 || !IsDigit(s[1])))
    ensures Stol(s) == None
  {
  }

  /** A plain number is one that `stol` accepts, or with a point in it one that `stod` accepts. */
  lemma PlainNumberIff(rs: Reals, t: string)
    requires Mantissa(t)
    ensures ReadsNumber(rs, t) <==> if '.' in t then rs.stod(t) else Stol(t).Some?
    ensures ReadsNumber(rs, t) ==>
              NumberRead(rs, t) == if '.' in t then Floating(rs.text(t, "")) else Integral(Stol(t).value)
  {
    hide Stol, NumberEnd, Exponent;
    var g := t + [','];
    RunEnds(g, 0, |t|);
    assert g[0..|t|] == t;
    MantissaReads(rs, g, 0, |t|);
  }

  lemma MantissaEnds(m: string, rest: string)
    requires Mantissa(m) && rest != "" && !IsNumeral(rest[0])
    ensures NumberEnd(m + rest, 0) == |m|
  {
    RunEnds(m + rest, 0, |m|);
  }

  /** With an exponent both parts must be accepted, and the number is a floating one. */
  lemma ExponentNumberIff(rs: Reals, m: string, x: char, sign: string, digits: string)
    requires Mantissa(m) && (x == 'e' || x == 'E') && (sign == "" || sign == "+" || sign == "-") && AllDigits(digits)
    ensures var t := m + ([x] + (sign + digits)); var exp := (if sign == "-" then "-" else "") + digits;
            && (ReadsNumber(rs, t) <==> Stol(exp).Some? && if '.' in m then rs.stod(m) else Stol(m).Some?)
            && (ReadsNumber(rs, t) ==> NumberRead(rs, t) == Floating(rs.text(m, exp)))
  {
    hide Stol, NumberEnd, DigitsEnd, ParseNumber;
    var t := m + ([x] + (sign + digits));
    var g := t + [','];
    var e := |m|;
    var start := e + 1 + |sign|;
    PowerPlaces(m, x, sign, digits);
    WithExponent(rs, g, 0, e, start, |t|);
    assert Sign(g[e + 1]) == if sign == "-" then "-" else "";
  }

  lemma PowerPlaces(m: string, x: char, sign: string, digits: string)
    requires Mantissa(m) && (x == 'e' || x == 'E') && AllDigits(digits)
    ensures var t := m + ([x] + (sign + digits)); var g := t + [',']; var e := |m|; var start := e + 1 + |sign|;
            && start < |t| && g[0] == m[0] && g[e] == x && g[e + 1] == (if sign == "" then digits[0] else sign[0])
            && g[start..|t|] == digits && g[0..e] == m && g[|t|] == ','
            && NumberEnd(g, 0) == e && DigitsEnd(g, start) == |t|
  {
    hide NumberEnd, DigitsEnd;
    var t := m + ([x] + (sign + digits));
    var g := t + [','];
    var tail := [x] + (sign + digits) + [','];
    assert g == m + tail;
    MantissaEnds(m, tail);
    var start := |m| + 1 + |sign|;
    assert g[start..|t|] == digits;
    forall i | start <= i < |t|
      ensures IsDigit(g[i])
    {
      assert g[i] == g[start..|t|][i - start];
    }
    DigitRunEnds(g, start, |t|);
  }

  /** How an exponent is written behind a mantissa. */
  ghost predicate WithPower(t: string, m: string, x: char, sign: string, digits: string) {
    && Mantissa(m) && (x == 'e' || x == 'E') && (sign == "" || sign == "+" || sign == "-") && AllDigits(digits)
    && t == m + ([x] + (sign + digits))
  }

  /** There are no other numbers. */
  lemma NoOtherNumber(rs: Reals, t: string)
    requires ReadsNumber(rs, t)
    ensures Mantissa(t) || exists m, x, sign, digits :: WithPower(t, m, x, sign, digits)
  {
    if !NumberRead(rs, t).Floating? {
      IntegralEnd(rs, t);
      NumeralsBefore(t, |t|);
    } else {
      hide *;
      IsFloat(rs, t);
      var e, start := FloatForm(rs, t);
      NumeralsBefore(t, e);
      if e < |t| {
        PowerIs(t, e, start);
      }
    }
  }

  lemma IsFloat(rs: Reals, t: string)
    requires ReadsNumber(rs, t) && NumberRead(rs, t).Floating?
    ensures ReadsFloat(rs, t) && t != "" && (IsDigit(t[0]) || t[0] == '-')
  {
  }

  lemma PowerIs(t: string, e: nat, start: nat)
    requires 0 < e && e + 1 < |t| && Mantissa(t[..e]) && (t[e] == 'e' || t[e] == 'E')
    requires start == (if IsSign(t[e + 1]) then e + 2 else e + 1) < |t| && DigitsEnd(t + [','], start) == |t|
    ensures exists m, x, sign, digits :: WithPower(t, m, x, sign, digits)
  {
    hide Mantissa, DigitsEnd, IsDigit;
    var m, sign, digits := t[..e], t[e + 1..start], t[start..];
    forall i | 0 <= i < |digits|
      ensures IsDigit(digits[i])
    {
      assert (t + [','])[start + i] == digits[i];
    }
    assert t == m + ([t[e]] + (sign + digits));
    assert WithPower(t, m, t[e], sign, digits);
  }

  lemma NumeralsBefore(t: string, e: nat)
    requires t != "" && (IsDigit(t[0]) || t[0] == '-') && e == NumberEnd(t + [','], 0) && 0 < e <= |t|
    ensures Mantissa(t[..e])
    ensures e == |t| ==> Mantissa(t)
  {
    var g := t + [','];
    forall i | 0 <= i < e
      ensures IsNumeral(t[i])
    {
      assert g[i] == t[i];
    }
    assert e == |t| ==> t[..e] == t;
  }
}
