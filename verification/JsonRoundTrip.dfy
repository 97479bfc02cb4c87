/** Loading what either printer wrote gives back the value. */
module JsonRoundTrip {
  import opened Basics
  import opened JsonText
  import opened JsonParse

  // ----- keys, which are printed as they are

  /** The key is read from its first character to the quote behind it. */
  ghost predicate Closes(k: string) {
    StringFrom(k + ['\"'], 0, "").Parsed? && StringFrom(k + ['\"'], 0, "").offset == |k| + 1
  }

  ghost function Unquoted(k: string): string
    requires Closes(k)
  {
    StringFrom(k + ['\"'], 0, "").value.s
  }

  ghost predicate IsEscaped(k: string) {
    exists u :: Escape(u) == k
  }

  /** The key that the parser makes of a key that is printed. */
  ghost function KeyRead(k: string): string {
    if Closes(k) then Escape(Unquoted(k)) else k
  }

  // ----- numbers

  predicate IsNumber(v: JSON) {
    v.Integral? || v.Floating?
  }

  /** The text of a floating number is read as one, to its end. */
  ghost predicate ReadsFloat(rs: Reals, t: string) {
    && t != "" && (IsDigit(t[0]) || t[0] == '-')
    && var r := ParseNumber(rs, t + [','], 0); r.Parsed? && r.offset == |t| && r.value.Floating?
  }

  ghost function FloatRead(rs: Reals, t: string): JSON
    requires ReadsFloat(rs, t)
  {
    ParseNumber(rs, t + [','], 0).value
  }

  /** The values in question: 64-bit integers, floating numbers whose text can be read, object keys in order, each closed by
      its quote. */
  ghost predicate Plain(rs: Reals, v: JSON) {
    match v
    case Integral(n) => INT64_MIN <= n <= INT64_MAX
    case Floating(t) => ReadsFloat(rs, t)
    case Array(items) => forall i :: 0 <= i < |items| ==> Plain(rs, items[i])
    case Object(fields) =>
      KeysIncrease(fields) && forall i :: 0 <= i < |fields| ==> Closes(fields[i].key) && Plain(rs, fields[i].value)
    case _ => true
  }

  /** What loading makes of a printed value: every key becomes the escaped form of what it reads as, and every floating number
      the one that its text reads as. */
  ghost function Normal(rs: Reals, v: JSON): JSON
    decreases v
  {
    match v
    case Floating(t) => if ReadsFloat(rs, t) then FloatRead(rs, t) else v
    case Array(items) => Array(NormalItems(rs, items))
    case Object(fields) => Object(Rebuilt(rs, [], fields))
    case _ => v
  }

  ghost function NormalItems(rs: Reals, items: seq<JSON>): (r: seq<JSON>)
    ensures |r| == |items|
    decreases items
  {
    if items == [] then [] else [Normal(rs, items[0])] + NormalItems(rs, items[1..])
  }

  ghost function Rebuilt(rs: Reals, acc: seq<Field>, fields: seq<Field>): seq<Field>
    decreases fields
  {
    if fields == [] then acc
    else Rebuilt(rs, Put(acc, KeyRead(fields[0].key), Normal(rs, fields[0].value)), fields[1..])
  }

  ghost predicate BlankTab(lay: Layout) {
    lay.Pretty? ==> AllSpace(lay.tab)
  }

  /** `t` stands in the text at offset `o`. */
  ghost predicate Here(fmt: string, o: nat, t: string) {
    o + |t| <= |fmt| && fmt[o..o + |t|] == t
  }

  lemma HereParts(fmt: string, o: nat, a: string, b: string)
    requires Here(fmt, o, a + b)
    ensures Here(fmt, o, a) && Here(fmt, o + |a|, b)
  {
    var t := fmt[o..o + |a + b|];
    assert t[..|a|] == a && t[|a|..] == b;
    assert fmt[o..o + |a|] == t[..|a|];
    assert fmt[o + |a|..o + |a| + |b|] == t[|a|..];
  }

  lemma HereAt(fmt: string, o: nat, t: string, i: nat)
    requires Here(fmt, o, t) && i < |t|
    ensures fmt[o + i] == t[i]
  {
    assert fmt[o..o + |t|][i] == fmt[o + i];
  }

  /** Only white space lies between two offsets. */
  ghost predicate Blank(fmt: string, o: nat, p: nat) {
    o <= p <= |fmt| && forall i :: o <= i < p ==> IsSpace(fmt[i])
  }

  lemma BlankHere(fmt: string, o: nat, t: string)
    requires Here(fmt, o, t) && AllSpace(t)
    ensures Blank(fmt, o, o + |t|)
  {
    forall i | o <= i < o + |t|
      ensures IsSpace(fmt[i])
    {
      HereAt(fmt, o, t, i - o);
    }
  }

  lemma {:induction false} SkipTo(fmt: string, o: nat, p: nat)
    requires Blank(fmt, o, p) && p < |fmt| && !IsSpace(fmt[p])
    ensures Skip(fmt, o) == p && SpacesEnd(fmt, o) == p
    decreases p - o
  {
    if o < p {
      SkipTo(fmt, o + 1, p);
    }
  }

  // ----- gaps

  lemma {:induction false} PadIsBlank(tab: string, depth: nat)
    requires AllSpace(tab)
    ensures AllSpace(Pad(tab, depth))
  {
    if depth > 0 {
      PadIsBlank(tab, depth - 1);
    }
  }

  lemma GapsAreBlank(lay: Layout, depth: nat)
    requires BlankTab(lay)
    ensures AllSpace(OpenGap(lay)) && AllSpace(ItemGap(lay, depth)) && AllSpace(SepGap(lay))
    ensures AllSpace(ColonGap(lay)) && AllSpace(CloseGap(lay, depth))
  {
    if lay.Pretty? {
      PadIsBlank(lay.tab, depth);
    }
  }

  // ----- scalars

  /** One escaped character is read back. */
  lemma OneEscaped(fmt: string, o: nat, c: char, val: string)
    requires Here(fmt, o, EscapeChar(c)) && o + |EscapeChar(c)| < |fmt|
    ensures StringFrom(fmt, o, val) == StringFrom(fmt, o + |EscapeChar(c)|, val + [c])
  {
    var e := EscapeChar(c);
    HereAt(fmt, o, e, 0);
    if |e| == 2 {
      HereAt(fmt, o, e, 1);
      assert Unescaped(fmt[o + 1]) == [c];
    }
  }

  lemma {:induction false} StringBack(fmt: string, o: nat, u: string, val: string)
    requires Here(fmt, o, Escape(u) + "\"")
    ensures StringFrom(fmt, o, val) == Parsed(Str(val + u), o + |Escape(u)| + 1)
    decreases |u|
  {
    hide EscapeChar;
    if u == [] {
      HereAt(fmt, o, "\"", 0);
      assert Escape(u) + "\"" == "\"";
      assert val + u == val;
    } else {
      var e := EscapeChar(u[0]);
      var rest := Escape(u[1..]) + "\"";
      assert Escape(u) + "\"" == e + rest;
      HereParts(fmt, o, e, rest);
      HereAt(fmt, o + |e|, rest, 0);
      OneEscaped(fmt, o, u[0], val);
      var val' := val + [u[0]];
      StringBack(fmt, o + |e|, u[1..], val');
      assert val' + u[1..] == val + u;
    }
  }

  lemma {:induction false} NumberEndAt(fmt: string, o: nat, e: nat)
    requires o <= e < |fmt| && EndsNumber(fmt[e])
    requires forall i :: o <= i < e ==> IsDigit(fmt[i]) || fmt[i] == '-'
    ensures NumberEnd(fmt, o) == e
    decreases e - o
  {
    if o < e {
      NumberEndAt(fmt, o + 1, e);
    }
  }

  lemma {:induction false} DigitsEndAll(s: string, i: nat)
    requires i <= |s| && forall k :: i <= k < |s| ==> IsDigit(s[k])
    ensures DigitsEnd(s, i) == |s|
    decreases |s| - i
  {
    if i < |s| {
      DigitsEndAll(s, i + 1);
    }
  }

  lemma StolOfText(n: int)
    requires INT64_MIN <= n <= INT64_MAX
    ensures Stol(IntText(n)) == Some(n)
  {
    hide Decimal, Horner, DigitsEnd;
    var s := IntText(n);
    if n < 0 {
      var d := Decimal(-n);
      DigitsEndAll(s, 1);
      assert s[1..|s|] == d;
      HornerOfDecimal(-n);
    } else {
      DigitsEndAll(s, 0);
      assert s[0..|s|] == s;
      HornerOfDecimal(n);
    }
  }

  lemma NumberBack(rs: Reals, fmt: string, p: nat, n: int)
    requires INT64_MIN <= n <= INT64_MAX && Here(fmt, p, IntText(n))
    requires p + |IntText(n)| < |fmt| && EndsNumber(fmt[p + |IntText(n)|])
    ensures (IsDigit(fmt[p]) || fmt[p] == '-') && ParseNumber(rs, fmt, p) == Parsed(Integral(n), p + |IntText(n)|)
  {
    var t := IntText(n);
    var e := p + |t|;
    forall i | p <= i < e
      ensures IsDigit(fmt[i]) || fmt[i] == '-'
    {
      HereAt(fmt, p, t, i - p);
    }
    NumberEndAt(fmt, p, e);
    assert fmt[p..e] == t;
    StolOfText(n);
  }

  lemma {:induction false} NumberEndSame(fmt: string, p: nat, t: string, i: nat)
    requires Here(fmt, p, t) && i <= |t| && (p + |t| < |fmt| ==> EndsNumber(fmt[p + |t|]))
    ensures p + i <= |fmt| && NumberEnd(fmt, p + i) == p + NumberEnd(t + [','], i)
    decreases |t| - i
  {
    if i < |t| {
      HereAt(fmt, p, t, i);
      NumberEndSame(fmt, p, t, i + 1);
    }
  }

  lemma {:induction false} DigitsEndSame(fmt: string, p: nat, t: string, i: nat)
    requires Here(fmt, p, t) && i <= |t| && (p + |t| < |fmt| ==> EndsNumber(fmt[p + |t|]))
    ensures p + i <= |fmt| && DigitsEnd(fmt, p + i) == p + DigitsEnd(t + [','], i)
    decreases |t| - i
  {
    if i < |t| {
      HereAt(fmt, p, t, i);
      DigitsEndSame(fmt, p, t, i + 1);
    }
  }

  lemma HereSlice(fmt: string, p: nat, t: string, a: nat, b: nat)
    requires Here(fmt, p, t) && a <= b <= |t|
    ensures fmt[p + a..p + b] == t[a..b] == (t + [','])[a..b]
  {
    forall i | a <= i < b
      ensures fmt[p + i] == t[i]
    {
      HereAt(fmt, p, t, i);
    }
  }

  lemma NoDigits()
    ensures Stol("-") == None
  {
  }

  /** The mantissa of a floating number ends with it, or an exponent follows that does. */
  lemma FloatForm(rs: Reals, t: string) returns (e: nat, start: nat)
    requires ReadsFloat(rs, t)
    ensures e == NumberEnd(t + [','], 0) && 0 < e <= start <= |t|
    ensures e == |t| ==> Scaled(rs, t, "", |t|) == Parsed(FloatRead(rs, t), |t|) && '.' in t
    ensures e < |t| ==>
              && (t[e] == 'e' || t[e] == 'E') && e + 1 < |t| && start == (if IsSign(t[e + 1]) then e + 2 else e + 1) < |t|
              && DigitsEnd(t + [','], start) == |t|
              && Scaled(rs, t[..e], Sign(t[e + 1]) + t[start..], |t|) == Parsed(FloatRead(rs, t), |t|)
  {
    hide Stol, DigitsEnd, NumberEnd;
    var g := t + [','];
    e := NumberEnd(g, 0);
    FirstIsIn(g);
    assert g[0..e] == t[..e];
    start := e;
    if e == |t| {
      assert t[..e] == t;
    } else {
      var o := e + 1;
      start := if o < |t| && IsSign(t[o]) then o + 1 else o;
      var end := DigitsEnd(g, start);
      assert g[|t|] == ',' && !IsDigit(g[|t|]);
      assert end < |g|;
      assert g[start..end] == t[start..end];
      NoDigits();
      assert end == |t|;
      assert t[start..end] == t[start..];
      var digits := g[start..end];
      assert |digits| == end - start;
      assert digits == "" ==> "-" + digits == "-";
      assert start < |t|;
    }
  }

  function Sign(c: char): string {
    if c == '-' then "-" else ""
  }

  lemma FirstIsIn(g: string)
    requires g != "" && (IsDigit(g[0]) || g[0] == '-')
    ensures NumberEnd(g, 0) > 0
  {
  }

  lemma FloatBack(rs: Reals, fmt: string, p: nat, t: string)
    requires ReadsFloat(rs, t) && Here(fmt, p, t) && p + |t| < |fmt| && EndsNumber(fmt[p + |t|])
    ensures (IsDigit(fmt[p]) || fmt[p] == '-') && ParseNumber(rs, fmt, p) == Parsed(FloatRead(rs, t), p + |t|)
  {
    hide *;
    var e, start := FloatForm(rs, t);
    FloatStarts(rs, t);
    HereAt(fmt, p, t, 0);
    NumberEndSame(fmt, p, t, 0);
    HereSlice(fmt, p, t, 0, e);
    if e == |t| {
      assert t[0..e] == t;
      MantissaOnly(rs, fmt, p, p + e);
      ScaledOffset(rs, t, "", |t|, p + |t|);
    } else {
      HereAt(fmt, p, t, e);
      HereAt(fmt, p, t, e + 1);
      DigitsEndSame(fmt, p, t, start);
      HereSlice(fmt, p, t, start, |t|);
      assert t[start..|t|] == t[start..] && t[0..e] == t[..e];
      WithExponent(rs, fmt, p, p + e, p + start, p + |t|);
      ScaledOffset(rs, t[..e], Sign(t[e + 1]) + t[start..], |t|, p + |t|);
    }
  }

  lemma MantissaOnly(rs: Reals, fmt: string, p: nat, e: nat)
    requires p < |fmt| && (IsDigit(fmt[p]) || fmt[p] == '-') && NumberEnd(fmt, p) == e
    ensures p <= e <= |fmt|
    ensures e < |fmt| && EndsNumber(fmt[e]) && '.' in fmt[p..e] ==> ParseNumber(rs, fmt, p) == Scaled(rs, fmt[p..e], "", e)
    ensures e == |fmt| ==> ParseNumber(rs, fmt, p) == Failed
  {
    hide Scaled, Stol, Exponent;
  }

  lemma WithExponent(rs: Reals, fmt: string, p: nat, e: nat, start: nat, end: nat)
    requires p < |fmt| && (IsDigit(fmt[p]) || fmt[p] == '-') && NumberEnd(fmt, p) == e && e + 1 < |fmt|
    requires (fmt[e] == 'e' || fmt[e] == 'E') && start == (if IsSign(fmt[e + 1]) then e + 2 else e + 1) < end <= |fmt|
    requires DigitsEnd(fmt, start) == end && (end < |fmt| ==> EndsNumber(fmt[end]))
    ensures ParseNumber(rs, fmt, p)
            == Scaled(rs, fmt[p..e], Sign(fmt[e + 1]) + fmt[start..end], if end < |fmt| then end else |fmt| - 1)
  {
    hide Scaled, Stol, DigitsEnd, NumberEnd;
    assert |fmt[start..end]| > 0;
  }

  lemma ScaledOffset(rs: Reals, m: string, exp: string, a: nat, b: nat)
    ensures Scaled(rs, m, exp, a).Parsed? ==> Scaled(rs, m, exp, b) == Parsed(Scaled(rs, m, exp, a).value, b)
  {
    hide Stol;
  }

  lemma FloatStarts(rs: Reals, t: string)
    requires ReadsFloat(rs, t)
    ensures t != "" && (IsDigit(t[0]) || t[0] == '-')
  {
  }

  /** At the end of the text a floating number is refused, or loses its last digit. */
  lemma FloatAtEnd(rs: Reals, fmt: string, p: nat, t: string)
    requires ReadsFloat(rs, t) && Here(fmt, p, t) && p + |t| == |fmt|
    ensures p < |fmt| && (IsDigit(fmt[p]) || fmt[p] == '-') && Unfit(fmt, ParseNumber(rs, fmt, p))
  {
    hide *;
    var e, start := FloatForm(rs, t);
    FloatStarts(rs, t);
    HereAt(fmt, p, t, 0);
    NumberEndSame(fmt, p, t, 0);
    HereAt(fmt, p, t, |t| - 1);
    if e == |t| {
      MantissaOnly(rs, fmt, p, p + e);
      UnfitFailed(fmt);
    } else {
      HereAt(fmt, p, t, e);
      HereAt(fmt, p, t, e + 1);
      DigitsEndSame(fmt, p, t, start);
      WithExponent(rs, fmt, p, p + e, p + start, p + |t|);
      assert IsDigit(fmt[|fmt| - 1]);
      UnfitScaled(rs, fmt, fmt[p..p + e], Sign(fmt[p + e + 1]) + fmt[p + start..p + |t|]);
    }
  }

  lemma UnfitFailed(fmt: string)
    ensures Unfit(fmt, Failed)
  {
  }

  lemma UnfitScaled(rs: Reals, fmt: string, m: string, exp: string)
    requires fmt != "" && IsDigit(fmt[|fmt| - 1])
    ensures Unfit(fmt, Scaled(rs, m, exp, |fmt| - 1))
  {
    hide Scaled;
  }

  /** What becomes of a number at the end of the text. */
  ghost predicate Unfit(fmt: string, r: Outcome) {
    r == Failed || (r.Parsed? && fmt != "" && r.offset == |fmt| - 1 && IsDigit(fmt[|fmt| - 1]))
  }

  lemma GapHere(fmt: string, o: nat, gap: string, rest: string)
    requires Here(fmt, o, gap + rest) && AllSpace(gap)
    ensures Blank(fmt, o, o + |gap|) && Here(fmt, o + |gap|, rest)
  {
    HereParts(fmt, o, gap, rest);
    BlankHere(fmt, o, gap);
  }

  lemma LeadHere(fmt: string, o: nat, c: char, rest: string)
    requires Here(fmt, o, [c] + rest)
    ensures o < |fmt| && fmt[o] == c && Here(fmt, o + 1, rest)
  {
    HereParts(fmt, o, [c], rest);
    HereAt(fmt, o, [c], 0);
  }

  lemma BlankTwice(fmt: string, o: nat, p: nat, q: nat)
    requires Blank(fmt, o, p) && Blank(fmt, p, q)
    ensures Blank(fmt, o, q)
  {
  }

  lemma TrueBack(fmt: string, p: nat)
    requires Here(fmt, p, "true")
    ensures p < |fmt| && ParseBoolean(fmt, p) == Parsed(Boolean(true), p + 4)
  {
  }

  lemma FalseBack(fmt: string, p: nat)
    requires Here(fmt, p, "false")
    ensures p < |fmt| && ParseBoolean(fmt, p) == Parsed(Boolean(false), p + 5)
  {
    HereAt(fmt, p, "false", 0);
    assert fmt[p..p + 4][0] == fmt[p];
  }

  lemma QuotedBack(fmt: string, p: nat, u: string)
    requires Here(fmt, p, Quoted(Escape(u)))
    ensures p < |fmt| && fmt[p] == '\"'
    ensures StringFrom(fmt, p + 1, "") == Parsed(Str(u), p + |Escape(u)| + 2)
  {
    LeadHere(fmt, p, '\"', Escape(u) + ['\"']);
    StringBack(fmt, p + 1, u, "");
    assert "" + u == u;
  }

  // ----- one round of the loops over items and fields

  lemma LastItem(rs: Reals, fmt: string, o: nat, acc: seq<JSON>, v: JSON, e: nat, w: nat)
    requires o <= |fmt| && ParseNext(rs, fmt, o) == Parsed(v, e) && e <= |fmt|
    requires Blank(fmt, e, w) && w < |fmt| && fmt[w] == ']'
    ensures ParseItems(rs, fmt, o, acc) == Parsed(Array(acc + [v]), w + 1)
  {
    hide ParseNext;
    SkipTo(fmt, e, w);
  }

  lemma NextItem(rs: Reals, fmt: string, o: nat, acc: seq<JSON>, v: JSON, e: nat)
    requires o <= |fmt| && ParseNext(rs, fmt, o) == Parsed(v, e) && e < |fmt| && fmt[e] == ','
    ensures ParseItems(rs, fmt, o, acc) == ParseItems(rs, fmt, e + 1, acc + [v])
  {
    hide ParseNext;
    SkipTo(fmt, e, e);
  }

  lemma LastField(rs: Reals, fmt: string, o: nat, acc: seq<Field>, key: JSON, v: JSON, e: nat, w: nat)
    requires o <= |fmt| && ParseField(rs, fmt, o) == Read(key, v, e) && e <= |fmt|
    requires Blank(fmt, e, w) && w < |fmt| && fmt[w] == '}'
    ensures ParseFields(rs, fmt, o, acc) == Parsed(Object(Put(acc, AsString(key), v)), w + 1)
  {
    hide ParseField, ParseNext, Put;
    SkipTo(fmt, e, w);
  }

  lemma NextField(rs: Reals, fmt: string, o: nat, acc: seq<Field>, key: JSON, v: JSON, e: nat)
    requires o <= |fmt| && ParseField(rs, fmt, o) == Read(key, v, e) && e < |fmt| && fmt[e] == ','
    ensures ParseFields(rs, fmt, o, acc) == ParseFields(rs, fmt, e + 1, Put(acc, AsString(key), v))
  {
    hide ParseField, ParseNext, Put;
    SkipTo(fmt, e, e);
  }

  // ----- how the printed forms start

  lemma ArrayStart(items: seq<JSON>, lay: Layout, depth: nat)
    requires items != []
    ensures Text(Array(items), lay, depth)
         == ['['] + (OpenGap(lay) + (ItemGap(lay, depth) + ItemsRest(items, lay, depth, CloseGap(lay, depth) + [']'])))
  {
  }

  lemma ObjectStart(fields: seq<Field>, lay: Layout, depth: nat)
    requires fields != []
    ensures Text(Object(fields), lay, depth)
         == ['{'] + (OpenGap(lay) + (ItemGap(lay, depth) + FieldsRest(fields, lay, depth, CloseGap(lay, depth) + ['}'])))
  {
  }

  // ----- values

  /** Behind a number the text must go on with a character that ends it. */
  ghost predicate Terminated(fmt: string, e: nat, v: JSON) {
    IsNumber(v) ==> e < |fmt| && EndsNumber(fmt[e])
  }

  ghost predicate Starts(v: JSON) {
    v.Floating? ==> v.text != "" && (IsDigit(v.text[0]) || v.text[0] == '-')
  }

  lemma StartIsSolid(v: JSON, lay: Layout, depth: nat)
    requires Starts(v)
    ensures |Text(v, lay, depth)| > 0
    ensures var c := Text(v, lay, depth)[0]; !IsSpace(c) && c != ']' && c != '}'
  {
  }

  lemma StartHere(fmt: string, p: nat, v: JSON, lay: Layout, depth: nat)
    requires Here(fmt, p, Text(v, lay, depth)) && Starts(v)
    ensures p < |fmt| && fmt[p] == Text(v, lay, depth)[0] && !IsSpace(fmt[p]) && fmt[p] != ']' && fmt[p] != '}'
  {
    StartIsSolid(v, lay, depth);
    HereAt(fmt, p, Text(v, lay, depth), 0);
  }

  /** The printed form of a value, found at `p` behind white space, is parsed back and used up exactly. */
  lemma {:induction false} ParsesBack(rs: Reals, fmt: string, o: nat, p: nat, v: JSON, lay: Layout, depth: nat)
    requires Plain(rs, v) && BlankTab(lay)
    requires Blank(fmt, o, p) && Here(fmt, p, Text(v, lay, depth))
    requires Terminated(fmt, p + |Text(v, lay, depth)|, v)
    ensures ParseNext(rs, fmt, o) == Parsed(Normal(rs, v), p + |Text(v, lay, depth)|)
    decreases v, 1
  {
    hide ParseArray, ParseObject, StringFrom, NormalItems, Rebuilt, ParseNumber, ReadsFloat, FloatRead, ParseBoolean, IntText;
    hide Escape, Skip, IsSpace;
    PlainStarts(rs, v);
    StartHere(fmt, p, v, lay, depth);
    SkipTo(fmt, o, p);
    match v
    case Null =>
    case Boolean(b) =>
      if b {
        TrueBack(fmt, p);
      } else {
        FalseBack(fmt, p);
      }
    case Integral(n) => NumberBack(rs, fmt, p, n);
    case Floating(t) => FloatBack(rs, fmt, p, t);
    case Str(s) => QuotedBack(fmt, p, s);
    case Array(items) => ArrayBack(rs, fmt, p, items, lay, depth);
    case Object(fields) => ObjectBack(rs, fmt, p, fields, lay, depth);
  }

  lemma {:induction false} ArrayBack(rs: Reals, fmt: string, p: nat, items: seq<JSON>, lay: Layout, depth: nat)
    requires Plain(rs, Array(items)) && BlankTab(lay)
    requires Here(fmt, p, Text(Array(items), lay, depth))
    ensures p < |fmt| && ParseArray(rs, fmt, p) == Parsed(Array(NormalItems(rs, items)), p + |Text(Array(items), lay, depth)|)
    decreases items, 1
  {
    hide *;
    var close := CloseGap(lay, depth) + [']'];
    if items == [] {
      EmptyArrayBack(rs, fmt, p, lay, depth);
    } else {
      ArrayStart(items, lay, depth);
      var x := FirstInBody(fmt, p, '[', lay, depth, ItemsRest(items, lay, depth, close));
      PlainParts(rs, items);
      StartOfItems(fmt, x, items, lay, depth, close);
      SkipTo(fmt, p + 1, x);
      BlankNone(fmt, x);
      assert NormalItems(rs, items) == [] + NormalItems(rs, items);
      ItemsBack(rs, fmt, x, x, items, [], lay, depth, NormalItems(rs, items), p + |Text(Array(items), lay, depth)|);
      ArrayReads(rs, fmt, p, x);
    }
  }

  lemma ArrayReads(rs: Reals, fmt: string, p: nat, x: nat)
    requires p + 1 <= x < |fmt| && Skip(fmt, p + 1) == x && fmt[x] != ']'
    ensures ParseArray(rs, fmt, p) == ParseItems(rs, fmt, x, [])
  {
    hide ParseItems, ParseNext, Skip;
  }

  lemma ObjectReads(rs: Reals, fmt: string, p: nat, x: nat)
    requires p + 1 <= x < |fmt| && Skip(fmt, p + 1) == x && fmt[x] != '}'
    ensures ParseObject(rs, fmt, p) == ParseFields(rs, fmt, x, [])
  {
    hide ParseFields, ParseField, ParseNext, Skip;
  }

  lemma BracketsEnd()
    ensures EndsNumber(']') && EndsNumber('}')
  {
  }

  lemma QuoteIsSolid()
    ensures !IsSpace('\"')
  {
  }

  lemma EmptyArrayBack(rs: Reals, fmt: string, p: nat, lay: Layout, depth: nat)
    requires BlankTab(lay) && Here(fmt, p, Text(Array([]), lay, depth))
    ensures p < |fmt| && ParseArray(rs, fmt, p) == Parsed(Array(NormalItems(rs, [])), p + |Text(Array([]), lay, depth)|)
  {
    hide ParseItems, ParseNext, Skip, Here, BlankTab, OpenGap, CloseGap;
    EmptyBody(fmt, p, '[', ']', lay, depth);
  }

  lemma EmptyObjectBack(rs: Reals, fmt: string, p: nat, lay: Layout, depth: nat)
    requires BlankTab(lay) && Here(fmt, p, Text(Object([]), lay, depth))
    ensures p < |fmt| && ParseObject(rs, fmt, p) == Parsed(Object(Rebuilt(rs, [], [])), p + |Text(Object([]), lay, depth)|)
  {
    hide ParseFields, ParseField, ParseNext, Skip, Here, BlankTab, OpenGap, CloseGap;
    EmptyBody(fmt, p, '{', '}', lay, depth);
  }

  /** Nothing but white space between the brackets. */
  lemma EmptyBody(fmt: string, p: nat, open: char, c: char, lay: Layout, depth: nat)
    requires BlankTab(lay) && Here(fmt, p, [open] + (OpenGap(lay) + (CloseGap(lay, depth) + [c]))) && !IsSpace(c)
    ensures var w := p + 1 + |OpenGap(lay)| + |CloseGap(lay, depth)|;
            p + 1 < |fmt| && w < |fmt| && Skip(fmt, p + 1) == w && fmt[w] == c
  {
    GapsAreBlank(lay, depth);
    hide Here, Blank, OpenGap, CloseGap, AllSpace, Skip, IsSpace;
    LeadHere(fmt, p, open, OpenGap(lay) + (CloseGap(lay, depth) + [c]));
    GapHere(fmt, p + 1, OpenGap(lay), CloseGap(lay, depth) + [c]);
    var q := p + 1 + |OpenGap(lay)|;
    ClosesAt(fmt, q, lay, depth, c);
    BlankTwice(fmt, p + 1, q, q + |CloseGap(lay, depth)|);
    SkipTo(fmt, p + 1, q + |CloseGap(lay, depth)|);
  }

  /** Behind the bracket and white space stands the first item. */
  lemma FirstInBody(fmt: string, p: nat, open: char, lay: Layout, depth: nat, rest: string) returns (x: nat)
    requires BlankTab(lay) && Here(fmt, p, [open] + (OpenGap(lay) + (ItemGap(lay, depth) + rest)))
    ensures p < |fmt| && x == p + 1 + |OpenGap(lay)| + |ItemGap(lay, depth)|
    ensures Blank(fmt, p + 1, x) && Here(fmt, x, rest)
  {
    GapsAreBlank(lay, depth);
    hide Here, Blank, OpenGap, ItemGap, AllSpace;
    LeadHere(fmt, p, open, OpenGap(lay) + (ItemGap(lay, depth) + rest));
    GapHere(fmt, p + 1, OpenGap(lay), ItemGap(lay, depth) + rest);
    var q := p + 1 + |OpenGap(lay)|;
    GapHere(fmt, q, ItemGap(lay, depth), rest);
    x := q + |ItemGap(lay, depth)|;
    BlankTwice(fmt, p + 1, q, x);
  }

  lemma ClosesAt(fmt: string, q: nat, lay: Layout, depth: nat, c: char)
    requires BlankTab(lay) && Here(fmt, q, CloseGap(lay, depth) + [c])
    ensures var w := q + |CloseGap(lay, depth)|; Blank(fmt, q, w) && w < |fmt| && fmt[w] == c
    ensures EndsNumber(c) ==> EndsNumber(fmt[q])
  {
    var gap := CloseGap(lay, depth);
    GapsAreBlank(lay, depth);
    GapHere(fmt, q, gap, [c]);
    HereAt(fmt, q + |gap|, [c], 0);
    if gap != [] {
      assert IsSpace(fmt[q]);
    }
  }

  lemma StartOfItems(fmt: string, x: nat, items: seq<JSON>, lay: Layout, depth: nat, close: string)
    requires items != [] && Starts(items[0]) && Here(fmt, x, ItemsRest(items, lay, depth, close))
    ensures x < |fmt| && !IsSpace(fmt[x]) && fmt[x] != ']'
  {
    var t := Text(items[0], lay, depth + 1);
    HereParts(fmt, x, t, ItemsRest(items, lay, depth, close)[|t|..]);
    StartHere(fmt, x, items[0], lay, depth + 1);
  }

  lemma {:induction false} ItemsBack(rs: Reals, fmt: string, o: nat, x: nat, items: seq<JSON>, acc: seq<JSON>, lay: Layout,
                                     depth: nat, all: seq<JSON>, z: nat)
    requires items != [] && Plain(rs, Array(items)) && BlankTab(lay) && all == acc + NormalItems(rs, items)
    requires Blank(fmt, o, x) && Here(fmt, x, ItemsRest(items, lay, depth, CloseGap(lay, depth) + [']']))
    requires z == x + |ItemsRest(items, lay, depth, CloseGap(lay, depth) + [']'])|
    ensures ParseItems(rs, fmt, o, acc) == Parsed(Array(all), z)
    decreases items, 0
  {
    hide *;
    var v, close := items[0], CloseGap(lay, depth) + [']'];
    var t := Text(v, lay, depth + 1);
    PlainParts(rs, items);
    NormalParts(rs, items);
    if |items| == 1 {
      assert items == [v];
      OnlyItemText(v, lay, depth, close);
      BracketsEnd();
      EndsWith(fmt, x, t, lay, depth, ']', v);
      ParsesBack(rs, fmt, o, x, v, lay, depth + 1);
      LastItem(rs, fmt, o, acc, Normal(rs, v), x + |t|, x + |t| + |CloseGap(lay, depth)|);
    } else {
      var rest := items[1..];
      var u := ItemsRest(rest, lay, depth, close);
      ItemsRestParts(items, lay, depth, close);
      var y := GoesOnWith(fmt, x, t, lay, depth, u, v);
      ParsesBack(rs, fmt, o, x, v, lay, depth + 1);
      OneMore(acc, NormalItems(rs, items), all);
      ItemsBack(rs, fmt, x + |t| + 1, y, rest, acc + [Normal(rs, v)], lay, depth, all, z);
      NextItem(rs, fmt, o, acc, Normal(rs, v), x + |t|);
    }
  }

  lemma NormalParts(rs: Reals, items: seq<JSON>)
    requires items != []
    ensures NormalItems(rs, items)[0] == Normal(rs, items[0]) && NormalItems(rs, items)[1..] == NormalItems(rs, items[1..])
    ensures |items| == 1 ==> NormalItems(rs, items) == [Normal(rs, items[0])]
  {
    hide Normal;
  }

  lemma OneMore<T>(acc: seq<T>, items: seq<T>, all: seq<T>)
    requires items != [] && all == acc + items
    ensures all == acc + [items[0]] + items[1..]
  {
  }

  lemma OnlyItemText(v: JSON, lay: Layout, depth: nat, close: string)
    ensures ItemsRest([v], lay, depth, close) == Text(v, lay, depth + 1) + close
  {
  }

  lemma PlainParts(rs: Reals, items: seq<JSON>)
    requires items != [] && Plain(rs, Array(items))
    ensures Plain(rs, items[0]) && Starts(items[0]) && (|items| > 1 ==> Plain(rs, Array(items[1..])))
  {
    var rest := items[1..];
    forall i | 0 <= i < |rest|
      ensures Plain(rs, rest[i])
    {
      assert rest[i] == items[i + 1];
    }
  }

  lemma ItemsRestParts(items: seq<JSON>, lay: Layout, depth: nat, close: string)
    requires |items| > 1
    ensures ItemsRest(items, lay, depth, close)
         == Text(items[0], lay, depth + 1)
            + ([','] + (SepGap(lay) + (ItemGap(lay, depth) + ItemsRest(items[1..], lay, depth, close))))
  {
  }

  lemma StartOfFields(fmt: string, x: nat, fields: seq<Field>, lay: Layout, depth: nat, close: string)
    requires fields != [] && Here(fmt, x, FieldsRest(fields, lay, depth, close))
    ensures x < |fmt| && fmt[x] == '\"'
  {
    hide Text;
    var t := FieldText(fields[0], lay, depth);
    assert |t| > 0 && t[0] == '\"';
    HereAt(fmt, x, FieldsRest(fields, lay, depth, close), 0);
  }

  lemma EndsWith(fmt: string, x: nat, t: string, lay: Layout, depth: nat, c: char, v: JSON)
    requires BlankTab(lay) && Here(fmt, x, t + (CloseGap(lay, depth) + [c])) && EndsNumber(c)
    ensures Here(fmt, x, t) && Terminated(fmt, x + |t|, v)
    ensures var w := x + |t| + |CloseGap(lay, depth)|; Blank(fmt, x + |t|, w) && w < |fmt| && fmt[w] == c
  {
    hide Here, Blank, BlankTab, CloseGap, EndsNumber;
    HereParts(fmt, x, t, CloseGap(lay, depth) + [c]);
    ClosesAt(fmt, x + |t|, lay, depth, c);
  }

  lemma GoesOnWith(fmt: string, x: nat, t: string, lay: Layout, depth: nat, rest: string, v: JSON) returns (y: nat)
    requires BlankTab(lay) && Here(fmt, x, t + ([','] + (SepGap(lay) + (ItemGap(lay, depth) + rest))))
    ensures Here(fmt, x, t) && Terminated(fmt, x + |t|, v)
    ensures x + |t| < |fmt| && fmt[x + |t|] == ',' && Blank(fmt, x + |t| + 1, y) && Here(fmt, y, rest)
    ensures y == x + |t| + 1 + |SepGap(lay)| + |ItemGap(lay, depth)|
  {
    HereParts(fmt, x, t, [','] + (SepGap(lay) + (ItemGap(lay, depth) + rest)));
    y := Separated(fmt, x + |t|, lay, depth, rest);
  }

  /** A comma, and behind white space the rest. */
  lemma Separated(fmt: string, e: nat, lay: Layout, depth: nat, rest: string) returns (y: nat)
    requires BlankTab(lay) && Here(fmt, e, [','] + (SepGap(lay) + (ItemGap(lay, depth) + rest)))
    ensures e < |fmt| && fmt[e] == ',' && Blank(fmt, e + 1, y) && Here(fmt, y, rest)
    ensures y == e + 1 + |SepGap(lay)| + |ItemGap(lay, depth)|
  {
    GapsAreBlank(lay, depth);
    LeadHere(fmt, e, ',', SepGap(lay) + (ItemGap(lay, depth) + rest));
    GapHere(fmt, e + 1, SepGap(lay), ItemGap(lay, depth) + rest);
    var m := e + 1 + |SepGap(lay)|;
    GapHere(fmt, m, ItemGap(lay, depth), rest);
    y := m + |ItemGap(lay, depth)|;
    BlankTwice(fmt, e + 1, m, y);
  }

  lemma {:induction false} ObjectBack(rs: Reals, fmt: string, p: nat, fields: seq<Field>, lay: Layout, depth: nat)
    requires PlainFields(rs, fields) && BlankTab(lay)
    requires Here(fmt, p, Text(Object(fields), lay, depth))
    ensures p < |fmt| && ParseObject(rs, fmt, p) == Parsed(Object(Rebuilt(rs, [], fields)), p + |Text(Object(fields), lay, depth)|)
    decreases fields, 2
  {
    hide *;
    var close := CloseGap(lay, depth) + ['}'];
    if fields == [] {
      EmptyObjectBack(rs, fmt, p, lay, depth);
    } else {
      ObjectStart(fields, lay, depth);
      var x := FirstInBody(fmt, p, '{', lay, depth, FieldsRest(fields, lay, depth, close));
      StartOfFields(fmt, x, fields, lay, depth, close);
      QuoteIsSolid();
      SkipTo(fmt, p + 1, x);
      BlankNone(fmt, x);
      FieldsBack(rs, fmt, x, x, fields, [], lay, depth, Rebuilt(rs, [], fields), p + |Text(Object(fields), lay, depth)|);
      ObjectReads(rs, fmt, p, x);
    }
  }

  lemma {:induction false} FieldsBack(rs: Reals, fmt: string, o: nat, x: nat, fields: seq<Field>, acc: seq<Field>, lay: Layout,
                                      depth: nat, all: seq<Field>, z: nat)
    requires fields != [] && all == Rebuilt(rs, acc, fields) && PlainFields(rs, fields) && BlankTab(lay)
    requires Blank(fmt, o, x) && Here(fmt, x, FieldsRest(fields, lay, depth, CloseGap(lay, depth) + ['}']))
    requires z == x + |FieldsRest(fields, lay, depth, CloseGap(lay, depth) + ['}'])|
    ensures ParseFields(rs, fmt, o, acc) == Parsed(Object(all), z)
    decreases fields, 1
  {
    hide *;
    var f, close := fields[0], CloseGap(lay, depth) + ['}'];
    var t := FieldText(f, lay, depth);
    PlainFirst(rs, fields);
    var key := Str(Unquoted(f.key));
    RebuiltOne(rs, acc, fields, key);
    if |fields| == 1 {
      assert fields == [f];
      OnlyFieldText(f, lay, depth, close);
      BracketsEnd();
      EndsWith(fmt, x, t, lay, depth, '}', f.value);
      FieldBack(rs, fmt, o, x, f, lay, depth);
      LastField(rs, fmt, o, acc, key, Normal(rs, f.value), x + |t|, x + |t| + |CloseGap(lay, depth)|);
    } else {
      var rest := fields[1..];
      var u := FieldsRest(rest, lay, depth, close);
      FieldsRestParts(fields, lay, depth, close);
      var y := GoesOnWith(fmt, x, t, lay, depth, u, f.value);
      FieldBack(rs, fmt, o, x, f, lay, depth);
      FieldsBack(rs, fmt, x + |t| + 1, y, rest, Put(acc, AsString(key), Normal(rs, f.value)), lay, depth, all, z);
      NextField(rs, fmt, o, acc, key, Normal(rs, f.value), x + |t|);
    }
  }

  ghost predicate PlainFields(rs: Reals, fields: seq<Field>) {
    forall i :: 0 <= i < |fields| ==> Closes(fields[i].key) && Plain(rs, fields[i].value)
  }

  lemma PlainFirst(rs: Reals, fields: seq<Field>)
    requires fields != [] && PlainFields(rs, fields)
    ensures Closes(fields[0].key) && Plain(rs, fields[0].value) && PlainFields(rs, fields[1..])
  {
    hide Closes, Plain;
  }

  lemma RebuiltOne(rs: Reals, acc: seq<Field>, fields: seq<Field>, key: JSON)
    requires fields != [] && Closes(fields[0].key) && key == Str(Unquoted(fields[0].key))
    ensures Rebuilt(rs, acc, fields) == Rebuilt(rs, Put(acc, AsString(key), Normal(rs, fields[0].value)), fields[1..])
    ensures |fields| == 1 ==> Rebuilt(rs, acc, fields) == Put(acc, AsString(key), Normal(rs, fields[0].value))
  {
    hide Put, Normal, Closes, Unquoted;
  }

  lemma OnlyFieldText(f: Field, lay: Layout, depth: nat, close: string)
    ensures FieldsRest([f], lay, depth, close) == FieldText(f, lay, depth) + close
  {
  }

  lemma FieldsRestParts(fields: seq<Field>, lay: Layout, depth: nat, close: string)
    requires |fields| > 1
    ensures FieldsRest(fields, lay, depth, close)
         == FieldText(fields[0], lay, depth)
            + ([','] + (SepGap(lay) + (ItemGap(lay, depth) + FieldsRest(fields[1..], lay, depth, close))))
  {
  }

  /** One field: its quoted key is read, and its value behind the colon. */
  lemma {:induction false} FieldBack(rs: Reals, fmt: string, o: nat, x: nat, f: Field, lay: Layout, depth: nat)
    requires Plain(rs, f.value) && BlankTab(lay) && Closes(f.key)
    requires Blank(fmt, o, x) && Here(fmt, x, FieldText(f, lay, depth))
    requires Terminated(fmt, x + |FieldText(f, lay, depth)|, f.value)
    ensures ParseField(rs, fmt, o) == Read(Str(Unquoted(f.key)), Normal(rs, f.value), x + |FieldText(f, lay, depth)|)
    decreases f, 0
  {
    hide Text, ParseNext, ParseField, Here, Blank, BlankTab, Skip, Closes, Unquoted, Normal;
    var t := Text(f.value, lay, depth + 1);
    KeyBack(rs, fmt, o, x, f.key, [':'] + (ColonGap(lay) + t));
    var k := x + |Quoted(f.key)|;
    var p := ColonBack(fmt, k, lay, t);
    PlainStarts(rs, f.value);
    StartHere(fmt, p, f.value, lay, depth + 1);
    SkipTo(fmt, k + 1, p);
    BlankNone(fmt, p);
    ParsesBack(rs, fmt, p, p, f.value, lay, depth + 1);
    ReadsField(rs, fmt, o, Str(Unquoted(f.key)), k, p, Normal(rs, f.value), p + |t|);
  }

  lemma PlainStarts(rs: Reals, v: JSON)
    requires Plain(rs, v)
    ensures Starts(v)
  {
  }

  lemma BlankNone(fmt: string, p: nat)
    requires p <= |fmt|
    ensures Blank(fmt, p, p)
  {
  }

  lemma ReadsField(rs: Reals, fmt: string, o: nat, key: JSON, k: nat, p: nat, v: JSON, e: nat)
    requires o <= |fmt| && ParseNext(rs, fmt, o) == Parsed(key, k) && k < |fmt| && fmt[k] == ':'
    requires k + 1 <= p < |fmt| && Skip(fmt, k + 1) == p && ParseNext(rs, fmt, p) == Parsed(v, e)
    ensures ParseField(rs, fmt, o) == Read(key, v, e)
  {
    hide ParseNext;
    SkipTo(fmt, k, k);
  }

  lemma KeyBack(rs: Reals, fmt: string, o: nat, x: nat, k: string, rest: string)
    requires Closes(k) && Blank(fmt, o, x) && Here(fmt, x, Quoted(k) + rest)
    ensures ParseNext(rs, fmt, o) == Parsed(Str(Unquoted(k)), x + |Quoted(k)|)
    ensures Here(fmt, x + |Quoted(k)|, rest)
  {
    hide Closes, Unquoted, StringFrom;
    HereParts(fmt, x, Quoted(k), rest);
    LeadHere(fmt, x, '\"', k + ['\"']);
    ReadsAnywhere(fmt, x + 1, k);
    SkipTo(fmt, o, x);
  }

  /** A key that closes by itself is read the same way wherever it stands. */
  lemma ReadsAnywhere(fmt: string, o: nat, k: string)
    requires Closes(k) && Here(fmt, o, k + ['\"'])
    ensures StringFrom(fmt, o, "") == Parsed(Str(Unquoted(k)), o + |k| + 1)
  {
    hide StringFrom;
    var g := k + ['\"'];
    ReadsShifted(fmt, o, g, 0, "");
  }

  lemma {:induction false} ReadsShifted(fmt: string, o: nat, g: string, i: nat, val: string)
    requires Here(fmt, o, g) && i <= |g| && StringFrom(g, i, val).Parsed?
    ensures StringFrom(fmt, o + i, val) == Parsed(StringFrom(g, i, val).value, o + StringFrom(g, i, val).offset)
    decreases |g| - i
  {
    HereAt(fmt, o, g, i);
    if g[i] == '\\' {
      HereAt(fmt, o, g, i + 1);
      if g[i + 1] == 'u' {
        HereFour(fmt, o, g, i);
        ReadsShifted(fmt, o, g, i + 6, val + "\\u" + g[i + 2..i + 6]);
      } else {
        ReadsShifted(fmt, o, g, i + 2, val + Unescaped(g[i + 1]));
      }
    } else if g[i] != '\"' {
      ReadsShifted(fmt, o, g, i + 1, val + [g[i]]);
    }
  }

  lemma HereFour(fmt: string, o: nat, g: string, i: nat)
    requires Here(fmt, o, g) && i + 6 <= |g|
    ensures fmt[o + i + 2..o + i + 6] == g[i + 2..i + 6] && forall j :: i + 2 <= j <= i + 5 ==> fmt[o + j] == g[j]
  {
    forall j | 0 <= j < |g|
      ensures fmt[o + j] == g[j]
    {
      HereAt(fmt, o, g, j);
    }
  }

  lemma ColonBack(fmt: string, k: nat, lay: Layout, t: string) returns (p: nat)
    requires BlankTab(lay) && Here(fmt, k, [':'] + (ColonGap(lay) + t))
    ensures k < |fmt| && fmt[k] == ':' && p == k + 1 + |ColonGap(lay)| && Blank(fmt, k + 1, p) && Here(fmt, p, t)
  {
    GapsAreBlank(lay, 0);
    LeadHere(fmt, k, ':', ColonGap(lay) + t);
    GapHere(fmt, k + 1, ColonGap(lay), t);
    p := k + 1 + |ColonGap(lay)|;
  }

  // ----- keys in escaped form

  lemma EscapedCloses(u: string)
    ensures Closes(Escape(u)) && Unquoted(Escape(u)) == u
  {
    hide StringFrom, Escape;
    var g := Escape(u) + ['\"'];
    assert g[0..0 + |g|] == g;
    StringBack(g, 0, u, "");
    assert "" + u == u;
  }

  lemma EscapedIff(k: string)
    requires Closes(k)
    ensures IsEscaped(k) <==> KeyRead(k) == k
    ensures IsEscaped(KeyRead(k))
  {
    hide Closes, Unquoted, Escape;
    if IsEscaped(k) {
      var u :| Escape(u) == k;
      EscapedCloses(u);
    }
  }

  /** Every key, at any depth, is in escaped form. */
  ghost predicate AllEscaped(v: JSON) {
    match v
    case Array(items) => forall i :: 0 <= i < |items| ==> AllEscaped(items[i])
    case Object(fields) => forall i :: 0 <= i < |fields| ==> IsEscaped(fields[i].key) && AllEscaped(fields[i].value)
    case _ => true
  }

  /** Loading a printed value leaves only keys in escaped form. */
  lemma {:induction false} NormalIsEscaped(rs: Reals, v: JSON)
    requires Plain(rs, v)
    ensures AllEscaped(Normal(rs, v))
    decreases v, 1
  {
    hide IsEscaped, Closes, KeyRead, Put;
    match v
    case Array(items) => NormalItemsEscaped(rs, items);
    case Object(fields) => RebuiltEscaped(rs, [], fields);
    case _ =>
  }

  lemma {:induction false} NormalItemsEscaped(rs: Reals, items: seq<JSON>)
    requires forall i :: 0 <= i < |items| ==> Plain(rs, items[i])
    ensures forall i :: 0 <= i < |items| ==> AllEscaped(NormalItems(rs, items)[i])
    decreases items, 0
  {
    hide Plain, AllEscaped, Normal;
    if items != [] {
      NormalIsEscaped(rs, items[0]);
      NormalItemsEscaped(rs, items[1..]);
    }
  }

  ghost predicate FieldsEscaped(fields: seq<Field>) {
    forall i :: 0 <= i < |fields| ==> IsEscaped(fields[i].key) && AllEscaped(fields[i].value)
  }

  lemma {:induction false} RebuiltEscaped(rs: Reals, acc: seq<Field>, fields: seq<Field>)
    requires FieldsEscaped(acc) && PlainFields(rs, fields)
    ensures FieldsEscaped(Rebuilt(rs, acc, fields))
    decreases fields, 0
  {
    hide Plain, AllEscaped, Normal, IsEscaped, Closes, KeyRead, Put, FieldsEscaped, PlainFields;
    if fields != [] {
      var f := fields[0];
      PlainFirst(rs, fields);
      NormalIsEscaped(rs, f.value);
      EscapedIff(f.key);
      PutEscaped(acc, KeyRead(f.key), Normal(rs, f.value));
      RebuiltEscaped(rs, Put(acc, KeyRead(f.key), Normal(rs, f.value)), fields[1..]);
    }
  }

  lemma {:induction false} PutEscaped(fields: seq<Field>, key: string, value: JSON)
    requires FieldsEscaped(fields) && IsEscaped(key) && AllEscaped(value)
    ensures FieldsEscaped(Put(fields, key, value))
    decreases |fields|
  {
    hide IsEscaped, AllEscaped, Less;
    if fields != [] && fields[0].key != key && !Less(key, fields[0].key) {
      PutEscaped(fields[1..], key, value);
    }
  }

  /** Every floating number, at any depth, is the one that its text reads as. */
  ghost predicate AllReread(rs: Reals, v: JSON) {
    match v
    case Floating(t) => ReadsFloat(rs, t) && FloatRead(rs, t) == v
    case Array(items) => forall i :: 0 <= i < |items| ==> AllReread(rs, items[i])
    case Object(fields) => forall i :: 0 <= i < |fields| ==> AllReread(rs, fields[i].value)
    case _ => true
  }

  /** The fields with their values as they come back. */
  ghost function NormalFields(rs: Reals, fields: seq<Field>): (r: seq<Field>)
    ensures |r| == |fields| && forall i :: 0 <= i < |fields| ==> r[i] == Field(fields[i].key, Normal(rs, fields[i].value))
  {
    seq(|fields|, i requires 0 <= i < |fields| => Field(fields[i].key, Normal(rs, fields[i].value)))
  }

  /** A value whose keys are all in escaped form comes back as it is exactly when its floating numbers do. */
  lemma {:induction false} EscapedIsNormal(rs: Reals, v: JSON)
    requires Plain(rs, v) && AllEscaped(v)
    ensures Normal(rs, v) == v <==> AllReread(rs, v)
    decreases v, 1
  {
    hide IsEscaped, Closes, KeyRead, Put, Rebuilt, ReadsFloat, FloatRead;
    match v
    case Array(items) =>
      forall i | 0 <= i < |items|
        ensures NormalItems(rs, items)[i] == items[i] <==> AllReread(rs, items[i])
      {
        NormalAt(rs, items, i);
        EscapedIsNormal(rs, items[i]);
      }
    case Object(fields) =>
      EscapedFields(rs, [], fields, [], fields);
      assert [] + NormalFields(rs, fields) == NormalFields(rs, fields);
      forall i | 0 <= i < |fields|
        ensures NormalFields(rs, fields)[i] == fields[i] <==> AllReread(rs, fields[i].value)
      {
        EscapedIsNormal(rs, fields[i].value);
        assert fields[i] == Field(fields[i].key, fields[i].value);
      }
    case _ =>
  }

  lemma {:induction false} NormalAt(rs: Reals, items: seq<JSON>, i: nat)
    requires i < |items|
    ensures NormalItems(rs, items)[i] == Normal(rs, items[i])
  {
    hide Normal;
    if i > 0 {
      NormalAt(rs, items[1..], i - 1);
    }
  }

  /** Fields in key order, with keys in escaped form, are put back one behind the other. */
  lemma {:induction false} EscapedFields(rs: Reals, done: seq<Field>, fields: seq<Field>, acc: seq<Field>, all: seq<Field>)
    requires all == done + fields && KeysIncrease(all) && PlainFields(rs, fields) && FieldsEscaped(fields)
    requires acc == NormalFields(rs, done)
    ensures Rebuilt(rs, acc, fields) == acc + NormalFields(rs, fields)
    decreases |fields|
  {
    hide Plain, AllEscaped, Normal, IsEscaped, Closes, KeyRead, Put, KeysIncrease;
    if fields == [] {
      assert acc + NormalFields(rs, fields) == acc;
    } else {
      var f := fields[0];
      var g := Field(f.key, Normal(rs, f.value));
      EscapedIff(f.key);
      PutNext(rs, done, fields, acc);
      OneMore(done, fields, all);
      assert NormalFields(rs, done + [f]) == acc + [g];
      EscapedFields(rs, done + [f], fields[1..], acc + [g], all);
      assert acc + [g] + NormalFields(rs, fields[1..]) == acc + NormalFields(rs, fields);
    }
  }

  lemma PutNext(rs: Reals, done: seq<Field>, fields: seq<Field>, acc: seq<Field>)
    requires fields != [] && KeysIncrease(done + fields) && acc == NormalFields(rs, done)
    ensures var f := fields[0]; Put(acc, f.key, Normal(rs, f.value)) == acc + [Field(f.key, Normal(rs, f.value))]
  {
    hide Less, Put, Normal;
    var all := done + fields;
    forall i | 0 <= i < |acc|
      ensures Less(acc[i].key, fields[0].key)
    {
      assert Less(all[i].key, all[|done|].key);
    }
    PutLast(acc, fields[0].key, Normal(rs, fields[0].value));
  }

  // ----- loading what was printed

  /** Loading what either printer wrote gives the value with its keys in escaped form and its floating numbers as they are read; a
      bare number is refused. */
  lemma LoadNormalises(rs: Reals, v: JSON, lay: Layout, depth: nat)
    requires Plain(rs, v) && BlankTab(lay)
    ensures Load(rs, Text(v, lay, depth)) == if IsNumber(v) then Throws else Value(Normal(rs, v))
  {
    hide *;
    var fmt := Text(v, lay, depth);
    NumberIs(v);
    if v.Integral? {
      NumberText(v.n, lay, depth);
      BareNumberThrows(rs, v.n);
    } else if v.Floating? {
      BareFloatThrows(rs, v, lay, depth);
    } else {
      WholeText(fmt, v);
      ParsesBack(rs, fmt, 0, 0, v, lay, depth);
      LoadsParsed(rs, fmt, Normal(rs, v));
    }
  }

  lemma NumberIs(v: JSON)
    ensures IsNumber(v) <==> v.Integral? || v.Floating?
  {
  }

  /** Loading undoes printing, for both printers and every indentation by white space, exactly when the value is not a bare
      number, all its keys are in escaped form and all its floating numbers are what their texts read as. */
  lemma LoadUndoesPrinting(rs: Reals, v: JSON, lay: Layout, depth: nat)
    requires Plain(rs, v) && BlankTab(lay)
    ensures Load(rs, Text(v, lay, depth)) == Value(v) <==> !IsNumber(v) && AllEscaped(v) && AllReread(rs, v)
  {
    hide *;
    LoadNormalises(rs, v, lay, depth);
    NormalIff(rs, v);
  }

  lemma NormalIff(rs: Reals, v: JSON)
    requires Plain(rs, v)
    ensures Normal(rs, v) == v <==> AllEscaped(v) && AllReread(rs, v)
  {
    hide *;
    NormalIsEscaped(rs, v);
    if AllEscaped(v) {
      EscapedIsNormal(rs, v);
    }
  }

  lemma BareFloatThrows(rs: Reals, v: JSON, lay: Layout, depth: nat)
    requires v.Floating? && Plain(rs, v)
    ensures Load(rs, Text(v, lay, depth)) == Throws
  {
    hide ParseNumber, StringFrom, ParseArray, ParseObject, ParseBoolean, ParseNull;
    var fmt := v.text;
    assert fmt[0..0 + |fmt|] == fmt;
    FloatAtEnd(rs, fmt, 0, fmt);
    SkipTo(fmt, 0, 0);
  }

  lemma NumberText(n: int, lay: Layout, depth: nat)
    ensures Text(Integral(n), lay, depth) == IntText(n)
  {
  }

  lemma WholeText(fmt: string, v: JSON)
    requires !IsNumber(v)
    ensures Blank(fmt, 0, 0) && Here(fmt, 0, fmt) && Terminated(fmt, |fmt|, v)
  {
    assert fmt[0..0 + |fmt|] == fmt;
  }

  lemma LoadsParsed(rs: Reals, fmt: string, v: JSON)
    requires ParseNext(rs, fmt, 0) == Parsed(v, |fmt|)
    ensures Load(rs, fmt) == Value(v)
  {
    hide ParseNext;
  }

  /** A bare number is refused: the parser wants a character behind it. */
  lemma BareNumberThrows(rs: Reals, n: int)
    ensures Load(rs, IntText(n)) == Throws
  {
    hide Exponent, Scaled, Stol, StringFrom, ParseArray, ParseObject;
    var fmt := IntText(n);
    SkipTo(fmt, 0, 0);
    AllNumber(fmt, 0);
  }

  lemma {:induction false} AllNumber(fmt: string, o: nat)
    requires o <= |fmt| && forall i :: o <= i < |fmt| ==> IsDigit(fmt[i]) || fmt[i] == '-'
    ensures NumberEnd(fmt, o) == |fmt|
    decreases |fmt| - o
  {
    if o < |fmt| {
      AllNumber(fmt, o + 1);
    }
  }
}
