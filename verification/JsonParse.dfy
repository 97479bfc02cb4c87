/** The recursive parser over a shared offset. */
module JsonParse {
  import opened Basics
  import opened JsonText

  /** What a parsing function does: it returns a value and the new offset, throws, or never returns. */
  datatype Outcome = Parsed(value: JSON, offset: nat) | Failed | Diverges

  /** The arithmetic of floating numbers: which texts `stod` accepts, and the printed form of the number that a mantissa and
      an exponent give. */
  datatype Reals = Reals(stod: string -> bool, text: (string, string) -> string)

  function SpacesEnd(fmt: string, o: nat): (e: nat)
    requires o <= |fmt|
    ensures o <= e <= |fmt|
    ensures e < |fmt| ==> !IsSpace(fmt[e])
    decreases |fmt| - o
  {
    if o < |fmt| && IsSpace(fmt[o]) then SpacesEnd(fmt, o + 1) else o
  }

  /** `consumeWhitespace`: behind the last character it steps back onto it. */
  function Skip(fmt: string, o: nat): (p: int)
    requires o <= |fmt|
    ensures p < |fmt| && (o < |fmt| ==> o <= p) && |fmt| - 1 <= p + |fmt| - o
  {
    var e := SpacesEnd(fmt, o);
    if e == |fmt| then e - 1 else e
  }

  // ----- strings

  function Unescaped(c: char): string {
    if c == '\"' then "\""
    else if c == '\\' then "\\"
    else if c == '/' then "/"
    else if c == 'b' then [BACKSPACE]
    else if c == 'f' then [FORMFEED]
    else if c == 'n' then "\n"
    else if c == 'r' then "\r"
    else if c == 't' then "\t"
    else "\\"
  }

  /** The loop of `parseString`, at the character with offset `o`, with `val` collected so far. */
  function StringFrom(fmt: string, o: nat, val: string): (r: Outcome)
    ensures r.Parsed? ==> o < r.offset <= |fmt| && r.value.Str?
    ensures !r.Diverges?
    decreases |fmt| - o
  {
    if o >= |fmt| then Failed
    else if fmt[o] == '\"' then Parsed(Str(val), o + 1)
    else if fmt[o] == '\\' then
      if o + 1 >= |fmt| then Failed
      else if fmt[o + 1] == 'u' then
        if o + 5 >= |fmt| || !(forall i :: o + 2 <= i <= o + 5 ==> IsHex(fmt[i])) || o + 6 == |fmt| then Failed
        else StringFrom(fmt, o + 6, val + "\\u" + fmt[o + 2..o + 6])
      else if o + 2 == |fmt| then Failed
      else StringFrom(fmt, o + 2, val + Unescaped(fmt[o + 1]))
    else if o + 1 == |fmt| then Failed
    else StringFrom(fmt, o + 1, val + [fmt[o]])
  }

  // ----- numbers

  /** The end of the run of digits, signs and points from `o` on. */
  function NumberEnd(fmt: string, o: nat): (e: nat)
    requires o <= |fmt|
    ensures o <= e <= |fmt|
    ensures forall i :: o <= i < e ==> IsDigit(fmt[i]) || fmt[i] == '-' || fmt[i] == '.'
    ensures e < |fmt| ==> !(IsDigit(fmt[e]) || fmt[e] == '-' || fmt[e] == '.')
    decreases |fmt| - o
  {
    if o < |fmt| && (IsDigit(fmt[o]) || fmt[o] == '-' || fmt[o] == '.') then NumberEnd(fmt, o + 1) else o
  }

  function DigitsEnd(s: string, i: nat): (e: nat)
    requires i <= |s|
    ensures i <= e <= |s| && forall k :: i <= k < e ==> IsDigit(s[k])
    ensures e < |s| ==> !IsDigit(s[e])
    decreases |s| - i
  {
    if i < |s| && IsDigit(s[i]) then DigitsEnd(s, i + 1) else i
  }

  /** `std::stol`: an optional sign and the digits that follow; what comes behind them is ignored. */
  function Stol(s: string): Option<int> {
    var start := if s != [] && s[0] == '-' then 1 else 0;
    var end := DigitsEnd(s, start);
    if end == start then None
    else
      var m := Horner(s[start..end]);
      var n: int := if start == 1 then 0 - m else m;
      if INT64_MIN <= n <= INT64_MAX then Some(n) else None
  }

  predicate EndsNumber(c: char) {
    IsSpace(c) || c == ',' || c == ']' || c == '}'
  }

  predicate IsSign(c: char) {
    c == '-' || c == '+'
  }

  /** `extractExponent`, from the character behind the `e` on: the exponent and the offset it leaves. At the end of the text
      the last digit is given back. */
  function Exponent(fmt: string, o: nat): (r: Option<(string, nat)>)
    ensures r.Some? ==> o < r.value.1 < |fmt| || (o == r.value.1 < |fmt| && |r.value.0| <= 1)
  {
    if o >= |fmt| then None
    else
      var start := if IsSign(fmt[o]) then o + 1 else o;
      var end := DigitsEnd(fmt, start);
      var exp := (if fmt[o] == '-' then "-" else "") + fmt[start..end];
      if end == |fmt| then Some((exp, |fmt| - 1))
      else if EndsNumber(fmt[end]) then Some((exp, end))
      else None
  }

  /** The number behind a mantissa and an exponent, if the conversions accept them. */
  function Scaled(rs: Reals, mantissa: string, exp: string, offset: nat): (r: Outcome)
    ensures r.Parsed? ==> r.offset == offset && r.value.Floating?
    ensures !r.Diverges?
  {
    if exp != "" && Stol(exp).None? then Failed
    else if '.' in mantissa then if rs.stod(mantissa) then Parsed(Floating(rs.text(mantissa, exp)), offset) else Failed
    else if Stol(mantissa).None? then Failed
    else Parsed(Floating(rs.text(mantissa, exp)), offset)
  }

  /** A number needs a character behind it: at the end of the text its last character is taken for that. */
  function ParseNumber(rs: Reals, fmt: string, p: nat): (r: Outcome)
    requires p < |fmt| && (IsDigit(fmt[p]) || fmt[p] == '-')
    ensures r.Parsed? ==> p < r.offset < |fmt|
    ensures !r.Diverges?
  {
    var e := NumberEnd(fmt, p);
    var c := if e < |fmt| then fmt[e] else fmt[|fmt| - 1];
    if c == 'e' || c == 'E' then
      match Exponent(fmt, e + 1)
      case Some((exp, offset)) => if exp == "" then Failed else Scaled(rs, fmt[p..e], exp, offset)
      case None => Failed
    else if !EndsNumber(c) then Failed
    else if '.' in fmt[p..e] then Scaled(rs, fmt[p..e], "", e)
    else match Stol(fmt[p..e])
      case Some(n) => Parsed(Integral(n), e)
      case None => Failed
  }

  // ----- literals

  function ParseBoolean(fmt: string, p: nat): (r: Outcome)
    requires p < |fmt|
    ensures r.Parsed? ==> p + 4 <= r.offset <= |fmt|
    ensures !r.Diverges?
  {
    if p + 4 <= |fmt| && fmt[p..p + 4] == "true" then Parsed(Boolean(true), p + 4)
    else if p + 5 <= |fmt| && fmt[p..p + 5] == "false" then Parsed(Boolean(false), p + 5)
    else Failed
  }

  function ParseNull(fmt: string, p: nat): (r: Outcome)
    requires p < |fmt|
    ensures r.Parsed? ==> p + 4 <= r.offset <= |fmt|
    ensures !r.Diverges?
  {
    if p + 4 <= |fmt| && fmt[p..p + 4] == "null" then Parsed(Null, p + 4) else Failed
  }

  // ----- arrays and objects

  /** The text form of a value used as a key. */
  function AsString(v: JSON): string {
    if v.Str? then Escape(v.s) else Text(v, Minified, 0)
  }

  /** A value was read from position `p` on; one that reaches the end of the text has at least two characters. */
  ghost predicate Advanced(fmt: string, p: int, r: Outcome) {
    r.Parsed? ==> p < r.offset <= |fmt| && (r.offset == |fmt| ==> p + 2 <= |fmt|)
  }

  function ParseNext(rs: Reals, fmt: string, o: nat): (r: Outcome)
    requires o <= |fmt|
    ensures Advanced(fmt, Skip(fmt, o), r)
    decreases |fmt| - Skip(fmt, o), 3
  {
    var p := Skip(fmt, o);
    if p < 0 then Failed
    else
      var c := fmt[p];
      if c == '{' then ParseObject(rs, fmt, p)
      else if c == '[' then ParseArray(rs, fmt, p)
      else if c == '\"' then StringFrom(fmt, p + 1, "")
      else if c == 't' || c == 'f' then ParseBoolean(fmt, p)
      else if c == 'n' then ParseNull(fmt, p)
      else if IsDigit(c) || c == '-' then ParseNumber(rs, fmt, p)
      else Failed
  }

  /** With the bracket as last character, `consumeWhitespace` steps back onto it and the parser starts again on the
      same bracket, forever. */
  function ParseArray(rs: Reals, fmt: string, p: nat): (r: Outcome)
    requires p < |fmt|
    ensures Advanced(fmt, p, r)
    decreases |fmt| - p, 2
  {
    if p + 1 == |fmt| then Diverges
    else
      var q := Skip(fmt, p + 1);
      if fmt[q] == ']' then Parsed(Array([]), q + 1) else ParseItems(rs, fmt, q, [])
  }

  function ParseItems(rs: Reals, fmt: string, s: nat, acc: seq<JSON>): (r: Outcome)
    requires s <= |fmt|
    ensures r.Parsed? ==> Skip(fmt, s) < r.offset <= |fmt|
    decreases |fmt| - Skip(fmt, s), 4
  {
    match ParseNext(rs, fmt, s)
    case Parsed(v, o) =>
      var w := Skip(fmt, o);
      if fmt[w] == ',' then ParseItems(rs, fmt, w + 1, acc + [v])
      else if fmt[w] == ']' then Parsed(Array(acc + [v]), w + 1)
      else Failed
    case other => other
  }

  function ParseObject(rs: Reals, fmt: string, p: nat): (r: Outcome)
    requires p < |fmt|
    ensures Advanced(fmt, p, r)
    decreases |fmt| - p, 2
  {
    if p + 1 == |fmt| then Diverges
    else
      var q := Skip(fmt, p + 1);
      if fmt[q] == '}' then Parsed(Object([]), q + 1) else ParseFields(rs, fmt, q, [])
  }

  datatype FieldOutcome = Read(key: JSON, value: JSON, offset: nat) | Stop(why: Outcome)

  /** A key, a colon and a value. */
  function ParseField(rs: Reals, fmt: string, s: nat): (r: FieldOutcome)
    requires s <= |fmt|
    ensures r.Read? ==> Skip(fmt, s) + 1 < r.offset <= |fmt|
    ensures r.Stop? ==> !r.why.Parsed?
    decreases |fmt| - Skip(fmt, s), 4
  {
    match ParseNext(rs, fmt, s)
    case Parsed(key, o) =>
      var w := Skip(fmt, o);
      if fmt[w] != ':' then Stop(Failed)
      else
        var q := Skip(fmt, w + 1);
        (match ParseNext(rs, fmt, q)
         case Parsed(v, o') => Read(key, v, o')
         case other => Stop(other))
    case other => Stop(other)
  }

  function ParseFields(rs: Reals, fmt: string, s: nat, acc: seq<Field>): (r: Outcome)
    requires s <= |fmt|
    ensures r.Parsed? ==> Skip(fmt, s) < r.offset <= |fmt|
    decreases |fmt| - Skip(fmt, s), 5
  {
    match ParseField(rs, fmt, s)
    case Read(key, v, o) =>
      var w := Skip(fmt, o);
      var fields := Put(acc, AsString(key), v);
      if fmt[w] == ',' then ParseFields(rs, fmt, w + 1, fields)
      else if fmt[w] == '}' then Parsed(Object(fields), w + 1)
      else Failed
    case Stop(why) => why
  }

  datatype Loaded = Value(json: JSON) | Throws | Never

  function Load(rs: Reals, fmt: string): Loaded {
    match ParseNext(rs, fmt, 0)
    case Parsed(v, o) => if o + 1 <= |fmt| then Throws else Value(v)
    case Failed => Throws
    case Diverges => Never
  }

  // ----- progress

  /** Behind a value and a comma the next one is read further on. */
  lemma CommaAdvances(rs: Reals, fmt: string, s: nat, v: JSON, e: nat)
    requires s <= |fmt| && ParseNext(rs, fmt, s) == Parsed(v, e)
    ensures Skip(fmt, s) < e <= |fmt| && 0 <= Skip(fmt, e) && Skip(fmt, s) < Skip(fmt, Skip(fmt, e) + 1)
  {
    hide ParseNext;
  }

  lemma FieldAdvances(rs: Reals, fmt: string, s: nat, r: FieldOutcome)
    requires s <= |fmt| && ParseField(rs, fmt, s) == r && r.Read?
    ensures Skip(fmt, s) < r.offset <= |fmt| && 0 <= Skip(fmt, r.offset) && Skip(fmt, s) < Skip(fmt, Skip(fmt, r.offset) + 1)
  {
    hide ParseField;
  }
}
