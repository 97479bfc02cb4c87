/** What loading makes of a minified text whose last character is missing: the parser takes the last bracket for two exactly
    when an array ends in an array, or an object in an object. */
module JsonCut {
  import opened JsonText
  import opened JsonParse
  import opened JsonRoundTrip
  import opened JsonUnfinished

  /** The last bracket closes two of the same kind. */
  predicate EndsTwice(v: JSON) {
    match v
    case Array(items) => items != [] && items[|items| - 1].Array?
    case Object(fields) => fields != [] && fields[|fields| - 1].value.Object?
    case _ => false
  }

  predicate IsEmpty(v: JSON) {
    (v.Array? && v.items == []) || (v.Object? && v.fields == [])
  }

  // ----- texts without their end

  lemma {:induction false} ItemsOpen(items: seq<JSON>, lay: Layout, depth: nat, a: string, b: string)
    requires items != []
    ensures ItemsRest(items, lay, depth, a + b) == ItemsRest(items, lay, depth, a) + b
    decreases |items|
  {
    hide Text, SepGap, ItemGap;
    var t := Text(items[0], lay, depth + 1);
    if |items| == 1 {
      assert t + (a + b) == (t + a) + b;
    } else {
      ItemsOpen(items[1..], lay, depth, a, b);
      var r, g, h := ItemsRest(items[1..], lay, depth, a), SepGap(lay), ItemGap(lay, depth);
      assert t + ([','] + (g + (h + (r + b)))) == (t + ([','] + (g + (h + r)))) + b;
    }
  }

  lemma {:induction false} FieldsOpen(fields: seq<Field>, lay: Layout, depth: nat, a: string, b: string)
    requires fields != []
    ensures FieldsRest(fields, lay, depth, a + b) == FieldsRest(fields, lay, depth, a) + b
    decreases |fields|
  {
    hide Text, FieldText, SepGap, ItemGap;
    var t := FieldText(fields[0], lay, depth);
    if |fields| == 1 {
      assert t + (a + b) == (t + a) + b;
    } else {
      FieldsOpen(fields[1..], lay, depth, a, b);
      var r, g, h := FieldsRest(fields[1..], lay, depth, a), SepGap(lay), ItemGap(lay, depth);
      assert t + ([','] + (g + (h + (r + b)))) == (t + ([','] + (g + (h + r)))) + b;
    }
  }

  ghost function Cut(s: string): string
    requires s != []
  {
    s[..|s| - 1]
  }

  lemma CutArray(items: seq<JSON>)
    requires items != []
    ensures Text(Array(items), Minified, 0) != [] && Cut(Text(Array(items), Minified, 0)) == ['['] + ItemsRest(items, Minified, 0, "")
  {
    hide ItemsRest;
    ItemsOpen(items, Minified, 0, "", "]");
    assert "" + [']'] == "" + "]";
    assert Text(Array(items), Minified, 0) == ['['] + (ItemsRest(items, Minified, 0, "") + "]") by {
      ArrayStart(items, Minified, 0);
      assert "" + ("" + (ItemsRest(items, Minified, 0, "") + "]")) == ItemsRest(items, Minified, 0, "") + "]";
    }
  }

  lemma CutObject(fields: seq<Field>)
    requires fields != []
    ensures Text(Object(fields), Minified, 0) != []
    ensures Cut(Text(Object(fields), Minified, 0)) == ['{'] + FieldsRest(fields, Minified, 0, "")
  {
    hide FieldsRest;
    FieldsOpen(fields, Minified, 0, "", "}");
    assert "" + ['}'] == "" + "}";
    assert Text(Object(fields), Minified, 0) == ['{'] + (FieldsRest(fields, Minified, 0, "") + "}") by {
      ObjectStart(fields, Minified, 0);
      assert "" + ("" + (FieldsRest(fields, Minified, 0, "") + "}")) == FieldsRest(fields, Minified, 0, "") + "}";
    }
  }

  // ----- the last value of the text

  ghost function LastChar(v: JSON): char {
    match v
    case Array(_) => ']'
    case Object(_) => '}'
    case Str(_) => '\"'
    case Null => 'l'
    case _ => 'e'
  }

  lemma EndOfText(v: JSON, depth: nat)
    requires !IsNumber(v)
    ensures var t := Text(v, Minified, depth); t != [] && t[|t| - 1] == LastChar(v)
  {
    hide ItemsRest, FieldsRest, Escape;
    match v
    case Array(items) =>
      if items != [] {
        ArrayStart(items, Minified, depth);
        ItemsOpen(items, Minified, depth, "", "]");
        assert "" + [']'] == "" + "]";
      }
    case Object(fields) =>
      if fields != [] {
        ObjectStart(fields, Minified, depth);
        FieldsOpen(fields, Minified, depth, "", "}");
        assert "" + ['}'] == "" + "}";
      }
    case _ =>
  }

  lemma BackOntoEnd(fmt: string, x: nat, v: JSON, depth: nat)
    requires Here(fmt, x, Text(v, Minified, depth)) && x + |Text(v, Minified, depth)| == |fmt| && !IsNumber(v)
    ensures fmt != [] && Skip(fmt, |fmt|) == |fmt| - 1 && fmt[|fmt| - 1] == LastChar(v)
  {
    hide Text;
    EndOfText(v, depth);
    var t := Text(v, Minified, depth);
    HereAt(fmt, x, t, |t| - 1);
  }

  lemma IntegerAtEnd(rs: Reals, fmt: string, p: nat, n: int)
    requires Here(fmt, p, IntText(n)) && p + |IntText(n)| == |fmt|
    ensures p < |fmt| && (IsDigit(fmt[p]) || fmt[p] == '-') && Unfit(fmt, ParseNumber(rs, fmt, p))
  {
    hide Exponent, Scaled, Stol, IntText;
    var t := IntText(n);
    forall i | p <= i < |fmt|
      ensures IsDigit(fmt[i]) || fmt[i] == '-'
    {
      HereAt(fmt, p, t, i - p);
    }
    AllNumber(fmt, p);
  }

  /** A number at the end of the text fails, or loses its last digit. */
  lemma NumberAtEnd(rs: Reals, fmt: string, o: nat, p: nat, v: JSON)
    requires Plain(rs, v) && IsNumber(v) && Blank(fmt, o, p)
    requires Here(fmt, p, Text(v, Minified, 1)) && p + |Text(v, Minified, 1)| == |fmt|
    ensures p < |fmt| && !IsSpace(fmt[p]) && Unfit(fmt, ParseNext(rs, fmt, o))
  {
    hide ParseNumber, IntText, Unfit, StringFrom, ParseArray, ParseObject, ParseBoolean, ParseNull;
    if v.Integral? {
      IntegerAtEnd(rs, fmt, p, v.n);
    } else {
      FloatAtEnd(rs, fmt, p, v.text);
    }
    SkipTo(fmt, o, p);
  }

  /** A string whose last character ends the text fails. */
  lemma LastEscaped(fmt: string, o: nat, c: char, val: string)
    requires Here(fmt, o, EscapeChar(c)) && o + |EscapeChar(c)| == |fmt|
    ensures StringFrom(fmt, o, val) == Failed
  {
    var e := EscapeChar(c);
    HereAt(fmt, o, e, 0);
    if |e| == 2 {
      HereAt(fmt, o, e, 1);
    }
  }

  lemma {:induction false} OpenString(fmt: string, o: nat, u: string, val: string)
    requires Here(fmt, o, Escape(u)) && o + |Escape(u)| == |fmt|
    ensures StringFrom(fmt, o, val) == Failed
    decreases |u|
  {
    hide EscapeChar;
    if u != [] {
      var e, rest := EscapeChar(u[0]), Escape(u[1..]);
      assert Escape(u) == e + rest;
      hide StringFrom;
      HereParts(fmt, o, e, rest);
      if rest != [] {
        OneEscaped(fmt, o, u[0], val);
        OpenString(fmt, o + |e|, u[1..], val + [u[0]]);
      } else {
        LastEscaped(fmt, o, u[0], val);
      }
    }
  }

  // ----- arrays

  lemma ItemsFail(rs: Reals, fmt: string, x: nat, acc: seq<JSON>)
    requires x <= |fmt| && Unfit(fmt, ParseNext(rs, fmt, x))
    ensures ParseItems(rs, fmt, x, acc) == Failed
  {
    hide ParseNext;
  }

  /** An item that ends with the text: its own last character is looked at again. */
  lemma ItemAtEnd(rs: Reals, fmt: string, x: nat, acc: seq<JSON>, v: JSON)
    requires x <= |fmt| && fmt != [] && ParseNext(rs, fmt, x) == Parsed(v, |fmt|)
    requires Skip(fmt, |fmt|) == |fmt| - 1 && fmt[|fmt| - 1] != ','
    ensures ParseItems(rs, fmt, x, acc) == if fmt[|fmt| - 1] == ']' then Parsed(Array(acc + [v]), |fmt|) else Failed
  {
    hide ParseNext, Skip;
  }

  lemma MinifiedGaps(depth: nat)
    ensures BlankTab(Minified) && SepGap(Minified) == "" && ItemGap(Minified, depth) == "" && ColonGap(Minified) == ""
  {
  }

  lemma {:induction false} ItemsCut(rs: Reals, fmt: string, o: nat, x: nat, items: seq<JSON>, acc: seq<JSON>, all: seq<JSON>)
    requires items != [] && Plain(rs, Array(items)) && all == acc + NormalItems(rs, items) && Blank(fmt, o, x)
    requires Here(fmt, x, ItemsRest(items, Minified, 0, "")) && x + |ItemsRest(items, Minified, 0, "")| == |fmt|
    ensures ParseItems(rs, fmt, o, acc) == if items[|items| - 1].Array? then Parsed(Array(all), |fmt|) else Failed
    decreases |items|
  {
    hide *;
    var v := items[0];
    var t := Text(v, Minified, 1);
    MinifiedGaps(0);
    PlainParts(rs, items);
    NormalParts(rs, items);
    if |items| == 1 {
      assert items == [v];
      OnlyItemText(v, Minified, 0, "");
      assert t + "" == t;
      LastItemCut(rs, fmt, o, x, v, acc);
    } else {
      var rest := items[1..];
      ItemsRestParts(items, Minified, 0, "");
      var y := GoesOnWith(fmt, x, t, Minified, 0, ItemsRest(rest, Minified, 0, ""), v);
      ParsesBack(rs, fmt, o, x, v, Minified, 1);
      OneMore(acc, NormalItems(rs, items), all);
      ItemsCut(rs, fmt, x + |t| + 1, y, rest, acc + [Normal(rs, v)], all);
      NextItem(rs, fmt, o, acc, Normal(rs, v), x + |t|);
    }
  }

  lemma LastItemCut(rs: Reals, fmt: string, o: nat, x: nat, v: JSON, acc: seq<JSON>)
    requires Plain(rs, v) && Blank(fmt, o, x) && Here(fmt, x, Text(v, Minified, 1)) && x + |Text(v, Minified, 1)| == |fmt|
    ensures ParseItems(rs, fmt, o, acc) == if v.Array? then Parsed(Array(acc + [Normal(rs, v)]), |fmt|) else Failed
  {
    hide Plain, Text, ParseNext, ParseItems, Normal, Here, Skip;
    if IsNumber(v) {
      NumberAtEnd(rs, fmt, o, x, v);
      ItemsFail(rs, fmt, o, acc);
    } else {
      MinifiedGaps(0);
      ParsesBack(rs, fmt, o, x, v, Minified, 1);
      BackOntoEnd(fmt, x, v, 1);
      ItemAtEnd(rs, fmt, o, acc, Normal(rs, v));
    }
  }

  // ----- objects

  lemma FieldsFail(rs: Reals, fmt: string, x: nat, acc: seq<Field>)
    requires x <= |fmt| && UnfitField(fmt, ParseField(rs, fmt, x))
    ensures ParseFields(rs, fmt, x, acc) == Failed
  {
    hide ParseField, ParseNext, Put, AsString;
  }

  ghost predicate UnfitField(fmt: string, r: FieldOutcome) {
    match r
    case Read(_, v, offset) => Unfit(fmt, Parsed(v, offset))
    case Stop(why) => why == Failed
  }

  lemma FieldAtEnd(rs: Reals, fmt: string, x: nat, acc: seq<Field>, key: JSON, v: JSON)
    requires x <= |fmt| && fmt != [] && ParseField(rs, fmt, x) == Read(key, v, |fmt|)
    requires Skip(fmt, |fmt|) == |fmt| - 1 && fmt[|fmt| - 1] != ','
    ensures ParseFields(rs, fmt, x, acc)
            == if fmt[|fmt| - 1] == '}' then Parsed(Object(Put(acc, AsString(key), v)), |fmt|) else Failed
  {
    hide ParseField, ParseNext, Skip, Put, AsString;
  }

  lemma {:induction false} FieldsCut(rs: Reals, fmt: string, o: nat, x: nat, fields: seq<Field>, acc: seq<Field>, all: seq<Field>)
    requires fields != [] && PlainFields(rs, fields) && all == Rebuilt(rs, acc, fields) && Blank(fmt, o, x)
    requires Here(fmt, x, FieldsRest(fields, Minified, 0, "")) && x + |FieldsRest(fields, Minified, 0, "")| == |fmt|
    ensures ParseFields(rs, fmt, o, acc) == if fields[|fields| - 1].value.Object? then Parsed(Object(all), |fmt|) else Failed
    decreases |fields|
  {
    hide *;
    var f := fields[0];
    var t := FieldText(f, Minified, 0);
    MinifiedGaps(0);
    PlainFirst(rs, fields);
    var key := Str(Unquoted(f.key));
    RebuiltOne(rs, acc, fields, key);
    if |fields| == 1 {
      assert fields == [f];
      OnlyFieldText(f, Minified, 0, "");
      assert t + "" == t;
      LastFieldCut(rs, fmt, o, x, f, acc);
    } else {
      var rest := fields[1..];
      FieldsRestParts(fields, Minified, 0, "");
      var y := GoesOnWith(fmt, x, t, Minified, 0, FieldsRest(rest, Minified, 0, ""), f.value);
      FieldBack(rs, fmt, o, x, f, Minified, 0);
      FieldsCut(rs, fmt, x + |t| + 1, y, rest, Put(acc, AsString(key), Normal(rs, f.value)), all);
      NextField(rs, fmt, o, acc, key, Normal(rs, f.value), x + |t|);
    }
  }

  lemma LastFieldCut(rs: Reals, fmt: string, o: nat, x: nat, f: Field, acc: seq<Field>)
    requires Closes(f.key) && Plain(rs, f.value) && Blank(fmt, o, x)
    requires Here(fmt, x, FieldText(f, Minified, 0)) && x + |FieldText(f, Minified, 0)| == |fmt|
    ensures ParseFields(rs, fmt, o, acc)
            == if f.value.Object? then Parsed(Object(Put(acc, AsString(Str(Unquoted(f.key))), Normal(rs, f.value))), |fmt|)
               else Failed
  {
    hide Plain, Text, ParseNext, ParseField, ParseFields, Normal, Here, Skip, Closes, Unquoted, Put, AsString, FieldText;
    MinifiedGaps(0);
    var x' := ValueInField(fmt, x, f);
    if IsNumber(f.value) {
      FieldNumberAtEnd(rs, fmt, o, x, f);
      FieldsFail(rs, fmt, o, acc);
    } else {
      FieldBack(rs, fmt, o, x, f, Minified, 0);
      BackOntoEnd(fmt, x', f.value, 1);
      FieldAtEnd(rs, fmt, o, acc, Str(Unquoted(f.key)), Normal(rs, f.value));
    }
  }

  lemma ValueInField(fmt: string, x: nat, f: Field) returns (y: nat)
    requires Here(fmt, x, FieldText(f, Minified, 0))
    ensures y == x + |Quoted(f.key)| + 1 && Here(fmt, y, Text(f.value, Minified, 1))
    ensures y + |Text(f.value, Minified, 1)| == x + |FieldText(f, Minified, 0)|
  {
    hide Text, Here;
    var t := Text(f.value, Minified, 1);
    assert "" + t == t;
    HereParts(fmt, x, Quoted(f.key), [':'] + ("" + t));
    HereParts(fmt, x + |Quoted(f.key)|, [':'], "" + t);
    y := x + |Quoted(f.key)| + 1;
  }

  lemma FieldNumberAtEnd(rs: Reals, fmt: string, o: nat, x: nat, f: Field)
    requires Closes(f.key) && IsNumber(f.value) && Plain(rs, f.value) && Blank(fmt, o, x)
    requires Here(fmt, x, FieldText(f, Minified, 0)) && x + |FieldText(f, Minified, 0)| == |fmt|
    ensures o <= |fmt| && UnfitField(fmt, ParseField(rs, fmt, o))
  {
    hide *;
    MinifiedField(f);
    BlankStart(fmt, o, x);
    var t := Text(f.value, Minified, 1);
    KeyBack(rs, fmt, o, x, f.key, [':'] + t);
    var k := x + |Quoted(f.key)|;
    LeadHere(fmt, k, ':', t);
    ColonIsSolid();
    SkipSolid(fmt, k);
    BlankNone(fmt, k + 1);
    NumberAtEnd(rs, fmt, k + 1, k + 1, f.value);
    SkipSolid(fmt, k + 1);
    ValueUnfit(rs, fmt, o, Str(Unquoted(f.key)), k);
  }

  lemma ColonIsSolid()
    ensures !IsSpace(':')
  {
  }

  lemma BlankStart(fmt: string, o: nat, x: nat)
    requires Blank(fmt, o, x)
    ensures o <= |fmt|
  {
  }

  lemma MinifiedField(f: Field)
    ensures FieldText(f, Minified, 0) == Quoted(f.key) + ([':'] + Text(f.value, Minified, 1))
  {
    hide Text;
    var t := Text(f.value, Minified, 1);
    assert "" + t == t;
  }

  lemma ValueUnfit(rs: Reals, fmt: string, o: nat, key: JSON, k: nat)
    requires o <= |fmt| && ParseNext(rs, fmt, o) == Parsed(key, k) && k + 1 < |fmt| && Skip(fmt, k) == k && fmt[k] == ':'
    requires Skip(fmt, k + 1) == k + 1 && Unfit(fmt, ParseNext(rs, fmt, k + 1))
    ensures UnfitField(fmt, ParseField(rs, fmt, o))
  {
    hide ParseNext, Skip;
  }

  lemma SkipSolid(fmt: string, o: nat)
    requires o < |fmt| && !IsSpace(fmt[o])
    ensures Skip(fmt, o) == o
  {
  }

  // ----- the outcome

  /** Without its last character, a minified text loads as before exactly when the bracket before it can stand in; an empty
      array or object is never left, and everything else is refused. */
  lemma CutLoads(rs: Reals, v: JSON)
    requires Plain(rs, v)
    ensures Text(v, Minified, 0) != []
    ensures Load(rs, Cut(Text(v, Minified, 0)))
            == if EndsTwice(v) then Value(Normal(rs, v)) else if IsEmpty(v) then Never else Throws
  {
    hide Plain, Normal, ParseNext, Text, Load;
    match v
    case Array(items) =>
      if items == [] {
        CutScalars(rs, v);
      } else {
        CutArrayLoads(rs, items);
      }
    case Object(fields) =>
      if fields == [] {
        CutScalars(rs, v);
      } else {
        CutObjectLoads(rs, fields);
      }
    case Str(u) => CutString(rs, u);
    case _ =>
      if IsNumber(v) {
        CutNumber(rs, v);
      } else {
        CutScalars(rs, v);
      }
  }

  /** No number is ever a whole text. */
  lemma CutNumber(rs: Reals, v: JSON)
    requires IsNumber(v) && Plain(rs, v)
    ensures Text(v, Minified, 0) != [] && Load(rs, Cut(Text(v, Minified, 0))) == Throws
  {
    hide ParseNumber, IntText, ReadsFloat, StringFrom, ParseArray, ParseObject, ParseBoolean, ParseNull;
    PlainStarts(rs, v);
    var t := Text(v, Minified, 0);
    assert IsDigit(t[0]) || t[0] == '-';
    if |t| > 1 {
      SkipSolid(Cut(t), 0);
    }
  }

  lemma CutScalars(rs: Reals, v: JSON)
    requires v.Null? || v.Boolean? || IsEmpty(v)
    ensures Text(v, Minified, 0) != []
    ensures Load(rs, Cut(Text(v, Minified, 0))) == if IsEmpty(v) then Never else Throws
  {
    var t := Text(v, Minified, 0);
    if v.Null? {
      assert Cut(t) == "nul" && Skip("nul", 0) == 0;
    } else if v.Boolean? && v.b {
      assert Cut(t) == "tru" && Skip("tru", 0) == 0;
    } else if v.Boolean? {
      assert Cut(t) == "fals" && Skip("fals", 0) == 0;
      assert "fals"[0..4][0] == 'f';
    } else if v.Array? {
      assert Cut(t) == "[" && Skip("[", 0) == 0;
    } else {
      assert Cut(t) == "{" && Skip("{", 0) == 0;
    }
  }

  lemma CutString(rs: Reals, u: string)
    ensures Text(Str(u), Minified, 0) != [] && Load(rs, Cut(Text(Str(u), Minified, 0))) == Throws
  {
    hide Escape, StringFrom, ParseNumber, ParseArray, ParseObject;
    var fmt := ['\"'] + Escape(u);
    assert Text(Str(u), Minified, 0) == fmt + ['\"'];
    assert Cut(Text(Str(u), Minified, 0)) == fmt;
    assert fmt[1..1 + |Escape(u)|] == Escape(u);
    OpenString(fmt, 1, u, "");
    SkipSolid(fmt, 0);
  }

  lemma CutArrayLoads(rs: Reals, items: seq<JSON>)
    requires items != [] && Plain(rs, Array(items))
    ensures Text(Array(items), Minified, 0) != []
    ensures Load(rs, Cut(Text(Array(items), Minified, 0)))
            == if items[|items| - 1].Array? then Value(Normal(rs, Array(items))) else Throws
  {
    hide Plain, ItemsRest, ParseItems, Text, NormalItems, Skip, Here, Cut, ParseArray, ParseObject;
    CutArray(items);
    var rest := ItemsRest(items, Minified, 0, "");
    var fmt := ['['] + rest;
    WholeHere(fmt);
    LeadHere(fmt, 0, '[', rest);
    PlainParts(rs, items);
    StartOfItems(fmt, 1, items, Minified, 0, "");
    SkipSolid(fmt, 0);
    SkipSolid(fmt, 1);
    BlankNone(fmt, 1);
    assert NormalItems(rs, items) == [] + NormalItems(rs, items);
    ItemsCut(rs, fmt, 1, 1, items, [], NormalItems(rs, items));
    ArrayReads(rs, fmt, 0, 1);
  }

  lemma WholeHere(fmt: string)
    ensures Here(fmt, 0, fmt)
  {
    assert fmt[0..0 + |fmt|] == fmt;
  }

  lemma CutObjectLoads(rs: Reals, fields: seq<Field>)
    requires fields != [] && Plain(rs, Object(fields))
    ensures Text(Object(fields), Minified, 0) != []
    ensures Load(rs, Cut(Text(Object(fields), Minified, 0)))
            == if fields[|fields| - 1].value.Object? then Value(Normal(rs, Object(fields))) else Throws
  {
    assert PlainFields(rs, fields);
    hide Plain, FieldsRest, ParseFields, Text, Rebuilt, Skip, Here, Cut, ParseArray, ParseObject, PlainFields;
    CutObject(fields);
    var rest := FieldsRest(fields, Minified, 0, "");
    var fmt := ['{'] + rest;
    WholeHere(fmt);
    LeadHere(fmt, 0, '{', rest);
    StartOfFields(fmt, 1, fields, Minified, 0, "");
    QuoteIsSolid();
    SkipSolid(fmt, 0);
    SkipSolid(fmt, 1);
    BlankNone(fmt, 1);
    FieldsCut(rs, fmt, 1, 1, fields, [], Rebuilt(rs, [], fields));
    ObjectReads(rs, fmt, 0, 1);
  }

  /** So a printed value loads as itself without its last character exactly when it does so with it and its last bracket closes
      two. */
  lemma BracketCountedTwice(rs: Reals, v: JSON)
    requires Plain(rs, v)
    ensures Text(v, Minified, 0) != []
    ensures Load(rs, Cut(Text(v, Minified, 0))) == Value(v) <==> EndsTwice(v) && AllEscaped(v) && AllReread(rs, v)
  {
    hide *;
    CutLoads(rs, v);
    NormalIff(rs, v);
  }

  // ----- cut behind an opening bracket

  /** Items in front of another one. */
  ghost function Leading(items: seq<JSON>): string {
    if items == [] then "" else Text(items[0], Minified, 1) + ([','] + Leading(items[1..]))
  }

  ghost function LeadingFields(fields: seq<Field>): string {
    if fields == [] then "" else FieldText(fields[0], Minified, 0) + ([','] + LeadingFields(fields[1..]))
  }

  lemma {:induction false} LeadingText(items: seq<JSON>, last: JSON, close: string)
    ensures ItemsRest(items + [last], Minified, 0, close) == Leading(items) + (Text(last, Minified, 1) + close)
    decreases |items|
  {
    hide Text;
    var all := items + [last];
    if items != [] {
      assert all[0] == items[0] && all[1..] == items[1..] + [last];
      LeadingText(items[1..], last, close);
      var t, r, e := Text(items[0], Minified, 1), Leading(items[1..]), Text(last, Minified, 1) + close;
      assert t + ([','] + ("" + ("" + (r + e)))) == (t + ([','] + r)) + e;
    }
  }

  lemma {:induction false} LeadingFieldsText(fields: seq<Field>, last: Field, close: string)
    ensures FieldsRest(fields + [last], Minified, 0, close) == LeadingFields(fields) + (FieldText(last, Minified, 0) + close)
    decreases |fields|
  {
    hide FieldText;
    var all := fields + [last];
    if fields != [] {
      assert all[0] == fields[0] && all[1..] == fields[1..] + [last];
      LeadingFieldsText(fields[1..], last, close);
      var t, r, e := FieldText(fields[0], Minified, 0), LeadingFields(fields[1..]), FieldText(last, Minified, 0) + close;
      assert t + ([','] + ("" + ("" + (r + e)))) == (t + ([','] + r)) + e;
    }
  }

  lemma TokenText(rs: Reals, depth: nat)
    ensures Text(Array([Str("a")]), Minified, depth) == TOKEN && Plain(rs, Array([Str("a")]))
  {
    assert Escape("a") == "a" by {
      assert "a"[1..] == "";
    }
    assert Text(Str("a"), Minified, depth + 1) == "\"a\"";
  }

  /** Behind any items of an array an opening bracket at the end keeps the parser forever. */
  lemma UnfinishedArray(rs: Reals, items: seq<JSON>, open: char)
    requires (forall i :: 0 <= i < |items| ==> Plain(rs, items[i])) && IsOpen(open)
    ensures Load(rs, (['['] + Leading(items)) + [open]) == Never
  {
    hide Plain, Text, Load, Leading, Full, ArrayMayFollow;
    var last, w := Array([Str("a")]), ['['] + Leading(items);
    var all := items + [last];
    TokenText(rs, 1);
    LeadingText(items, last, "" + [']']);
    ArrayText(all, w);
    LoadsArray(rs, all, w);
    ClosingSuffices(rs, w, "]");
    OpenNever(rs, w, open);
  }

  lemma ArrayText(all: seq<JSON>, w: string)
    requires all != [] && ['['] + ItemsRest(all, Minified, 0, "" + [']']) == w + (TOKEN + ("" + [']']))
    ensures Text(Array(all), Minified, 0) == Full(w, "]", "")
  {
    hide ItemsRest;
    ArrayStart(all, Minified, 0);
    var r := ItemsRest(all, Minified, 0, "" + [']']);
    assert "" + ("" + r) == r;
    assert "" + [']'] == "]" + "";
  }

  lemma LoadsArray(rs: Reals, all: seq<JSON>, w: string)
    requires (forall i :: 0 <= i < |all| ==> Plain(rs, all[i])) && Text(Array(all), Minified, 0) == Full(w, "]", "")
    ensures Load(rs, Full(w, "]", "")).Value?
  {
    hide Text, Load, Normal, Full;
    MinifiedGaps(0);
    LoadNormalises(rs, Array(all), Minified, 0);
  }

  /** The same behind any fields of an object and another key. */
  lemma UnfinishedObject(rs: Reals, fields: seq<Field>, key: string, open: char)
    requires PlainFields(rs, fields) && Closes(key) && IsOpen(open)
    ensures Load(rs, (['{'] + (LeadingFields(fields) + (Quoted(key) + [':']))) + [open]) == Never
  {
    hide Plain, Text, Load, LeadingFields, Full, ArrayMayFollow, Closes, FieldText;
    var last, w := Field(key, Array([Str("a")])), ['{'] + (LeadingFields(fields) + (Quoted(key) + [':']));
    var all := fields + [last];
    TokenText(rs, 1);
    LeadingFieldsText(fields, last, "" + ['}']);
    ObjectText(fields, last, w);
    LoadsObject(rs, all, w);
    ClosingSuffices(rs, w, "}");
    OpenNever(rs, w, open);
  }

  lemma ObjectText(fields: seq<Field>, last: Field, w: string)
    requires w == ['{'] + (LeadingFields(fields) + (Quoted(last.key) + [':'])) && Text(last.value, Minified, 1) == TOKEN
    requires FieldsRest(fields + [last], Minified, 0, "" + ['}'])
             == LeadingFields(fields) + (FieldText(last, Minified, 0) + ("" + ['}']))
    ensures Text(Object(fields + [last]), Minified, 0) == Full(w, "}", "")
  {
    hide FieldsRest, LeadingFields, Quoted;
    ObjectStart(fields + [last], Minified, 0);
    var l, q := LeadingFields(fields), Quoted(last.key);
    assert FieldText(last, Minified, 0) == q + ([':'] + ("" + TOKEN));
    assert ['{'] + ("" + ("" + (l + ((q + ([':'] + ("" + TOKEN))) + ("" + ['}']))))) == w + (TOKEN + ("}" + ""));
  }

  lemma LoadsObject(rs: Reals, all: seq<Field>, w: string)
    requires PlainFields(rs, all) && Text(Object(all), Minified, 0) == Full(w, "}", "")
    ensures Load(rs, Full(w, "}", "")).Value?
  {
    hide Plain, PlainFields, Rebuilt, Full, ParseObject, ParseArray, Here, Skip;
    var fmt := Full(w, "}", "");
    MinifiedGaps(0);
    WholeHere(fmt);
    ObjectBack(rs, fmt, 0, all, Minified, 0);
    ObjectFirst(all);
    SkipSolid(fmt, 0);
  }

  lemma ObjectFirst(all: seq<Field>)
    ensures Text(Object(all), Minified, 0) != [] && Text(Object(all), Minified, 0)[0] == '{'
  {
  }
}
