/** Exactly which texts are loaded, and as what: those of the grammar, where the last bracket may stand for any number of closing
    brackets of its kind. */
module JsonLanguage {
  import opened JsonText
  import opened JsonParse
  import opened JsonRoundTrip
  import opened JsonSpelling
  import opened JsonGrammar
  import opened JsonAccepts

  ghost function Copies(c: char, k: nat): string {
    seq(k, _ => c)
  }

  ghost function End(fmt: string): char
    requires fmt != ""
  {
    fmt[|fmt| - 1]
  }

  predicate IsClose(c: char) {
    c == ']' || c == '}'
  }

  /** From `p` on the text spells `t` up to `e`, but for `k` closing brackets missing at the end, like the last one. */
  ghost predicate Stands(fmt: string, p: nat, e: nat, t: string, k: nat) {
    && p <= e <= |fmt| && fmt != "" && fmt[p..e] + Copies(End(fmt), k) == t
    && (k > 0 ==> e == |fmt| && IsClose(End(fmt)))
  }

  // ----- from the parser to the grammar

  lemma SkipIsBlank(fmt: string, o: nat)
    requires o <= |fmt| && 0 <= Skip(fmt, o) && !IsSpace(fmt[Skip(fmt, o)])
    ensures o < |fmt| ==> Blank(fmt, o, Skip(fmt, o))
    ensures o == |fmt| ==> Skip(fmt, o) == |fmt| - 1
  {
    if o < |fmt| {
      SpacesBlank(fmt, o);
    }
  }

  lemma {:induction false} SpacesBlank(fmt: string, o: nat)
    requires o <= |fmt|
    ensures Blank(fmt, o, SpacesEnd(fmt, o))
    decreases |fmt| - o
  {
    if o < |fmt| && IsSpace(fmt[o]) {
      SpacesBlank(fmt, o + 1);
    }
  }

  lemma BlankSlice(fmt: string, o: nat, p: nat)
    requires Blank(fmt, o, p)
    ensures o <= p <= |fmt| && AllSpace(fmt[o..p])
  {
  }

  /** What a value starts with. */
  lemma Starts(rs: Reals, fmt: string, o: nat)
    requires o <= |fmt| && ParseNext(rs, fmt, o).Parsed?
    ensures var p := Skip(fmt, o);
            && 0 <= p < |fmt| && !IsSpace(fmt[p]) && fmt[p] != ',' && fmt[p] != ':' && fmt[p] != ']' && fmt[p] != '}'
            && (o < |fmt| ==> Blank(fmt, o, p)) && (o == |fmt| ==> p == |fmt| - 1)
  {
    hide Skip, StringFrom, ParseNumber, ParseBoolean, ParseNull, ParseArray, ParseObject, Blank;
    SkipIsBlank(fmt, o);
  }

  /** A value that reaches to the end of the text ends with a quote, a bracket or a letter. */
  lemma {:induction false} SpellEnds(rs: Reals, d: Doc)
    requires Fits(rs, d)
    ensures |Spell(d)| > 0
    ensures var c := Spell(d)[|Spell(d)| - 1];
            && c != ',' && c != ':' && !IsSpace(c) && (d.Number? ==> !IsClose(c))
            && (d.Word? || d.Quote? ==> !IsClose(c)) && (d.List? ==> c == ']') && (d.Record? ==> c == '}')
  {
    hide ReadsNumber, SpellPieces, SpellItems, SpellFields, ItemsFit, FieldsFit;
    match d
    case Word(w) =>
    case Number(t) => NumberEnds(rs, t);
    case Quote(ps) =>
      var t := SpellPieces(ps);
      assert Spell(d)[|Spell(d)| - 1] == '\"';
    case List(pre, items) => ItemsEnd(items);
    case Record(pre, fields) => FieldsEnd(fields);
  }

  lemma {:induction false} ItemsEnd(items: Items)
    ensures var t := SpellItems(items); |t| > 0 && t[|t| - 1] == ']'
  {
    hide Spell;
    if items.MoreItems? {
      ItemsEnd(items.rest);
    }
  }

  lemma {:induction false} FieldsEnd(fields: Fields)
    ensures var t := SpellFields(fields); |t| > 0 && t[|t| - 1] == '}'
  {
    hide Spell;
    if fields.MoreFields? {
      FieldsEnd(fields.rest);
    }
  }

  lemma NumberEnds(rs: Reals, t: string)
    requires ReadsNumber(rs, t)
    ensures t != ""
    ensures var c := t[|t| - 1]; !IsClose(c) && c != ',' && c != ':' && !IsSpace(c)
  {
    var g := t + [','];
    if NumberRead(rs, t).Floating? {
      var e, start := FloatForm(rs, t);
      assert g[|t| - 1] == t[|t| - 1];
    } else {
      IntegralEnd(rs, t);
      assert g[|t| - 1] == t[|t| - 1];
    }
  }

  lemma StandsEnd(fmt: string, p: nat, t: string, k: nat)
    requires Stands(fmt, p, |fmt|, t, k) && p < |fmt|
    ensures |t| > 0 && t[|t| - 1] == End(fmt)
  {
  }

  /** Whatever is read as a value is spelled by the grammar, but for missing brackets. */
  lemma {:induction false} Sound(rs: Reals, fmt: string, o: nat) returns (d: Doc, k: nat)
    requires o <= |fmt| && ParseNext(rs, fmt, o).Parsed?
    requires var e := ParseNext(rs, fmt, o).offset; e < |fmt| ==> !IsDigit(fmt[e])
    ensures var p := Skip(fmt, o); var r := ParseNext(rs, fmt, o);
            && Fits(rs, d) && 0 <= p < |fmt| && Stands(fmt, p, r.offset, Spell(d), k) && Meaning(rs, d) == r.value
            && EndsWell(fmt, r.offset, d)
    decreases |fmt| - Skip(fmt, o), 3
  {
    hide StringFrom, ParseNumber, ParseBoolean, ParseNull, ParseArray, ParseObject, Blank, Skip, SpellItems, SpellFields, ItemsMean,
      Assignments, Ordered, SpellPieces, PiecesRead, ReadsNumber, NumberRead, Stands;
    Starts(rs, fmt, o);
    var p, r := Skip(fmt, o), ParseNext(rs, fmt, o);
    k := 0;
    if fmt[p] == '{' {
      var pre, fields;
      pre, fields, k := ObjectSound(rs, fmt, p);
      d := Record(pre, fields);
    } else if fmt[p] == '[' {
      var pre, items;
      pre, items, k := ArraySound(rs, fmt, p);
      d := List(pre, items);
    } else if fmt[p] == '\"' {
      d := QuoteSound(fmt, p);
    } else if fmt[p] == 't' || fmt[p] == 'f' || fmt[p] == 'n' {
      d := WordSound(rs, fmt, p);
    } else {
      NumberSpelled(rs, fmt, p);
      d := Number(fmt[p..r.offset]);
      WholeStands(fmt, p, r.offset);
    }
  }

  lemma WholeStands(fmt: string, p: nat, e: nat)
    requires p <= e <= |fmt| && fmt != ""
    ensures Stands(fmt, p, e, fmt[p..e], 0)
  {
    assert fmt[p..e] + Copies(End(fmt), 0) == fmt[p..e];
  }

  lemma QuoteSound(fmt: string, p: nat) returns (d: Doc)
    requires p < |fmt| && fmt[p] == '\"' && StringFrom(fmt, p + 1, "").Parsed?
    ensures var r := StringFrom(fmt, p + 1, "");
            && d.Quote? && PiecesOk(d.ps) && Stands(fmt, p, r.offset, Spell(d), 0) && r.value == Str(PiecesRead(d.ps))
  {
    hide StringFrom, SpellPieces, PiecesRead, PiecesOk;
    var ps := PiecesOf(fmt, p + 1, "");
    d := Quote(ps);
    assert "" + PiecesRead(ps) == PiecesRead(ps);
    var e := p + 1 + |SpellPieces(ps)| + 1;
    assert fmt[p..e] == ['\"'] + (SpellPieces(ps) + ['\"']);
    WholeStands(fmt, p, e);
  }

  lemma WordSound(rs: Reals, fmt: string, p: nat) returns (d: Doc)
    requires p < |fmt|
    requires (if fmt[p] == 'n' then ParseNull(fmt, p) else ParseBoolean(fmt, p)).Parsed?
    ensures var r := if fmt[p] == 'n' then ParseNull(fmt, p) else ParseBoolean(fmt, p);
            && d.Word? && Fits(rs, d) && Stands(fmt, p, r.offset, Spell(d), 0) && Meaning(rs, d) == r.value
  {
    var r := if fmt[p] == 'n' then ParseNull(fmt, p) else ParseBoolean(fmt, p);
    d := Word(fmt[p..r.offset]);
    WholeStands(fmt, p, r.offset);
  }

  // ----- arrays

  lemma StandsList(fmt: string, p: nat, x: nat, e: nat, t: string, k: nat, c: char)
    requires p + 1 <= x && p < |fmt| && fmt[p] == c && Stands(fmt, x, e, t, k)
    ensures Stands(fmt, p, e, [c] + (fmt[p + 1..x] + t), k)
  {
    assert fmt[p..e] == [c] + (fmt[p + 1..x] + fmt[x..e]);
  }

  lemma {:induction false} ArraySound(rs: Reals, fmt: string, p: nat) returns (pre: string, items: Items, k: nat)
    requires p < |fmt| && fmt[p] == '[' && ParseArray(rs, fmt, p).Parsed?
    ensures var r := ParseArray(rs, fmt, p);
            && AllSpace(pre) && ItemsFit(rs, items) && r.value == Array(ItemsMean(rs, items))
            && Stands(fmt, p, r.offset, ['['] + (pre + SpellItems(items)), k)
    decreases |fmt| - p, 2
  {
    hide ParseItems, ParseNext, Skip, Blank, Stands, ItemsMean, SpellItems, AllSpace, IsSpace;
    var q := Skip(fmt, p + 1);
    k := 0;
    if fmt[q] == ']' {
      CommaIsSolid();
      SkipIsBlank(fmt, p + 1);
      items := NoItems;
      NoItemsShape(rs);
      OneStands(fmt, q);
    } else {
      SkipAgain(fmt, p + 1);
      ItemsNonSpace(rs, fmt, q, []);
      SkipIsBlank(fmt, p + 1);
      items, k := ItemsSound(rs, fmt, q, []);
      assert [] + ItemsMean(rs, items) == ItemsMean(rs, items);
    }
    BlankSlice(fmt, p + 1, q);
    pre := fmt[p + 1..q];
    StandsList(fmt, p, q, ParseArray(rs, fmt, p).offset, SpellItems(items), k, '[');
  }

  lemma NoItemsShape(rs: Reals)
    ensures ItemsFit(rs, NoItems) && ItemsMean(rs, NoItems) == [] && SpellItems(NoItems) == [']']
    ensures FieldsFit(rs, NoFields) && Assignments(rs, NoFields) == [] && SpellFields(NoFields) == ['}']
    ensures Ordered([]) == []
  {
  }

  lemma OneStands(fmt: string, q: nat)
    requires q < |fmt|
    ensures Stands(fmt, q, q + 1, [fmt[q]], 0)
  {
    WholeStands(fmt, q, q + 1);
    assert fmt[q..q + 1] == [fmt[q]];
  }

  lemma SkipAgain(fmt: string, o: nat)
    requires o <= |fmt| && 0 <= Skip(fmt, o)
    ensures Skip(fmt, Skip(fmt, o)) == Skip(fmt, o)
  {
  }

  lemma EndIs(fmt: string)
    requires fmt != ""
    ensures End(fmt) == fmt[|fmt| - 1]
  {
  }

  lemma ItemsNonSpace(rs: Reals, fmt: string, q: nat, acc: seq<JSON>)
    requires q < |fmt| && Skip(fmt, q) <= q && ParseItems(rs, fmt, q, acc).Parsed?
    ensures !IsSpace(fmt[q])
  {
    hide ParseNext, Skip;
    Starts(rs, fmt, q);
  }

  lemma StandsThen(fmt: string, p: nat, m: nat, e: nat, a: string, b: string, k: nat)
    requires Stands(fmt, p, m, a, 0) && Stands(fmt, m, e, b, k)
    ensures Stands(fmt, p, e, a + b, k)
  {
    assert fmt[p..e] == fmt[p..m] + fmt[m..e];
    assert a == fmt[p..m];
    assert a + b == fmt[p..m] + (fmt[m..e] + Copies(End(fmt), k));
  }

  /** The last bracket counts once more. */
  lemma CountsAgain(fmt: string, p: nat, t: string, k: nat)
    requires Stands(fmt, p, |fmt|, t, k) && IsClose(End(fmt))
    ensures Stands(fmt, p, |fmt|, t + ("" + [End(fmt)]), k + 1)
  {
    var c := End(fmt);
    assert Copies(c, k + 1) == Copies(c, k) + [c];
    assert t + ("" + [c]) == fmt[p..|fmt|] + (Copies(c, k) + [c]);
  }

  /** What stands behind the first item. */
  lemma ItemsCase(rs: Reals, fmt: string, o: nat, acc: seq<JSON>) returns (w: nat)
    requires o <= |fmt| && ParseItems(rs, fmt, o, acc).Parsed?
    ensures var r := ParseNext(rs, fmt, o);
            && r.Parsed? && r.offset <= |fmt| && w == Skip(fmt, r.offset) < |fmt|
            && (r.offset < |fmt| ==> Blank(fmt, r.offset, w) && !IsDigit(fmt[r.offset]))
            && (r.offset == |fmt| ==> w == |fmt| - 1 && fmt[w] == ']')
            && (fmt[w] == ']' || (fmt[w] == ',' && r.offset < |fmt| && w + 1 < |fmt|))
            && ParseItems(rs, fmt, o, acc)
               == (if fmt[w] == ',' then ParseItems(rs, fmt, w + 1, acc + [r.value]) else Parsed(Array(acc + [r.value]), w + 1))
            && (fmt[w] == ',' ==> Skip(fmt, o) < Skip(fmt, w + 1) && ParseNext(rs, fmt, w + 1).Parsed?)
  {
    hide ParseNext, Skip;
    var r := ParseNext(rs, fmt, o);
    CommaAdvances(rs, fmt, o, r.value, r.offset);
    w := Skip(fmt, r.offset);
    CommaIsSolid();
    SkipIsBlank(fmt, r.offset);
    if fmt[w] == ',' {
      Starts(rs, fmt, w + 1);
    }
    if r.offset < |fmt| {
      BlankNoDigit(fmt, r.offset, w);
    }
  }

  lemma BlankNoDigit(fmt: string, o: nat, w: nat)
    requires Blank(fmt, o, w) && w < |fmt| && !IsDigit(fmt[w])
    ensures !IsDigit(fmt[o])
  {
  }

  lemma {:induction false} ItemsSound(rs: Reals, fmt: string, o: nat, acc: seq<JSON>) returns (items: Items, k: nat)
    requires o <= |fmt| && ParseItems(rs, fmt, o, acc).Parsed?
    ensures var p := Skip(fmt, o); var r := ParseItems(rs, fmt, o, acc);
            && 0 <= p < |fmt| && ItemsFit(rs, items) && items != NoItems && Stands(fmt, p, r.offset, SpellItems(items), k)
            && r.value == Array(acc + ItemsMean(rs, items))
    decreases |fmt| - Skip(fmt, o), 4
  {
    hide *;
    var w := ItemsCase(rs, fmt, o, acc);
    var r := ParseNext(rs, fmt, o);
    var e, v := r.offset, r.value;
    Starts(rs, fmt, o);
    var p := Skip(fmt, o);
    var d, k1 := Sound(rs, fmt, o);
    if e == |fmt| {
      items, k := LastItem(d, ""), k1 + 1;
      CloseIsClose();
      EndIs(fmt);
      CountsAgain(fmt, p, Spell(d), k1);
      LastShape(rs, d, "");
    } else {
      StandsWhole(fmt, p, e, Spell(d), k1);
      BlankSlice(fmt, e, w);
      var g := fmt[e..w];
      OneStands(fmt, w);
      WholeStands(fmt, e, w);
      if fmt[w] == ']' {
        items, k := LastItem(d, g), 0;
        StandsThen(fmt, e, w, w + 1, g, [']'], 0);
        StandsThen(fmt, p, e, w + 1, Spell(d), g + [']'], 0);
        LastShape(rs, d, g);
      } else {
        var rest;
        rest, k := ItemsSound(rs, fmt, w + 1, acc + [v]);
        Starts(rs, fmt, w + 1);
        var x, z := Skip(fmt, w + 1), ParseItems(rs, fmt, o, acc).offset;
        BlankSlice(fmt, w + 1, x);
        var h := fmt[w + 1..x];
        WholeStands(fmt, w + 1, x);
        StandsThen(fmt, w + 1, x, z, h, SpellItems(rest), k);
        StandsThen(fmt, w, w + 1, z, [','], h + SpellItems(rest), k);
        StandsThen(fmt, e, w, z, g, [','] + (h + SpellItems(rest)), k);
        StandsThen(fmt, p, e, z, Spell(d), g + ([','] + (h + SpellItems(rest))), k);
        items := MoreItems(d, g, h, rest);
        MoreShape(rs, d, g, h, rest, acc);
      }
    }
  }

  lemma CloseIsClose()
    ensures IsClose(']') && IsClose('}')
  {
  }

  lemma StandsWhole(fmt: string, p: nat, e: nat, t: string, k: nat)
    requires Stands(fmt, p, e, t, k) && e < |fmt|
    ensures k == 0 && Stands(fmt, p, e, t, 0)
  {
  }

  lemma LastShape(rs: Reals, d: Doc, g: string)
    requires Fits(rs, d) && (g == "" || AllSpace(g))
    ensures var items := LastItem(d, g);
            ItemsFit(rs, items) && SpellItems(items) == Spell(d) + (g + [']']) && ItemsMean(rs, items) == [Meaning(rs, d)]
  {
    hide Spell, Meaning, Fits;
  }

  lemma MoreShape(rs: Reals, d: Doc, g: string, h: string, rest: Items, acc: seq<JSON>)
    requires Fits(rs, d) && AllSpace(g) && AllSpace(h) && ItemsFit(rs, rest) && rest != NoItems
    ensures var items := MoreItems(d, g, h, rest);
            && ItemsFit(rs, items) && SpellItems(items) == Spell(d) + (g + ([','] + (h + SpellItems(rest))))
            && acc + [Meaning(rs, d)] + ItemsMean(rs, rest) == acc + ItemsMean(rs, items)
  {
    hide Spell, Meaning, Fits;
  }

  // ----- objects

  lemma {:induction false} ObjectSound(rs: Reals, fmt: string, p: nat) returns (pre: string, fields: Fields, k: nat)
    requires p < |fmt| && fmt[p] == '{' && ParseObject(rs, fmt, p).Parsed?
    ensures var r := ParseObject(rs, fmt, p);
            && AllSpace(pre) && FieldsFit(rs, fields) && r.value == Object(Ordered(Assignments(rs, fields)))
            && Stands(fmt, p, r.offset, ['{'] + (pre + SpellFields(fields)), k)
    decreases |fmt| - p, 2
  {
    hide ParseFields, ParseField, ParseNext, Skip, Blank, Stands, Assignments, SpellFields, AllSpace, IsSpace, Ordered;
    var q := Skip(fmt, p + 1);
    k := 0;
    if fmt[q] == '}' {
      CommaIsSolid();
      SkipIsBlank(fmt, p + 1);
      fields := NoFields;
      NoItemsShape(rs);
      OneStands(fmt, q);
    } else {
      SkipAgain(fmt, p + 1);
      FieldsNonSpace(rs, fmt, q, []);
      SkipIsBlank(fmt, p + 1);
      fields, k := FieldsSound(rs, fmt, q, []);
      OrderedIsPut(Assignments(rs, fields));
    }
    BlankSlice(fmt, p + 1, q);
    pre := fmt[p + 1..q];
    StandsList(fmt, p, q, ParseObject(rs, fmt, p).offset, SpellFields(fields), k, '{');
  }

  lemma FieldsNonSpace(rs: Reals, fmt: string, q: nat, acc: seq<Field>)
    requires q < |fmt| && Skip(fmt, q) <= q && ParseFields(rs, fmt, q, acc).Parsed?
    ensures !IsSpace(fmt[q])
  {
    hide ParseNext, Skip, Put, AsString;
    Starts(rs, fmt, q);
  }

  /** What stands behind a key, and behind the colon. */
  lemma FieldCase(rs: Reals, fmt: string, o: nat) returns (w: nat, x: nat)
    requires o <= |fmt| && ParseField(rs, fmt, o).Read?
    ensures var r := ParseNext(rs, fmt, o);
            && r.Parsed? && r.offset <= |fmt| && w == Skip(fmt, r.offset) && w + 1 < |fmt| && fmt[w] == ':' && !IsSpace(fmt[w])
            && (r.offset < |fmt| ==> Blank(fmt, r.offset, w) && !IsDigit(fmt[r.offset]))
            && (r.offset == |fmt| ==> w == |fmt| - 1)
            && x == Skip(fmt, w + 1) < |fmt| && Skip(fmt, x) == x && Blank(fmt, w + 1, x) && Skip(fmt, o) < x
            && var v := ParseNext(rs, fmt, x);
               v.Parsed? && ParseField(rs, fmt, o) == Read(r.value, v.value, v.offset)
  {
    hide ParseNext, Skip;
    var r := ParseNext(rs, fmt, o);
    CommaAdvances(rs, fmt, o, r.value, r.offset);
    w := Skip(fmt, r.offset);
    CommaIsSolid();
    SkipIsBlank(fmt, r.offset);
    x := Skip(fmt, w + 1);
    SkipAgain(fmt, w + 1);
    Starts(rs, fmt, x);
    SkipIsBlank(fmt, w + 1);
    if r.offset < |fmt| {
      BlankNoDigit(fmt, r.offset, w);
    }
  }

  /** A key, a colon and a value, but for missing brackets at the end. */
  lemma {:induction false} FieldSound(rs: Reals, fmt: string, o: nat) returns (key: Doc, g: string, h: string, d: Doc, k: nat)
    requires o <= |fmt| && ParseField(rs, fmt, o).Read?
    requires var e := ParseField(rs, fmt, o).offset; e < |fmt| ==> !IsDigit(fmt[e])
    ensures var p := Skip(fmt, o); var r := ParseField(rs, fmt, o);
            && 0 <= p < |fmt| && Fits(rs, key) && AllSpace(g) && (key.Number? ==> g != "") && AllSpace(h) && Fits(rs, d)
            && Stands(fmt, p, r.offset, Spell(key) + (g + ([':'] + (h + Spell(d)))), k)
            && r.key == Meaning(rs, key) && r.value == Meaning(rs, d)
    decreases |fmt| - Skip(fmt, o), 4
  {
    hide *;
    var w, x := FieldCase(rs, fmt, o);
    var e, z := ParseNext(rs, fmt, o).offset, ParseField(rs, fmt, o).offset;
    Starts(rs, fmt, o);
    var p := Skip(fmt, o);
    var k1;
    key, k1 := Sound(rs, fmt, o);
    KeyInside(rs, fmt, p, e, w, key, k1);
    d, k := Sound(rs, fmt, x);
    BlankSlice(fmt, e, w);
    BlankSlice(fmt, w + 1, x);
    g, h := fmt[e..w], fmt[w + 1..x];
    NumberKey(fmt, e, w, key);
    WholeStands(fmt, e, w);
    OneStands(fmt, w);
    WholeStands(fmt, w + 1, x);
    StandsThen(fmt, w + 1, x, z, h, Spell(d), k);
    StandsThen(fmt, w, w + 1, z, [':'], h + Spell(d), k);
    StandsThen(fmt, e, w, z, g, [':'] + (h + Spell(d)), k);
    StandsThen(fmt, p, e, z, Spell(key), g + ([':'] + (h + Spell(d))), k);
  }

  /** No key reaches to the end of the text: it would have to end with the colon. */
  lemma KeyInside(rs: Reals, fmt: string, p: nat, e: nat, w: nat, key: Doc, k: nat)
    requires Fits(rs, key) && p < |fmt| && Stands(fmt, p, e, Spell(key), k) && w < |fmt| && fmt[w] == ':'
    requires e == |fmt| ==> w == |fmt| - 1
    ensures e < |fmt| && k == 0 && Stands(fmt, p, e, Spell(key), 0)
  {
    hide Fits, Spell;
    if e == |fmt| {
      StandsEnd(fmt, p, Spell(key), k);
      SpellEnds(rs, key);
    }
  }

  lemma NumberKey(fmt: string, e: nat, w: nat, key: Doc)
    requires EndsWell(fmt, e, key) && e <= w < |fmt| && fmt[w] == ':'
    ensures key.Number? ==> fmt[e..w] != ""
  {
    if key.Number? {
      assert e != w;
    }
  }

  lemma FieldsCase(rs: Reals, fmt: string, o: nat, acc: seq<Field>) returns (w: nat)
    requires o <= |fmt| && ParseFields(rs, fmt, o, acc).Parsed?
    ensures var r := ParseField(rs, fmt, o);
            && r.Read? && r.offset <= |fmt| && w == Skip(fmt, r.offset) < |fmt|
            && (r.offset < |fmt| ==> Blank(fmt, r.offset, w) && !IsDigit(fmt[r.offset]))
            && (r.offset == |fmt| ==> w == |fmt| - 1 && fmt[w] == '}')
            && (fmt[w] == '}' || (fmt[w] == ',' && r.offset < |fmt| && w + 1 < |fmt|))
            && var acc' := Put(acc, AsString(r.key), r.value);
               && ParseFields(rs, fmt, o, acc)
                  == (if fmt[w] == ',' then ParseFields(rs, fmt, w + 1, acc') else Parsed(Object(acc'), w + 1))
               && (fmt[w] == ',' ==> Skip(fmt, o) < Skip(fmt, w + 1) && ParseNext(rs, fmt, w + 1).Parsed?)
  {
    hide ParseField, Skip, Put, AsString, IsSpace, IsDigit, Blank;
    var r := ParseField(rs, fmt, o);
    FieldAdvances(rs, fmt, o, r);
    w := Skip(fmt, r.offset);
    CommaIsSolid();
    SkipIsBlank(fmt, r.offset);
    if fmt[w] == ',' {
      KeyFirst(rs, fmt, w + 1, Put(acc, AsString(r.key), r.value));
      Starts(rs, fmt, w + 1);
    }
    if r.offset < |fmt| {
      BlankNoDigit(fmt, r.offset, w);
    }
  }

  lemma KeyFirst(rs: Reals, fmt: string, o: nat, acc: seq<Field>)
    requires o <= |fmt| && ParseFields(rs, fmt, o, acc).Parsed?
    ensures ParseNext(rs, fmt, o).Parsed?
  {
    hide ParseNext, Put, AsString, Skip;
  }

  lemma {:induction false} FieldsSound(rs: Reals, fmt: string, o: nat, acc: seq<Field>) returns (fields: Fields, k: nat)
    requires o <= |fmt| && ParseFields(rs, fmt, o, acc).Parsed?
    ensures var p := Skip(fmt, o); var r := ParseFields(rs, fmt, o, acc);
            && 0 <= p < |fmt| && FieldsFit(rs, fields) && fields != NoFields && Stands(fmt, p, r.offset, SpellFields(fields), k)
            && r.value == Object(PutAll(acc, Assignments(rs, fields)))
    decreases |fmt| - Skip(fmt, o), 5
  {
    hide *;
    var w := FieldsCase(rs, fmt, o, acc);
    var r := ParseField(rs, fmt, o);
    var e := r.offset;
    var p := Skip(fmt, o);
    var key, g, h, d, k1 := FieldSound(rs, fmt, o);
    var t := Spell(key) + (g + ([':'] + (h + Spell(d))));
    var f := Field(AsString(r.key), r.value);
    if e == |fmt| {
      fields, k := LastField(key, g, h, d, ""), k1 + 1;
      CloseIsClose();
      EndIs(fmt);
      CountsAgain(fmt, p, t, k1);
      LastFieldShape(rs, key, g, h, d, "");
      PutAllFirst(acc, f, []);
    } else {
      StandsWhole(fmt, p, e, t, k1);
      BlankSlice(fmt, e, w);
      var i := fmt[e..w];
      OneStands(fmt, w);
      WholeStands(fmt, e, w);
      if fmt[w] == '}' {
        fields, k := LastField(key, g, h, d, i), 0;
        StandsThen(fmt, e, w, w + 1, i, ['}'], 0);
        StandsThen(fmt, p, e, w + 1, t, i + ['}'], 0);
        LastFieldShape(rs, key, g, h, d, i);
        PutAllFirst(acc, f, []);
      } else {
        var rest;
        rest, k := FieldsSound(rs, fmt, w + 1, Put(acc, f.key, f.value));
        Starts(rs, fmt, w + 1);
        var x, z := Skip(fmt, w + 1), ParseFields(rs, fmt, o, acc).offset;
        BlankSlice(fmt, w + 1, x);
        var j := fmt[w + 1..x];
        WholeStands(fmt, w + 1, x);
        StandsThen(fmt, w + 1, x, z, j, SpellFields(rest), k);
        StandsThen(fmt, w, w + 1, z, [','], j + SpellFields(rest), k);
        StandsThen(fmt, e, w, z, i, [','] + (j + SpellFields(rest)), k);
        StandsThen(fmt, p, e, z, t, i + ([','] + (j + SpellFields(rest))), k);
        fields := MoreFields(key, g, h, d, i, j, rest);
        MoreFieldsShape(rs, key, g, h, d, i, j, rest);
        PutAllFirst(acc, f, Assignments(rs, rest));
      }
    }
  }

  lemma LastFieldShape(rs: Reals, key: Doc, g: string, h: string, d: Doc, i: string)
    requires Fits(rs, key) && AllSpace(g) && (key.Number? ==> g != "") && AllSpace(h) && Fits(rs, d) && (i == "" || AllSpace(i))
    ensures var fields := LastField(key, g, h, d, i);
            && FieldsFit(rs, fields)
            && SpellFields(fields) == (Spell(key) + (g + ([':'] + (h + Spell(d))))) + (i + ['}'])
            && Assignments(rs, fields) == [Field(AsString(Meaning(rs, key)), Meaning(rs, d))]
  {
    hide Spell, Meaning, Fits, AsString;
    Regrouped(Spell(key), g, h, Spell(d), i + ['}']);
  }

  lemma Regrouped(a: string, g: string, h: string, b: string, t: string)
    ensures a + (g + ([':'] + (h + (b + t)))) == (a + (g + ([':'] + (h + b)))) + t
  {
  }

  lemma MoreFieldsShape(rs: Reals, key: Doc, g: string, h: string, d: Doc, i: string, j: string, rest: Fields)
    requires Fits(rs, key) && AllSpace(g) && (key.Number? ==> g != "") && AllSpace(h) && Fits(rs, d) && AllSpace(i) && AllSpace(j)
    requires FieldsFit(rs, rest) && rest != NoFields
    ensures var fields := MoreFields(key, g, h, d, i, j, rest);
            && FieldsFit(rs, fields)
            && SpellFields(fields) == (Spell(key) + (g + ([':'] + (h + Spell(d))))) + (i + ([','] + (j + SpellFields(rest))))
            && Assignments(rs, fields) == [Field(AsString(Meaning(rs, key)), Meaning(rs, d))] + Assignments(rs, rest)
  {
    hide Spell, Meaning, Fits, AsString;
    Regrouped(Spell(key), g, h, Spell(d), i + ([','] + (j + SpellFields(rest))));
  }

  // ----- from the grammar to the parser, with brackets missing at the end

  /** The text up to its end, and `k` brackets more. */
  ghost predicate Misses(fmt: string, p: nat, t: string, k: nat) {
    p < |fmt| && k > 0 && IsClose(End(fmt)) && fmt[p..] + Copies(End(fmt), k) == t
  }

  lemma MissesEnd(fmt: string, p: nat, t: string, k: nat)
    requires Misses(fmt, p, t, k)
    ensures k > 0 && |t| == |fmt| - p + k && t[|t| - 1] == End(fmt) && IsClose(End(fmt))
    ensures forall j :: |t| - 1 - k <= j < |t| ==> t[j] == End(fmt)
  {
    var n := |fmt| - p;
    assert t[n - 1] == fmt[p..][n - 1] == End(fmt);
    assert forall j :: n <= j < |t| ==> t[j] == Copies(End(fmt), k)[j - n];
  }

  /** Without its last bracket, a text that misses some misses one less. */
  lemma MissesLess(fmt: string, p: nat, a: string, g: string, c: char, k: nat)
    requires Misses(fmt, p, a + (g + [c]), k) && AllSpace(g) && a != ""
    ensures c == End(fmt) && g == ""
    ensures k == 1 ==> Here(fmt, p, a) && p + |a| == |fmt|
    ensures k > 1 ==> Misses(fmt, p, a, k - 1)
  {
    var t := a + (g + [c]);
    MissesEnd(fmt, p, t, k);
    assert t[|t| - 1] == c;
    assert forall j :: |a| <= j < |t| - 1 ==> t[j] == g[j - |a|];
    assert t[|t| - 2] == End(fmt);
    assert g == "";
    var u := fmt[p..] + Copies(c, k - 1);
    assert Copies(c, k) == Copies(c, k - 1) + [c];
    assert t == u + [c];
    assert a == t[..|t| - 1] == u;
    if k == 1 {
      assert a == fmt[p..];
    }
  }

  /** What is missing is missing from the last part, if no bracket stands in front of that. */
  lemma MissesInLast(fmt: string, p: nat, a: string, b: string, k: nat)
    requires Misses(fmt, p, a + b, k) && a != "" && !IsClose(a[|a| - 1])
    ensures Here(fmt, p, a) && Misses(fmt, p + |a|, b, k)
  {
    var t := a + b;
    MissesEnd(fmt, p, t, k);
    assert t[|a| - 1] == a[|a| - 1];
    assert |b| > k;
    var n := |fmt| - p;
    assert t[..n] == fmt[p..];
    assert fmt[p..p + |a|] == t[..|a|] == a;
    assert fmt[p + |a|..] == t[|a|..n];
    assert b == t[|a|..];
  }

  lemma NoNumberMisses(rs: Reals, fmt: string, p: nat, d: Doc, k: nat)
    requires Fits(rs, d) && Misses(fmt, p, Spell(d), k)
    ensures (d.List? && End(fmt) == ']') || (d.Record? && End(fmt) == '}')
  {
    hide Fits, Spell;
    SpellEnds(rs, d);
    MissesEnd(fmt, p, Spell(d), k);
  }

  lemma {:induction false} ParsesCut(rs: Reals, fmt: string, o: nat, p: nat, d: Doc, k: nat)
    requires Fits(rs, d) && Blank(fmt, o, p) && Misses(fmt, p, Spell(d), k)
    ensures ParseNext(rs, fmt, o) == Parsed(Meaning(rs, d), |fmt|)
    decreases d, 0
  {
    hide ParseNext, ParseArray, ParseObject, StringFrom, ParseNumber, ParseBoolean, ParseNull, SpellItems, SpellFields, ItemsMean,
      Assignments, Ordered, SpellPieces, PiecesRead, ItemsFit, FieldsFit, ReadsNumber, NumberRead, Here, Blank, IsSpace, Misses;
    NoNumberMisses(rs, fmt, p, d, k);
    SpellStarts(rs, d);
    MissesStart(fmt, p, Spell(d), k);
    NextIs(rs, fmt, o, p);
    match d
    case List(pre, items) => ListParsesCut(rs, fmt, p, pre, items, k);
    case Record(pre, fields) => RecordParsesCut(rs, fmt, p, pre, fields, k);
    case _ =>
  }

  lemma MissesStart(fmt: string, p: nat, t: string, k: nat)
    requires Misses(fmt, p, t, k)
    ensures p < |fmt| && t != "" && fmt[p] == t[0]
  {
  }

  /** Behind an item that reaches to the end, the last bracket is looked at again. */
  lemma ItemAgain(rs: Reals, fmt: string, o: nat, acc: seq<JSON>, v: JSON)
    requires o <= |fmt| && fmt != "" && ParseNext(rs, fmt, o) == Parsed(v, |fmt|) && End(fmt) == ']'
    ensures ParseItems(rs, fmt, o, acc) == Parsed(Array(acc + [v]), |fmt|)
  {
    hide ParseNext;
  }

  lemma FieldAgain(rs: Reals, fmt: string, o: nat, acc: seq<Field>, key: JSON, v: JSON)
    requires o <= |fmt| && fmt != "" && ParseField(rs, fmt, o) == Read(key, v, |fmt|) && End(fmt) == '}'
    ensures ParseFields(rs, fmt, o, acc) == Parsed(Object(Put(acc, AsString(key), v)), |fmt|)
  {
    hide ParseField, ParseNext, Put, AsString;
  }

  /** The last value of the text, from where only brackets are missing, is read to the end. */
  lemma {:induction false} LastParses(rs: Reals, fmt: string, o: nat, p: nat, d: Doc, k: nat)
    requires Fits(rs, d) && Blank(fmt, o, p) && fmt != "" && IsClose(End(fmt))
    requires if k == 0 then Here(fmt, p, Spell(d)) && p + |Spell(d)| == |fmt| else Misses(fmt, p, Spell(d), k)
    ensures ParseNext(rs, fmt, o) == Parsed(Meaning(rs, d), |fmt|)
    decreases d, 1
  {
    hide *;
    if k == 0 {
      SpellEnds(rs, d);
      HereAt(fmt, p, Spell(d), |Spell(d)| - 1);
      EndIs(fmt);
      NotANumber(rs, fmt, d);
      Parses(rs, fmt, o, p, d);
    } else {
      ParsesCut(rs, fmt, o, p, d, k);
    }
  }

  lemma NotANumber(rs: Reals, fmt: string, d: Doc)
    requires Fits(rs, d) && fmt != "" && IsClose(End(fmt)) && Spell(d) != "" && Spell(d)[|Spell(d)| - 1] == End(fmt)
    ensures EndsWell(fmt, |fmt|, d)
  {
    hide Fits, Spell;
    SpellEnds(rs, d);
  }

  lemma {:induction false} ListParsesCut(rs: Reals, fmt: string, p: nat, pre: string, items: Items, k: nat)
    requires AllSpace(pre) && ItemsFit(rs, items) && Misses(fmt, p, ['['] + (pre + SpellItems(items)), k)
    ensures p < |fmt| && ParseArray(rs, fmt, p) == Parsed(Array(ItemsMean(rs, items)), |fmt|)
    decreases items, 3
  {
    hide *;
    var x := p + 1 + |pre|;
    OpenIsOpen();
    OpensAt(fmt, p, '[', pre, SpellItems(items), k);
    SomeItems(fmt, x, items, k);
    var d, rest := ItemsStart(rs, items);
    FirstMisses(rs, fmt, x, d, rest, k);
    SkipTo(fmt, p + 1, x);
    ArrayReads(rs, fmt, p, x);
    BlankNone(fmt, x);
    ItemsParseCut(rs, fmt, x, x, items, [], k);
    assert [] + ItemsMean(rs, items) == ItemsMean(rs, items);
  }

  lemma OpenIsOpen()
    ensures !IsClose('[') && !IsClose('{') && !IsClose(',') && !IsClose(':')
  {
  }

  /** The opening bracket and the white space behind it are there. */
  lemma OpensAt(fmt: string, p: nat, c: char, pre: string, t: string, k: nat)
    requires AllSpace(pre) && !IsClose(c) && Misses(fmt, p, [c] + (pre + t), k)
    ensures p < |fmt| && fmt[p] == c && Blank(fmt, p + 1, p + 1 + |pre|) && Misses(fmt, p + 1 + |pre|, t, k)
  {
    hide Misses;
    var a := [c] + pre;
    assert [c] + (pre + t) == a + t;
    MissesInLast(fmt, p, a, t, k);
    HereParts(fmt, p, [c], pre);
    HereAt(fmt, p, [c], 0);
    BlankHere(fmt, p + 1, pre);
  }

  lemma SomeItems(fmt: string, p: nat, items: Items, k: nat)
    requires Misses(fmt, p, SpellItems(items), k)
    ensures items != NoItems
  {
    assert |SpellItems(items)| >= 2;
  }

  lemma SomeFields(fmt: string, p: nat, fields: Fields, k: nat)
    requires Misses(fmt, p, SpellFields(fields), k)
    ensures fields != NoFields
  {
    assert |SpellFields(fields)| >= 2;
  }

  lemma FirstMisses(rs: Reals, fmt: string, p: nat, d: Doc, rest: string, k: nat)
    requires Fits(rs, d) && Misses(fmt, p, Spell(d) + rest, k)
    ensures p < |fmt| && !IsSpace(fmt[p]) && fmt[p] != ']' && fmt[p] != '}'
  {
    hide Spell, Fits;
    SpellStarts(rs, d);
    MissesStart(fmt, p, Spell(d) + rest, k);
  }

  lemma {:induction false} ItemsParseCut(rs: Reals, fmt: string, o: nat, p: nat, items: Items, acc: seq<JSON>, k: nat)
    requires ItemsFit(rs, items) && items != NoItems && Blank(fmt, o, p) && Misses(fmt, p, SpellItems(items), k)
    ensures o <= |fmt| && ParseItems(rs, fmt, o, acc) == Parsed(Array(acc + ItemsMean(rs, items)), |fmt|)
    decreases items, 2
  {
    hide *;
    ItemsShape(rs, items);
    CommaIsSolid();
    OpenIsOpen();
    BlankStarts(fmt, o, p);
    var d, g := items.d, items.g;
    var v := Meaning(rs, d);
    SpellStarts(rs, d);
    MissesEnd(fmt, p, SpellItems(items), k);
    if items.LastItem? {
      assert g + ([']'] + "") == g + [']'];
      MissesLess(fmt, p, Spell(d), g, ']', k);
      LastParses(rs, fmt, o, p, d, k - 1);
      ItemAgain(rs, fmt, o, acc, v);
    } else {
      var h, rest := items.h, items.rest;
      var e := p + |Spell(d)|;
      var w := e + |g|;
      var a := Spell(d) + (g + ([','] + h));
      Ahead(Spell(d), g, ',', h, SpellItems(rest));
      NotClosed(Spell(d), g, ',', h);
      MissesInLast(fmt, p, a, SpellItems(rest), k);
      StartsHere(rs, fmt, p, d, g + ([','] + h));
      ValueThen(rs, fmt, p, d, g, h);
      GapThen(fmt, e, g, ',', h);
      EndsThere(fmt, e, d);
      Parses(rs, fmt, o, p, d);
      ItemRound(rs, fmt, o, acc, v, e, w);
      ItemsParseCut(rs, fmt, w + 1, w + 1 + |h|, rest, acc + [v], k);
      assert acc + [v] + ItemsMean(rs, rest) == acc + ([v] + ItemsMean(rs, rest));
    }
  }

  lemma NotClosed(a: string, g: string, c: char, h: string)
    requires AllSpace(h) && !IsClose(c)
    ensures var t := a + (g + ([c] + h)); t != "" && !IsClose(t[|t| - 1])
  {
    var t := a + (g + ([c] + h));
    assert t[|t| - 1] == if h == "" then c else h[|h| - 1];
  }

  lemma {:induction false} RecordParsesCut(rs: Reals, fmt: string, p: nat, pre: string, fields: Fields, k: nat)
    requires AllSpace(pre) && FieldsFit(rs, fields) && Misses(fmt, p, ['{'] + (pre + SpellFields(fields)), k)
    ensures p < |fmt| && ParseObject(rs, fmt, p) == Parsed(Object(Ordered(Assignments(rs, fields))), |fmt|)
    decreases fields, 4
  {
    hide *;
    var x := p + 1 + |pre|;
    OpenIsOpen();
    OpensAt(fmt, p, '{', pre, SpellFields(fields), k);
    SomeFields(fmt, x, fields, k);
    var d, rest := FieldsStart(rs, fields);
    FirstMisses(rs, fmt, x, d, rest, k);
    SkipTo(fmt, p + 1, x);
    ObjectReads(rs, fmt, p, x);
    BlankNone(fmt, x);
    OrderedIsPut(Assignments(rs, fields));
    FieldsParseCut(rs, fmt, x, x, fields, [], k);
  }

  lemma {:induction false} FieldsParseCut(rs: Reals, fmt: string, o: nat, p: nat, fields: Fields, acc: seq<Field>, k: nat)
    requires FieldsFit(rs, fields) && fields != NoFields && Blank(fmt, o, p) && Misses(fmt, p, SpellFields(fields), k)
    ensures o <= |fmt| && ParseFields(rs, fmt, o, acc) == Parsed(Object(PutAll(acc, Assignments(rs, fields))), |fmt|)
    decreases fields, 3
  {
    hide *;
    if fields.LastField? {
      LastFieldCut(rs, fmt, o, p, fields, acc, k);
    } else {
      BlankStarts(fmt, o, p);
      FieldsShape(rs, fields);
      var m, v := Meaning(rs, fields.key), Meaning(rs, fields.d);
      var f := Field(AsString(m), v);
      var w := MoreFieldsCut(rs, fmt, o, p, fields, acc, k);
      FieldsParseCut(rs, fmt, w + 1, w + 1 + |fields.j|, fields.rest, Put(acc, f.key, v), k);
      PutAllFirst(acc, f, Assignments(rs, fields.rest));
    }
  }

  lemma {:induction false} LastFieldCut(rs: Reals, fmt: string, o: nat, p: nat, fields: Fields, acc: seq<Field>, k: nat)
    requires FieldsFit(rs, fields) && fields.LastField? && Blank(fmt, o, p) && Misses(fmt, p, SpellFields(fields), k)
    ensures o <= |fmt| && ParseFields(rs, fmt, o, acc) == Parsed(Object(PutAll(acc, Assignments(rs, fields))), |fmt|)
    decreases fields, 2
  {
    hide *;
    FieldsShape(rs, fields);
    BlankStarts(fmt, o, p);
    var key, g, h, d, i := fields.key, fields.g, fields.h, fields.d, fields.i;
    var m, v := Meaning(rs, key), Meaning(rs, d);
    SpellStarts(rs, d);
    MissesEnd(fmt, p, SpellFields(fields), k);
    var a := Spell(key) + (g + ([':'] + h));
    var x := p + |a|;
    assert i + (['}'] + "") == i + ['}'];
    KeyMisses(fmt, p, Spell(key), g, h, Spell(d) + (i + ['}']), k);
    MissesLess(fmt, x, Spell(d), i, '}', k);
    FirstMisses(rs, fmt, x, d, i + ['}'], k);
    BlankNone(fmt, x);
    LastParses(rs, fmt, x, x, d, k - 1);
    KeyBefore(rs, fmt, o, p, fields, |fmt|);
    FieldAgain(rs, fmt, o, acc, m, v);
    PutAllFirst(acc, Field(AsString(m), v), []);
  }

  lemma KeyMisses(fmt: string, p: nat, key: string, g: string, h: string, t: string, k: nat)
    requires AllSpace(h) && Misses(fmt, p, key + (g + ([':'] + (h + t))), k)
    ensures var a := key + (g + ([':'] + h)); Here(fmt, p, a) && Misses(fmt, p + |a|, t, k)
  {
    hide *;
    OpenIsOpen();
    Ahead(key, g, ':', h, t);
    NotClosed(key, g, ':', h);
    MissesInLast(fmt, p, key + (g + ([':'] + h)), t, k);
  }

  lemma MoreFieldsCut(rs: Reals, fmt: string, o: nat, p: nat, fields: Fields, acc: seq<Field>, k: nat) returns (w: nat)
    requires FieldsFit(rs, fields) && fields.MoreFields? && Blank(fmt, o, p) && Misses(fmt, p, SpellFields(fields), k)
    ensures o <= |fmt| && w + 1 <= |fmt| && Blank(fmt, w + 1, w + 1 + |fields.j|)
    ensures Misses(fmt, w + 1 + |fields.j|, SpellFields(fields.rest), k)
    ensures ParseFields(rs, fmt, o, acc)
         == ParseFields(rs, fmt, w + 1, Put(acc, AsString(Meaning(rs, fields.key)), Meaning(rs, fields.d)))
  {
    hide *;
    FieldsShape(rs, fields);
    CommaIsSolid();
    OpenIsOpen();
    BlankStarts(fmt, o, p);
    var key, g, h, d, i, j, rest := fields.key, fields.g, fields.h, fields.d, fields.i, fields.j, fields.rest;
    var m, v := Meaning(rs, key), Meaning(rs, d);
    var a, b := Spell(key) + (g + ([':'] + h)), Spell(d) + (i + ([','] + j));
    var x := p + |a|;
    KeyMisses(fmt, p, Spell(key), g, h, Spell(d) + (i + ([','] + (j + SpellFields(rest)))), k);
    Ahead(Spell(d), i, ',', j, SpellFields(rest));
    NotClosed(Spell(d), i, ',', j);
    MissesInLast(fmt, x, b, SpellFields(rest), k);
    var e := x + |Spell(d)|;
    w := e + |i|;
    ValueThen(rs, fmt, x, d, i, j);
    KeyBefore(rs, fmt, o, p, fields, e);
    FieldRound(rs, fmt, o, acc, m, v, e, w);
  }

  /** A value, and a comma between white space. */
  lemma ValueThen(rs: Reals, fmt: string, x: nat, d: Doc, i: string, j: string)
    requires Fits(rs, d) && AllSpace(i) && AllSpace(j) && Here(fmt, x, Spell(d) + (i + ([','] + j)))
    ensures var e := x + |Spell(d)|; var w := e + |i|;
            && x < |fmt| && !IsSpace(fmt[x]) && ParseNext(rs, fmt, x) == Parsed(Meaning(rs, d), e)
            && Blank(fmt, e, w) && w < |fmt| && fmt[w] == ',' && Blank(fmt, w + 1, w + 1 + |j|)
  {
    hide *;
    CommaIsSolid();
    var e := x + |Spell(d)|;
    StartsHere(rs, fmt, x, d, i + ([','] + j));
    GapThen(fmt, e, i, ',', j);
    BlankHere(fmt, e + |i| + 1, j);
    EndsThere(fmt, e, d);
    BlankNone(fmt, x);
    Parses(rs, fmt, x, x, d);
  }

  // ----- the language

  /** White space and a value that is not a bare number, but for `k` closing brackets missing at the end, all like the last. */
  ghost predicate Written(rs: Reals, fmt: string, pre: string, d: Doc, k: nat) {
    && fmt != "" && AllSpace(pre) && Fits(rs, d) && !d.Number? && pre + Spell(d) == fmt + Copies(End(fmt), k)
    && (k > 0 ==> IsClose(End(fmt)))
  }

  ghost predicate Spelled(rs: Reals, fmt: string, v: JSON) {
    exists pre, d, k :: WrittenAs(rs, fmt, pre, d, k, v)
  }

  ghost predicate WrittenAs(rs: Reals, fmt: string, pre: string, d: Doc, k: nat, v: JSON) {
    Written(rs, fmt, pre, d, k) && Meaning(rs, d) == v
  }

  lemma WrittenLoads(rs: Reals, fmt: string, pre: string, d: Doc, k: nat)
    requires Written(rs, fmt, pre, d, k)
    ensures Load(rs, fmt) == Value(Meaning(rs, d))
  {
    hide Fits, Spell, Meaning, ParseNext, Load;
    if k == 0 {
      assert fmt + Copies(End(fmt), 0) == fmt;
      GrammarLoads(rs, pre, d);
    } else {
      SpellStarts(rs, d);
      PreInside(fmt, pre, Spell(d), k);
      ParsesCut(rs, fmt, 0, |pre|, d, k);
      LoadsParsed(rs, fmt, Meaning(rs, d));
    }
  }

  lemma PreInside(fmt: string, pre: string, t: string, k: nat)
    requires fmt != "" && AllSpace(pre) && pre + t == fmt + Copies(End(fmt), k) && k > 0 && IsClose(End(fmt))
    requires t != "" && !IsClose(t[0])
    ensures Blank(fmt, 0, |pre|) && Misses(fmt, |pre|, t, k)
  {
    var all := pre + t;
    forall i | 0 <= i < |pre|
      ensures IsSpace(all[i])
    {
      assert all[i] == pre[i];
    }
    assert all[|pre|] == t[0];
    assert all[|fmt|] == (fmt + Copies(End(fmt), k))[|fmt|] == End(fmt);
    assert |pre| < |fmt|;
    assert fmt[..|pre|] == all[..|pre|] == pre;
    forall i | 0 <= i < |pre|
      ensures IsSpace(fmt[i])
    {
      assert fmt[i] == pre[i];
    }
    assert t == all[|pre|..] == fmt[|pre|..] + Copies(End(fmt), k);
  }

  lemma LoadIsParsed(rs: Reals, fmt: string)
    requires Load(rs, fmt).Value?
    ensures ParseNext(rs, fmt, 0) == Parsed(Load(rs, fmt).json, |fmt|)
  {
    hide ParseNext, Skip;
  }

  lemma LoadedIsWritten(rs: Reals, fmt: string) returns (pre: string, d: Doc, k: nat)
    requires Load(rs, fmt).Value?
    ensures Written(rs, fmt, pre, d, k) && Meaning(rs, d) == Load(rs, fmt).json
  {
    hide Fits, Spell, Meaning, ParseNext, Load, Skip;
    LoadIsParsed(rs, fmt);
    Starts(rs, fmt, 0);
    var p := Skip(fmt, 0);
    d, k := Sound(rs, fmt, 0);
    pre := fmt[..p];
    BlankSlice(fmt, 0, p);
    assert fmt[0..p] == pre && fmt == pre + fmt[p..|fmt|];
    assert pre + (fmt[p..|fmt|] + Copies(End(fmt), k)) == fmt + Copies(End(fmt), k);
  }

  /** A text is loaded as a value exactly when it spells the value, but for closing brackets missing at the end: this is all
      there is to `load`, for every text and every value. */
  lemma LoadIff(rs: Reals, fmt: string, v: JSON)
    ensures Load(rs, fmt) == Value(v) <==> Spelled(rs, fmt, v)
  {
    hide Load, WrittenAs;
    if Load(rs, fmt) == Value(v) {
      var pre, d, k := LoadedIsWritten(rs, fmt);
      AsWritten(rs, fmt, pre, d, k);
    }
    if Spelled(rs, fmt, v) {
      var pre, d, k :| WrittenAs(rs, fmt, pre, d, k, v);
      WrittenAsLoads(rs, fmt, pre, d, k, v);
    }
  }

  lemma AsWritten(rs: Reals, fmt: string, pre: string, d: Doc, k: nat)
    requires Written(rs, fmt, pre, d, k)
    ensures Fits(rs, d) && WrittenAs(rs, fmt, pre, d, k, Meaning(rs, d))
  {
    hide Meaning, Fits, Spell;
  }

  lemma WrittenAsLoads(rs: Reals, fmt: string, pre: string, d: Doc, k: nat, v: JSON)
    requires WrittenAs(rs, fmt, pre, d, k, v)
    ensures Load(rs, fmt) == Value(v)
  {
    hide Load, Meaning, Fits, Spell;
    WrittenLoads(rs, fmt, pre, d, k);
  }
}
