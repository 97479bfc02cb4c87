/** The parser reads every text of the grammar as what it stands for. */
module JsonAccepts {
  import opened JsonText
  import opened JsonParse
  import opened JsonRoundTrip
  import opened JsonSpelling
  import opened JsonGrammar

  /** Behind a number stands what ends one. */
  ghost predicate EndsWell(fmt: string, e: nat, d: Doc) {
    d.Number? ==> e < |fmt| && EndsNumber(fmt[e])
  }

  lemma SpellStarts(rs: Reals, d: Doc)
    requires Fits(rs, d)
    ensures |Spell(d)| > 0
    ensures var c := Spell(d)[0]; !IsSpace(c) && c != ']' && c != '}'
  {
    hide SpellPieces, SpellItems, SpellFields;
  }

  lemma StartsHere(rs: Reals, fmt: string, p: nat, d: Doc, rest: string)
    requires Fits(rs, d) && Here(fmt, p, Spell(d) + rest)
    ensures p < |fmt| && fmt[p] == Spell(d)[0] && !IsSpace(fmt[p]) && fmt[p] != ']' && fmt[p] != '}'
    ensures Here(fmt, p, Spell(d)) && Here(fmt, p + |Spell(d)|, rest)
  {
    hide Spell, Here;
    SpellStarts(rs, d);
    HereParts(fmt, p, Spell(d), rest);
    HereAt(fmt, p, Spell(d), 0);
  }

  /** White space, and then a character. */
  lemma GapThen(fmt: string, e: nat, g: string, c: char, rest: string)
    requires AllSpace(g) && Here(fmt, e, g + ([c] + rest))
    ensures var w := e + |g|; Blank(fmt, e, w) && w < |fmt| && fmt[w] == c && Here(fmt, w + 1, rest)
    ensures EndsNumber(c) || g != "" ==> e < |fmt| && EndsNumber(fmt[e])
  {
    GapHere(fmt, e, g, [c] + rest);
    LeadHere(fmt, e + |g|, c, rest);
  }

  // ----- one round of the loops

  /** Behind an item the loop looks for a comma or the end of the array; anything else is refused. */
  lemma ItemRound(rs: Reals, fmt: string, o: nat, acc: seq<JSON>, v: JSON, e: nat, w: nat)
    requires o <= |fmt| && ParseNext(rs, fmt, o) == Parsed(v, e) && Blank(fmt, e, w) && w < |fmt| && !IsSpace(fmt[w])
    ensures ParseItems(rs, fmt, o, acc)
         == if fmt[w] == ',' then ParseItems(rs, fmt, w + 1, acc + [v])
            else if fmt[w] == ']' then Parsed(Array(acc + [v]), w + 1)
            else Failed
  {
    hide ParseNext;
    SkipTo(fmt, e, w);
  }

  /** Behind a field, for a comma or the end of the object. */
  lemma FieldRound(rs: Reals, fmt: string, o: nat, acc: seq<Field>, key: JSON, v: JSON, e: nat, w: nat)
    requires o <= |fmt| && ParseField(rs, fmt, o) == Read(key, v, e) && Blank(fmt, e, w) && w < |fmt| && !IsSpace(fmt[w])
    ensures ParseFields(rs, fmt, o, acc)
         == if fmt[w] == ',' then ParseFields(rs, fmt, w + 1, Put(acc, AsString(key), v))
            else if fmt[w] == '}' then Parsed(Object(Put(acc, AsString(key), v)), w + 1)
            else Failed
  {
    hide ParseField, ParseNext, Put, AsString;
    SkipTo(fmt, e, w);
  }

  /** Behind a key, for a colon. */
  lemma ColonRound(rs: Reals, fmt: string, o: nat, key: JSON, e: nat, w: nat)
    requires o <= |fmt| && ParseNext(rs, fmt, o) == Parsed(key, e) && Blank(fmt, e, w) && w < |fmt| && !IsSpace(fmt[w])
    ensures fmt[w] != ':' ==> ParseField(rs, fmt, o) == Stop(Failed)
    ensures fmt[w] == ':' ==> forall x: nat, v: JSON, e': nat ::
              Blank(fmt, w + 1, x) && x < |fmt| && !IsSpace(fmt[x]) && ParseNext(rs, fmt, x) == Parsed(v, e')
              ==> ParseField(rs, fmt, o) == Read(key, v, e')
  {
    hide ParseNext;
    SkipTo(fmt, e, w);
    forall x: nat, v: JSON, e': nat | fmt[w] == ':' && Blank(fmt, w + 1, x) && x < |fmt| && !IsSpace(fmt[x]) && ParseNext(rs, fmt, x) == Parsed(v, e')
      ensures ParseField(rs, fmt, o) == Read(key, v, e')
    {
      SkipTo(fmt, w + 1, x);
    }
  }

  lemma CommaIsSolid()
    ensures !IsSpace(',') && !IsSpace(']') && !IsSpace('}') && !IsSpace(':')
    ensures EndsNumber(',') && EndsNumber(']') && EndsNumber('}')
    ensures !IsDigit(',') && !IsDigit(']') && !IsDigit('}') && !IsDigit(':')
  {
  }

  // ----- whole values

  lemma WordParses(fmt: string, p: nat, w: string)
    requires (w == "null" || w == "true" || w == "false") && Here(fmt, p, w)
    ensures p < |fmt| && (w == "null" ==> fmt[p] == 'n' && ParseNull(fmt, p) == Parsed(Null, p + |w|))
    ensures w != "null" ==> (fmt[p] == 't' || fmt[p] == 'f') && ParseBoolean(fmt, p) == Parsed(Boolean(w == "true"), p + |w|)
  {
    HereAt(fmt, p, w, 0);
    if w == "true" {
      TrueBack(fmt, p);
    } else if w == "false" {
      FalseBack(fmt, p);
    }
  }

  lemma NextIs(rs: Reals, fmt: string, o: nat, p: nat)
    requires Blank(fmt, o, p) && p < |fmt| && !IsSpace(fmt[p])
    ensures ParseNext(rs, fmt, o) ==
              var c := fmt[p];
              if c == '{' then ParseObject(rs, fmt, p)
              else if c == '[' then ParseArray(rs, fmt, p)
              else if c == '\"' then StringFrom(fmt, p + 1, "")
              else if c == 't' || c == 'f' then ParseBoolean(fmt, p)
              else if c == 'n' then ParseNull(fmt, p)
              else if IsDigit(c) || c == '-' then ParseNumber(rs, fmt, p)
              else Failed
  {
    hide ParseObject, ParseArray, StringFrom, ParseBoolean, ParseNull, ParseNumber;
    SkipTo(fmt, o, p);
  }

  /** A text of the grammar, found behind white space, is read as what it stands for and used up exactly. */
  lemma {:induction false} Parses(rs: Reals, fmt: string, o: nat, p: nat, d: Doc)
    requires Fits(rs, d) && Blank(fmt, o, p) && Here(fmt, p, Spell(d)) && EndsWell(fmt, p + |Spell(d)|, d)
    ensures ParseNext(rs, fmt, o) == Parsed(Meaning(rs, d), p + |Spell(d)|)
    decreases d
  {
    hide ParseNext, ParseArray, ParseObject, StringFrom, ParseNumber, ParseBoolean, ParseNull, SpellItems, SpellFields, ItemsMean,
      Assignments, Ordered, SpellPieces, PiecesRead, ItemsFit, FieldsFit, ReadsNumber, NumberRead, Here, Blank, IsSpace;
    assert Spell(d) + "" == Spell(d);
    StartsHere(rs, fmt, p, d, "");
    NextIs(rs, fmt, o, p);
    match d
    case Word(w) => WordParses(fmt, p, w);
    case Number(t) => NumberReads(rs, fmt, p, t);
    case Quote(ps) =>
      LeadHere(fmt, p, '\"', SpellPieces(ps) + ['\"']);
      PiecesParse(fmt, p + 1, ps, "");
      assert "" + PiecesRead(ps) == PiecesRead(ps);
    case List(pre, items) => ListParses(rs, fmt, p, pre, items);
    case Record(pre, fields) => RecordParses(rs, fmt, p, pre, fields);
  }

  lemma ItemsStart(rs: Reals, items: Items) returns (d: Doc, rest: string)
    requires ItemsFit(rs, items) && items != NoItems
    ensures Fits(rs, d) && SpellItems(items) == Spell(d) + rest
  {
    hide Spell;
    match items
    case LastItem(e, g) => d, rest := e, g + [']'];
    case MoreItems(e, g, h, more) => d, rest := e, g + ([','] + (h + SpellItems(more)));
  }

  lemma FieldsStart(rs: Reals, fields: Fields) returns (d: Doc, rest: string)
    requires FieldsFit(rs, fields) && fields != NoFields
    ensures Fits(rs, d) && SpellFields(fields) == Spell(d) + rest
  {
    hide Spell;
    match fields
    case LastField(key, g, h, v, i) => d, rest := key, g + ([':'] + (h + (Spell(v) + (i + ['}']))));
    case MoreFields(key, g, h, v, i, j, more) =>
      d, rest := key, g + ([':'] + (h + (Spell(v) + (i + ([','] + (j + SpellFields(more)))))));
  }

  lemma {:induction false} ListParses(rs: Reals, fmt: string, p: nat, pre: string, items: Items)
    requires AllSpace(pre) && ItemsFit(rs, items) && Here(fmt, p, ['['] + (pre + SpellItems(items)))
    ensures p < |fmt|
    ensures ParseArray(rs, fmt, p) == Parsed(Array(ItemsMean(rs, items)), p + 1 + |pre| + |SpellItems(items)|)
    decreases items, 1
  {
    hide *;
    LeadHere(fmt, p, '[', pre + SpellItems(items));
    if items == NoItems {
      EmptyList(rs, fmt, p, pre);
    } else {
      var x := p + 1 + |pre|;
      GapHere(fmt, p + 1, pre, SpellItems(items));
      var d, rest := ItemsStart(rs, items);
      StartsHere(rs, fmt, x, d, rest);
      SkipTo(fmt, p + 1, x);
      ArrayReads(rs, fmt, p, x);
      BlankNone(fmt, x);
      ItemsParse(rs, fmt, x, x, items, []);
      assert [] + ItemsMean(rs, items) == ItemsMean(rs, items);
    }
  }

  lemma EmptyList(rs: Reals, fmt: string, p: nat, pre: string)
    requires AllSpace(pre) && Here(fmt, p + 1, pre + SpellItems(NoItems))
    ensures ParseArray(rs, fmt, p) == Parsed(Array(ItemsMean(rs, NoItems)), p + 1 + |pre| + |SpellItems(NoItems)|)
  {
    hide ParseItems, Here, Blank, Skip;
    assert "]" == [']'] + "";
    GapThen(fmt, p + 1, pre, ']', "");
    CommaIsSolid();
    SkipTo(fmt, p + 1, p + 1 + |pre|);
  }

  lemma EmptyRecord(rs: Reals, fmt: string, p: nat, pre: string)
    requires AllSpace(pre) && Here(fmt, p + 1, pre + SpellFields(NoFields))
    ensures ParseObject(rs, fmt, p)
         == Parsed(Object(PutAll([], Assignments(rs, NoFields))), p + 1 + |pre| + |SpellFields(NoFields)|)
  {
    hide ParseFields, ParseField, Here, Blank, Skip;
    assert "}" == ['}'] + "";
    GapThen(fmt, p + 1, pre, '}', "");
    CommaIsSolid();
    SkipTo(fmt, p + 1, p + 1 + |pre|);
  }

  lemma ItemsShape(rs: Reals, items: Items)
    requires ItemsFit(rs, items) && items != NoItems
    ensures Fits(rs, items.d) && AllSpace(items.g)
    ensures items.LastItem? ==> SpellItems(items) == Spell(items.d) + (items.g + ([']'] + ""))
    ensures items.LastItem? ==> ItemsMean(rs, items) == [Meaning(rs, items.d)]
    ensures items.MoreItems? ==>
              && AllSpace(items.h) && items.rest != NoItems && ItemsFit(rs, items.rest)
              && SpellItems(items) == Spell(items.d) + (items.g + ([','] + (items.h + SpellItems(items.rest))))
              && ItemsMean(rs, items) == [Meaning(rs, items.d)] + ItemsMean(rs, items.rest)
  {
    hide Spell, Meaning, Fits;
  }

  lemma {:induction false} ItemsParse(rs: Reals, fmt: string, o: nat, p: nat, items: Items, acc: seq<JSON>)
    requires ItemsFit(rs, items) && items != NoItems && Blank(fmt, o, p) && Here(fmt, p, SpellItems(items))
    ensures o <= |fmt| && ParseItems(rs, fmt, o, acc) == Parsed(Array(acc + ItemsMean(rs, items)), p + |SpellItems(items)|)
    decreases items, 0
  {
    hide *;
    ItemsShape(rs, items);
    CommaIsSolid();
    BlankStarts(fmt, o, p);
    var d, g := items.d, items.g;
    var e := p + |Spell(d)|;
    var w, v := e + |g|, Meaning(rs, d);
    if items.LastItem? {
      StartsHere(rs, fmt, p, d, g + ([']'] + ""));
      GapThen(fmt, e, g, ']', "");
      EndsThere(fmt, e, d);
      Parses(rs, fmt, o, p, d);
      ItemRound(rs, fmt, o, acc, v, e, w);
    } else {
      var h, rest := items.h, items.rest;
      StartsHere(rs, fmt, p, d, g + ([','] + (h + SpellItems(rest))));
      GapThen(fmt, e, g, ',', h + SpellItems(rest));
      GapHere(fmt, w + 1, h, SpellItems(rest));
      EndsThere(fmt, e, d);
      Parses(rs, fmt, o, p, d);
      ItemRound(rs, fmt, o, acc, v, e, w);
      ItemsParse(rs, fmt, w + 1, w + 1 + |h|, rest, acc + [v]);
      assert acc + [v] + ItemsMean(rs, rest) == acc + ([v] + ItemsMean(rs, rest));
    }
  }

  lemma BlankStarts(fmt: string, o: nat, p: nat)
    requires Blank(fmt, o, p)
    ensures o <= p <= |fmt|
  {
  }

  lemma EndsThere(fmt: string, e: nat, d: Doc)
    requires e < |fmt| && EndsNumber(fmt[e])
    ensures EndsWell(fmt, e, d)
  {
  }

  lemma {:induction false} RecordParses(rs: Reals, fmt: string, p: nat, pre: string, fields: Fields)
    requires AllSpace(pre) && FieldsFit(rs, fields) && Here(fmt, p, ['{'] + (pre + SpellFields(fields)))
    ensures p < |fmt|
    ensures ParseObject(rs, fmt, p) == Parsed(Object(Ordered(Assignments(rs, fields))), p + 1 + |pre| + |SpellFields(fields)|)
    decreases fields, 3
  {
    hide *;
    LeadHere(fmt, p, '{', pre + SpellFields(fields));
    OrderedIsPut(Assignments(rs, fields));
    if fields == NoFields {
      EmptyRecord(rs, fmt, p, pre);
    } else {
      var x := p + 1 + |pre|;
      GapHere(fmt, p + 1, pre, SpellFields(fields));
      var d, rest := FieldsStart(rs, fields);
      StartsHere(rs, fmt, x, d, rest);
      SkipTo(fmt, p + 1, x);
      ObjectReads(rs, fmt, p, x);
      BlankNone(fmt, x);
      FieldsParse(rs, fmt, x, x, fields, []);
    }
  }

  lemma OrderedIsPut(a: seq<Field>)
    ensures Ordered(a) == PutAll([], a) && PutAll([], []) == []
  {
  }

  lemma FieldsShape(rs: Reals, fields: Fields)
    requires FieldsFit(rs, fields) && fields != NoFields
    ensures Fits(rs, fields.key) && AllSpace(fields.g) && (fields.key.Number? ==> fields.g != "")
    ensures AllSpace(fields.h) && Fits(rs, fields.d) && AllSpace(fields.i)
    ensures fields.LastField? ==>
              && SpellFields(fields)
                 == Spell(fields.key) + (fields.g + ([':'] + (fields.h + (Spell(fields.d) + (fields.i + (['}'] + ""))))))
              && Assignments(rs, fields) == [Field(AsString(Meaning(rs, fields.key)), Meaning(rs, fields.d))]
    ensures fields.MoreFields? ==>
              && AllSpace(fields.j) && fields.rest != NoFields && FieldsFit(rs, fields.rest)
              && SpellFields(fields)
                 == Spell(fields.key)
                    + (fields.g + ([':'] + (fields.h + (Spell(fields.d) + (fields.i + ([','] + (fields.j + SpellFields(fields.rest))))))))
              && Assignments(rs, fields)
                 == [Field(AsString(Meaning(rs, fields.key)), Meaning(rs, fields.d))] + Assignments(rs, fields.rest)
  {
    hide Spell, Meaning, Fits, AsString;
  }

  lemma PutAllFirst(acc: seq<Field>, f: Field, rest: seq<Field>)
    ensures PutAll(acc, [f] + rest) == PutAll(Put(acc, f.key, f.value), rest)
    ensures PutAll(acc, [f]) == Put(acc, f.key, f.value)
  {
    hide Put;
    assert ([f] + rest)[1..] == rest && [f][1..] == [];
    assert PutAll(Put(acc, f.key, f.value), []) == Put(acc, f.key, f.value);
  }

  lemma {:induction false} FieldsParse(rs: Reals, fmt: string, o: nat, p: nat, fields: Fields, acc: seq<Field>)
    requires FieldsFit(rs, fields) && fields != NoFields && Blank(fmt, o, p) && Here(fmt, p, SpellFields(fields))
    ensures o <= |fmt|
    ensures ParseFields(rs, fmt, o, acc) == Parsed(Object(PutAll(acc, Assignments(rs, fields))), p + |SpellFields(fields)|)
    decreases fields, 2
  {
    hide *;
    FieldsShape(rs, fields);
    CommaIsSolid();
    BlankStarts(fmt, o, p);
    var key, v := Meaning(rs, fields.key), Meaning(rs, fields.d);
    var f := Field(AsString(key), v);
    if fields.LastField? {
      var e := FieldParses(rs, fmt, o, p, fields, ['}'] + "", '}');
      GapThen(fmt, e, fields.i, '}', "");
      FieldRound(rs, fmt, o, acc, key, v, e, e + |fields.i|);
      PutAllFirst(acc, f, []);
    } else {
      var j, rest := fields.j, fields.rest;
      var e := FieldParses(rs, fmt, o, p, fields, [','] + (j + SpellFields(rest)), ',');
      var w := e + |fields.i|;
      GapThen(fmt, e, fields.i, ',', j + SpellFields(rest));
      GapHere(fmt, w + 1, j, SpellFields(rest));
      FieldRound(rs, fmt, o, acc, key, v, e, w);
      FieldsParse(rs, fmt, w + 1, w + 1 + |j|, rest, Put(acc, f.key, v));
      PutAllFirst(acc, f, Assignments(rs, rest));
    }
  }

  lemma Ahead(a: string, g: string, c: char, h: string, t: string)
    ensures a + (g + ([c] + (h + t))) == (a + (g + ([c] + h))) + t
    ensures |a + (g + ([c] + h))| == |a| + |g| + 1 + |h|
  {
  }

  /** A key and a colon in front of a value that is read. */
  lemma {:induction false} KeyBefore(rs: Reals, fmt: string, o: nat, p: nat, fields: Fields, e: nat)
    requires FieldsFit(rs, fields) && fields != NoFields && Blank(fmt, o, p)
    requires var a := Spell(fields.key) + (fields.g + ([':'] + fields.h)); var x := p + |a|;
             Here(fmt, p, a) && x < |fmt| && !IsSpace(fmt[x]) && ParseNext(rs, fmt, x) == Parsed(Meaning(rs, fields.d), e)
    ensures o <= |fmt| && ParseField(rs, fmt, o) == Read(Meaning(rs, fields.key), Meaning(rs, fields.d), e)
    decreases fields, 0
  {
    hide *;
    FieldsShape(rs, fields);
    CommaIsSolid();
    BlankStarts(fmt, o, p);
    var key, g, h := fields.key, fields.g, fields.h;
    var n := p + |Spell(key)|;
    var w := n + |g|;
    Ahead(Spell(key), g, ':', h, "");
    StartsHere(rs, fmt, p, key, g + ([':'] + h));
    GapThen(fmt, n, g, ':', h);
    BlankHere(fmt, w + 1, h);
    KeyEnds(fmt, n, key, g);
    Parses(rs, fmt, o, p, key);
    ColonRound(rs, fmt, o, Meaning(rs, key), n, w);
  }

  /** A key, a colon and a value, behind which `c` comes. */
  lemma {:induction false} FieldParses(rs: Reals, fmt: string, o: nat, p: nat, fields: Fields, tail: string, c: char) returns (e: nat)
    requires FieldsFit(rs, fields) && fields != NoFields && Blank(fmt, o, p) && tail != "" && tail[0] == c && EndsNumber(c)
    requires Here(fmt, p, Spell(fields.key) + (fields.g + ([':'] + (fields.h + (Spell(fields.d) + (fields.i + tail))))))
    ensures o <= |fmt| && ParseField(rs, fmt, o) == Read(Meaning(rs, fields.key), Meaning(rs, fields.d), e)
    ensures e == p + |Spell(fields.key)| + |fields.g| + 1 + |fields.h| + |Spell(fields.d)| && Here(fmt, e, fields.i + tail)
    decreases fields, 1
  {
    hide *;
    FieldsShape(rs, fields);
    CommaIsSolid();
    BlankStarts(fmt, o, p);
    var key, g, h, d, i := fields.key, fields.g, fields.h, fields.d, fields.i;
    var a := Spell(key) + (g + ([':'] + h));
    var x := p + |a|;
    Ahead(Spell(key), g, ':', h, Spell(d) + (i + tail));
    HereParts(fmt, p, a, Spell(d) + (i + tail));
    StartsHere(rs, fmt, x, d, i + tail);
    e := x + |Spell(d)|;
    assert tail == [c] + tail[1..];
    GapThen(fmt, e, i, c, tail[1..]);
    EndsThere(fmt, e, d);
    BlankNone(fmt, x);
    Parses(rs, fmt, x, x, d);
    KeyBefore(rs, fmt, o, p, fields, e);
  }

  lemma KeyEnds(fmt: string, k: nat, key: Doc, g: string)
    requires key.Number? ==> g != ""
    requires g != "" ==> k < |fmt| && EndsNumber(fmt[k])
    ensures EndsWell(fmt, k, key)
  {
  }

  /** Every text of the grammar but a bare number loads as what it stands for: the items in their order, for each key the last
      value read for it, and the keys in order. */
  lemma GrammarLoads(rs: Reals, pre: string, d: Doc)
    requires AllSpace(pre) && Fits(rs, d) && !d.Number?
    ensures Load(rs, pre + Spell(d)) == Value(Meaning(rs, d))
  {
    hide *;
    var fmt := pre + Spell(d);
    Leads(pre, Spell(d));
    NotNumber(fmt, d);
    Parses(rs, fmt, 0, |pre|, d);
    LoadsParsed(rs, fmt, Meaning(rs, d));
  }

  lemma Leads(pre: string, t: string)
    requires AllSpace(pre)
    ensures Blank(pre + t, 0, |pre|) && Here(pre + t, |pre|, t)
  {
  }

  lemma NotNumber(fmt: string, d: Doc)
    requires !d.Number?
    ensures EndsWell(fmt, |fmt|, d)
  {
  }
}
