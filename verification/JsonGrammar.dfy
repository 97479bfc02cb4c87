/** The texts that are loaded, as a grammar: any white space between the tokens, any spelling of the characters of a string, keys
    in any order, and any value as a key. */
module JsonGrammar {
  import opened JsonText
  import opened JsonParse
  import opened JsonRoundTrip
  import opened JsonSpelling
  import opened JsonObjects

  /** A text as a tree: `pre` stands behind an opening bracket, `g` behind a value, `h` behind a colon or comma. */
  datatype Doc =
    | Word(w: string)
    | Number(t: string)
    | Quote(ps: seq<Piece>)
    | List(pre: string, items: Items)
    | Record(pre: string, fields: Fields)

  datatype Items = NoItems | LastItem(d: Doc, g: string) | MoreItems(d: Doc, g: string, h: string, rest: Items)

  datatype Fields =
    | NoFields
    | LastField(key: Doc, g: string, h: string, d: Doc, i: string)
    | MoreFields(key: Doc, g: string, h: string, d: Doc, i: string, j: string, rest: Fields)

  function Spell(d: Doc): string {
    match d
    case Word(w) => w
    case Number(t) => t
    case Quote(ps) => ['\"'] + (SpellPieces(ps) + ['\"'])
    case List(pre, items) => ['['] + (pre + SpellItems(items))
    case Record(pre, fields) => ['{'] + (pre + SpellFields(fields))
  }

  function SpellItems(items: Items): string {
    match items
    case NoItems => "]"
    case LastItem(d, g) => Spell(d) + (g + [']'])
    case MoreItems(d, g, h, rest) => Spell(d) + (g + ([','] + (h + SpellItems(rest))))
  }

  function SpellFields(fields: Fields): string {
    match fields
    case NoFields => "}"
    case LastField(key, g, h, d, i) => Spell(key) + (g + ([':'] + (h + (Spell(d) + (i + ['}'])))))
    case MoreFields(key, g, h, d, i, j, rest) =>
      Spell(key) + (g + ([':'] + (h + (Spell(d) + (i + ([','] + (j + SpellFields(rest))))))))
  }

  /** The three words, numbers and strings are spelled as they may be; gaps are white space; a number that is a key needs some
      behind it. */
  ghost predicate Fits(rs: Reals, d: Doc) {
    match d
    case Word(w) => w == "null" || w == "true" || w == "false"
    case Number(t) => ReadsNumber(rs, t)
    case Quote(ps) => PiecesOk(ps)
    case List(pre, items) => AllSpace(pre) && ItemsFit(rs, items)
    case Record(pre, fields) => AllSpace(pre) && FieldsFit(rs, fields)
  }

  ghost predicate ItemsFit(rs: Reals, items: Items) {
    match items
    case NoItems => true
    case LastItem(d, g) => Fits(rs, d) && AllSpace(g)
    case MoreItems(d, g, h, rest) => Fits(rs, d) && AllSpace(g) && AllSpace(h) && rest != NoItems && ItemsFit(rs, rest)
  }

  ghost predicate FieldsFit(rs: Reals, fields: Fields) {
    match fields
    case NoFields => true
    case LastField(key, g, h, d, i) =>
      Fits(rs, key) && AllSpace(g) && (key.Number? ==> g != "") && AllSpace(h) && Fits(rs, d) && AllSpace(i)
    case MoreFields(key, g, h, d, i, j, rest) =>
      && Fits(rs, key) && AllSpace(g) && (key.Number? ==> g != "") && AllSpace(h) && Fits(rs, d) && AllSpace(i) && AllSpace(j)
      && rest != NoFields && FieldsFit(rs, rest)
  }

  // ----- what a text stands for

  ghost function Meaning(rs: Reals, d: Doc): JSON
    requires Fits(rs, d)
  {
    match d
    case Word(w) => if w == "null" then Null else Boolean(w == "true")
    case Number(t) => NumberRead(rs, t)
    case Quote(ps) => Str(PiecesRead(ps))
    case List(_, items) => Array(ItemsMean(rs, items))
    case Record(_, fields) => Object(Ordered(Assignments(rs, fields)))
  }

  ghost function ItemsMean(rs: Reals, items: Items): seq<JSON>
    requires ItemsFit(rs, items)
  {
    match items
    case NoItems => []
    case LastItem(d, _) => [Meaning(rs, d)]
    case MoreItems(d, _, _, rest) => [Meaning(rs, d)] + ItemsMean(rs, rest)
  }

  /** Keys and values as they are read, one after the other. */
  ghost function Assignments(rs: Reals, fields: Fields): seq<Field>
    requires FieldsFit(rs, fields)
  {
    match fields
    case NoFields => []
    case LastField(key, _, _, d, _) => [Field(AsString(Meaning(rs, key)), Meaning(rs, d))]
    case MoreFields(key, _, _, d, _, _, rest) =>
      [Field(AsString(Meaning(rs, key)), Meaning(rs, d))] + Assignments(rs, rest)
  }

  /** The last value for each key, the keys in order: there is just one such list. */
  ghost function Ordered(assignments: seq<Field>): (fields: seq<Field>)
    ensures KeysIncrease(fields) && AsMap(fields) == AsMap(assignments)
    ensures forall other :: KeysIncrease(other) && AsMap(other) == AsMap(assignments) ==> other == fields
  {
    OrderedIs(assignments);
    PutAll([], assignments)
  }

  ghost function PutAll(acc: seq<Field>, assignments: seq<Field>): seq<Field>
    decreases |assignments|
  {
    if assignments == [] then acc else PutAll(Put(acc, assignments[0].key, assignments[0].value), assignments[1..])
  }

  lemma {:induction false} PutAllLast(acc: seq<Field>, a: seq<Field>, f: Field)
    ensures PutAll(acc, a + [f]) == Put(PutAll(acc, a), f.key, f.value)
    decreases |a|
  {
    hide Put;
    if a == [] {
      assert [f][1..] == [] && a + [f] == [f];
    } else {
      assert (a + [f])[0] == a[0] && (a + [f])[1..] == a[1..] + [f];
      PutAllLast(Put(acc, a[0].key, a[0].value), a[1..], f);
    }
  }

  lemma {:induction false} PutAllIs(assignments: seq<Field>)
    ensures var r := PutAll([], assignments); KeysIncrease(r) && AsMap(r) == AsMap(assignments)
    decreases |assignments|
  {
    hide Put;
    if assignments != [] {
      var n := |assignments| - 1;
      var a, f := assignments[..n], assignments[n];
      assert assignments == a + [f];
      PutAllIs(a);
      PutAllLast([], a, f);
      PutIsUpdate(PutAll([], a), f.key, f.value);
    }
  }

  lemma OrderedIs(assignments: seq<Field>)
    ensures var r := PutAll([], assignments); KeysIncrease(r) && AsMap(r) == AsMap(assignments)
    ensures forall other :: KeysIncrease(other) && AsMap(other) == AsMap(assignments) ==> other == PutAll([], assignments)
  {
    hide *;
    PutAllIs(assignments);
    var r := PutAll([], assignments);
    forall other | KeysIncrease(other) && AsMap(other) == AsMap(assignments)
      ensures other == r
    {
      OneOrder(other, r);
    }
  }

  /** What the map of the assignments holds for a key is the value last read for it. */
  lemma {:induction false} LastRead(a: seq<Field>, k: string)
    ensures k in AsMap(a) ==>
              exists i :: 0 <= i < |a| && a[i].key == k && AsMap(a)[k] == a[i].value && forall j :: i < j < |a| ==> a[j].key != k
    ensures k !in AsMap(a) ==> forall i :: 0 <= i < |a| ==> a[i].key != k
    decreases |a|
  {
    if a != [] {
      var n := |a| - 1;
      LastRead(a[..n], k);
      if a[n].key == k {
        assert AsMap(a)[k] == a[n].value;
      } else if k in AsMap(a) {
        var i :| 0 <= i < n && a[..n][i].key == k && AsMap(a[..n])[k] == a[..n][i].value
                 && forall j :: i < j < n ==> a[..n][j].key != k;
        assert a[i].key == k;
        assert forall j :: i < j < |a| ==> a[j].key != k;
      } else {
        forall i | 0 <= i < |a|
          ensures a[i].key != k
        {
          assert i < n ==> a[..n][i].key != k;
        }
      }
    }
  }
}
