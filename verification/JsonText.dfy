/** JSON values, their two printed forms, and the characters of the text format. */
module JsonText {

  /** Object fields are kept in key order, as in a sorted map. A floating number stands for itself by the text that it is
      printed as. */
  datatype JSON =
    | Null
    | Boolean(b: bool)
    | Integral(n: int)
    | Floating(text: string)
    | Str(s: string)
    | Array(items: seq<JSON>)
    | Object(fields: seq<Field>)

  datatype Field = Field(key: string, value: JSON)

  const BACKSPACE: char := '\U{0008}'
  const FORMFEED: char := '\U{000C}'
  const VTAB: char := '\U{000B}'

  predicate IsSpace(c: char) {
    c == ' ' || c == '\t' || c == '\n' || c == '\r' || c == VTAB || c == FORMFEED
  }

  predicate IsDigit(c: char) {
    '0' <= c <= '9'
  }

  predicate IsHex(c: char) {
    IsDigit(c) || 'a' <= c <= 'f' || 'A' <= c <= 'F'
  }

  ghost predicate AllSpace(s: string) {
    forall i :: 0 <= i < |s| ==> IsSpace(s[i])
  }

  // ----- escaping

  function EscapeChar(c: char): string {
    if c == '\"' then "\\\""
    else if c == '\\' then "\\\\"
    else if c == BACKSPACE then "\\b"
    else if c == FORMFEED then "\\f"
    else if c == '\n' then "\\n"
    else if c == '\r' then "\\r"
    else if c == '\t' then "\\t"
    else [c]
  }

  function Escape(s: string): string {
    if s == [] then [] else EscapeChar(s[0]) + Escape(s[1..])
  }

  // ----- integers

  const INT64_MIN: int := -0x8000_0000_0000_0000
  const INT64_MAX: int := 0x7fff_ffff_ffff_ffff

  function DigitChar(d: nat): (c: char)
    requires d < 10
    ensures IsDigit(c) && DigitValue(c) == d
  {
    ('0' as int + d) as char
  }

  function DigitValue(c: char): (d: nat)
    requires IsDigit(c)
    ensures d < 10
  {
    c as int - '0' as int
  }

  function Decimal(n: nat): (s: string)
    ensures |s| > 0 && forall i :: 0 <= i < |s| ==> IsDigit(s[i])
  {
    if n < 10 then [DigitChar(n)] else Decimal(n / 10) + [DigitChar(n % 10)]
  }

  function IntText(n: int): (s: string)
    ensures |s| > 0 && (IsDigit(s[0]) || s[0] == '-')
    ensures forall i :: 0 <= i < |s| ==> IsDigit(s[i]) || s[i] == '-'
  {
    if n < 0 then "-" + Decimal(-n) else Decimal(n)
  }

  /** The value of a run of digits. */
  function Horner(s: string): nat
    requires forall i :: 0 <= i < |s| ==> IsDigit(s[i])
  {
    if s == [] then 0 else 10 * Horner(s[..|s| - 1]) + DigitValue(s[|s| - 1])
  }

  lemma {:induction false} HornerOfDecimal(n: nat)
    ensures Horner(Decimal(n)) == n
  {
    if n < 10 {
      assert Decimal(n)[..0] == [];
    } else {
      HornerOfDecimal(n / 10);
      assert Decimal(n)[..|Decimal(n)| - 1] == Decimal(n / 10);
    }
  }

  // ----- key order

  /** Lexicographic order of strings. */
  predicate Less(a: string, b: string) {
    b != [] && (a == [] || a[0] < b[0] || (a[0] == b[0] && Less(a[1..], b[1..])))
  }

  lemma {:induction false} LessIsStrict(a: string, b: string)
    requires Less(a, b)
    ensures a != b && !Less(b, a)
  {
    if a != [] && a[0] == b[0] {
      LessIsStrict(a[1..], b[1..]);
    }
  }

  /** `object[key] = value`: replaces the field or puts a new one at its place in the order. */
  function Put(fields: seq<Field>, key: string, value: JSON): seq<Field> {
    if fields == [] then [Field(key, value)]
    else if fields[0].key == key then [Field(key, value)] + fields[1..]
    else if Less(key, fields[0].key) then [Field(key, value)] + fields
    else [fields[0]] + Put(fields[1..], key, value)
  }

  ghost predicate KeysIncrease(fields: seq<Field>) {
    forall i, j :: 0 <= i < j < |fields| ==> Less(fields[i].key, fields[j].key)
  }

  /** A key beyond all others goes to the end. */
  lemma {:induction false} PutLast(fields: seq<Field>, key: string, value: JSON)
    requires forall i :: 0 <= i < |fields| ==> Less(fields[i].key, key)
    ensures Put(fields, key, value) == fields + [Field(key, value)]
  {
    if fields != [] {
      LessIsStrict(fields[0].key, key);
      PutLast(fields[1..], key, value);
    }
  }

  // ----- printing

  /** How the printers fill the gaps: not at all, or with line breaks and a tab per level. */
  datatype Layout = Minified | Pretty(tab: string)

  function Pad(tab: string, depth: nat): string {
    if depth == 0 then "" else Pad(tab, depth - 1) + tab
  }

  function OpenGap(lay: Layout): string {
    if lay.Minified? then "" else "\n"
  }

  function ItemGap(lay: Layout, depth: nat): string {
    if lay.Minified? then "" else Pad(lay.tab, depth)
  }

  function SepGap(lay: Layout): string {
    if lay.Minified? then "" else "\n"
  }

  function ColonGap(lay: Layout): string {
    if lay.Minified? then "" else " "
  }

  /** The pretty printer erases one tab from the front of the padding before a closing bracket. */
  function CloseGap(lay: Layout, depth: nat): string {
    if lay.Minified? then ""
    else
      var pad := Pad(lay.tab, depth);
      "\n" + (if |lay.tab| <= |pad| then pad[|lay.tab|..] else "")
  }

  function Text(v: JSON, lay: Layout, depth: nat): string
    decreases v, 1
  {
    match v
    case Null => "null"
    case Boolean(b) => if b then "true" else "false"
    case Integral(n) => IntText(n)
    case Floating(t) => t
    case Str(s) => Quoted(Escape(s))
    case Array(items) => ['['] + (OpenGap(lay) + ItemsText(items, lay, depth, CloseGap(lay, depth) + [']']))
    case Object(fields) => ['{'] + (OpenGap(lay) + FieldsText(fields, lay, depth, CloseGap(lay, depth) + ['}']))
  }

  function Quoted(s: string): string {
    ['\"'] + (s + ['\"'])
  }

  /** The items of an array, each behind its gap, and the end of the array. */
  function ItemsText(items: seq<JSON>, lay: Layout, depth: nat, close: string): string
    decreases items, 1
  {
    if items == [] then close else ItemGap(lay, depth) + ItemsRest(items, lay, depth, close)
  }

  /** The same without the first gap. */
  function ItemsRest(items: seq<JSON>, lay: Layout, depth: nat, close: string): string
    requires items != []
    decreases items, 0
  {
    Text(items[0], lay, depth + 1)
    + if |items| == 1 then close
      else [','] + (SepGap(lay) + (ItemGap(lay, depth) + ItemsRest(items[1..], lay, depth, close)))
  }

  function FieldsText(fields: seq<Field>, lay: Layout, depth: nat, close: string): string
    decreases fields, 1
  {
    if fields == [] then close else ItemGap(lay, depth) + FieldsRest(fields, lay, depth, close)
  }

  function FieldsRest(fields: seq<Field>, lay: Layout, depth: nat, close: string): string
    requires fields != []
    decreases fields, 0
  {
    FieldText(fields[0], lay, depth)
    + if |fields| == 1 then close
      else [','] + (SepGap(lay) + (ItemGap(lay, depth) + FieldsRest(fields[1..], lay, depth, close)))
  }

  function FieldText(f: Field, lay: Layout, depth: nat): string
    decreases f, 0
  {
    Quoted(f.key) + ([':'] + (ColonGap(lay) + Text(f.value, lay, depth + 1)))
  }
}
