/** The two printers as the loops run them. */
module JsonPrinter {
  import opened JsonText

  method JsonEscape(fmt: string) returns (output: string)
    ensures output == Escape(fmt)
  {
    output := "";
    for i := 0 to |fmt|
      invariant output + Escape(fmt[i..]) == Escape(fmt)
    {
      EscapeStep(output, fmt[i..], Escape(fmt));
      assert fmt[i..][1..] == fmt[i + 1..];
      output := output + EscapeChar(fmt[i]);
    }
    assert output + [] == output;
  }

  lemma EscapeStep(output: string, rest: string, all: string)
    requires rest != [] && output + Escape(rest) == all
    ensures output + EscapeChar(rest[0]) + Escape(rest[1..]) == all
  {
    hide EscapeChar;
  }

  method PadOf(tab: string, depth: nat) returns (pad: string)
    ensures pad == Pad(tab, depth)
  {
    pad := "";
    for i := 0 to depth
      invariant pad == Pad(tab, i)
    {
      pad := pad + tab;
    }
  }

  /** `pad.erase(0, length)`. */
  function Erased(pad: string, length: nat): string {
    if length <= |pad| then pad[length..] else ""
  }

  // ----- what is still to come after the first `k` items

  ghost function ItemsPending(items: seq<JSON>, k: nat, lay: Layout, depth: nat, close: string): string
    requires k <= |items|
  {
    if k == |items| then close
    else Separator(k, lay) + (ItemGap(lay, depth) + ItemsRest(items[k..], lay, depth, close))
  }

  ghost function FieldsPending(fields: seq<Field>, k: nat, lay: Layout, depth: nat, close: string): string
    requires k <= |fields|
  {
    if k == |fields| then close
    else Separator(k, lay) + (ItemGap(lay, depth) + FieldsRest(fields[k..], lay, depth, close))
  }

  function Separator(k: nat, lay: Layout): string {
    if k == 0 then "" else [','] + SepGap(lay)
  }

  lemma ItemsStart(items: seq<JSON>, lay: Layout, depth: nat)
    ensures Text(Array(items), lay, depth)
         == ['['] + OpenGap(lay) + ItemsPending(items, 0, lay, depth, CloseGap(lay, depth) + [']'])
  {
    hide ItemsRest, OpenGap, ItemGap, CloseGap;
    assert items[0..] == items;
  }

  lemma FieldsStart(fields: seq<Field>, lay: Layout, depth: nat)
    ensures Text(Object(fields), lay, depth)
         == ['{'] + OpenGap(lay) + FieldsPending(fields, 0, lay, depth, CloseGap(lay, depth) + ['}'])
  {
    hide FieldsRest, OpenGap, ItemGap, CloseGap;
    assert fields[0..] == fields;
  }

  lemma ItemsStep(items: seq<JSON>, k: nat, lay: Layout, depth: nat, close: string)
    requires k < |items|
    ensures ItemsPending(items, k, lay, depth, close)
         == Separator(k, lay)
            + (ItemGap(lay, depth) + (Text(items[k], lay, depth + 1) + ItemsPending(items, k + 1, lay, depth, close)))
  {
    hide Text, ItemGap, SepGap;
    var rest := items[k..];
    if k + 1 < |items| {
      assert rest[1..] == items[k + 1..];
      Regroup([','], SepGap(lay), ItemGap(lay, depth) + ItemsRest(rest[1..], lay, depth, close));
    }
  }

  lemma FieldsStep(fields: seq<Field>, k: nat, lay: Layout, depth: nat, close: string)
    requires k < |fields|
    ensures FieldsPending(fields, k, lay, depth, close)
         == Separator(k, lay)
            + (ItemGap(lay, depth) + (FieldText(fields[k], lay, depth) + FieldsPending(fields, k + 1, lay, depth, close)))
  {
    hide FieldText, ItemGap, SepGap;
    var rest := fields[k..];
    if k + 1 < |fields| {
      assert rest[1..] == fields[k + 1..];
      Regroup([','], SepGap(lay), ItemGap(lay, depth) + FieldsRest(rest[1..], lay, depth, close));
    }
  }

  lemma Regroup(a: string, b: string, c: string)
    ensures (a + b) + c == a + (b + c)
  {
  }

  lemma Appended(s: string, sep: string, pad: string, t: string, rest: string)
    ensures s + sep + (pad + t) + rest == s + (sep + (pad + (t + rest)))
  {
  }

  lemma FieldParts(f: Field, lay: Layout, depth: nat, t: string)
    requires t == Text(f.value, lay, depth + 1)
    ensures ['\"'] + f.key + (if lay.Minified? then "\":" else "\": ") + t == FieldText(f, lay, depth)
  {
    hide Text;
    assert "\":" + t == "\"" + (":" + t);
    assert "\": " + t == "\"" + (":" + (" " + t));
  }

  method Dump(v: JSON, depth: nat, tab: string) returns (s: string)
    ensures s == Text(v, Pretty(tab), depth)
    decreases v, 1
  {
    match v
    case Null => s := "null";
    case Boolean(b) => s := if b then "true" else "false";
    case Integral(n) => s := IntText(n);
    case Floating(t) => s := t;
    case Str(u) =>
      var e := JsonEscape(u);
      s := "\"" + (e + "\"");
    case Array(items) => s := DumpArray(items, depth, tab);
    case Object(fields) => s := DumpObject(fields, depth, tab);
  }

  method DumpArray(items: seq<JSON>, depth: nat, tab: string) returns (s: string)
    ensures s == Text(Array(items), Pretty(tab), depth)
    decreases items, 0
  {
    hide Text, ItemsPending;
    ghost var lay, close := Pretty(tab), CloseGap(Pretty(tab), depth) + [']'];
    var pad := PadOf(tab, depth);
    s := "[\n";
    ItemsStart(items, lay, depth);
    for k := 0 to |items|
      invariant s + ItemsPending(items, k, lay, depth, close) == Text(Array(items), lay, depth)
    {
      var t := Dump(items[k], depth + 1, tab);
      ItemsStep(items, k, lay, depth, close);
      Appended(s, Separator(k, lay), pad, t, ItemsPending(items, k + 1, lay, depth, close));
      if k > 0 {
        s := s + ",\n";
      } else {
        s := s + "";
      }
      s := s + (pad + t);
    }
    AllPrinted(items, lay, depth, close);
    s := s + ("\n" + Erased(pad, |tab|) + "]");
  }

  lemma AllPrinted(items: seq<JSON>, lay: Layout, depth: nat, close: string)
    ensures ItemsPending(items, |items|, lay, depth, close) == close
  {
  }

  lemma AllFieldsPrinted(fields: seq<Field>, lay: Layout, depth: nat, close: string)
    ensures FieldsPending(fields, |fields|, lay, depth, close) == close
  {
  }

  method DumpObject(fields: seq<Field>, depth: nat, tab: string) returns (s: string)
    ensures s == Text(Object(fields), Pretty(tab), depth)
    decreases fields, 0
  {
    hide Text, FieldsPending, FieldText;
    ghost var lay, close := Pretty(tab), CloseGap(Pretty(tab), depth) + ['}'];
    var pad := PadOf(tab, depth);
    s := "{\n";
    FieldsStart(fields, lay, depth);
    for k := 0 to |fields|
      invariant s + FieldsPending(fields, k, lay, depth, close) == Text(Object(fields), lay, depth)
    {
      var f := fields[k];
      var t := Dump(f.value, depth + 1, tab);
      FieldParts(f, lay, depth, t);
      FieldsStep(fields, k, lay, depth, close);
      Appended(s, Separator(k, lay), pad, FieldText(f, lay, depth), FieldsPending(fields, k + 1, lay, depth, close));
      if k > 0 {
        s := s + ",\n";
      } else {
        s := s + "";
      }
      s := s + (pad + ("\"" + f.key + "\": " + t));
    }
    AllFieldsPrinted(fields, lay, depth, close);
    s := s + ("\n" + Erased(pad, |tab|) + "}");
  }

  method DumpMinified(v: JSON) returns (s: string)
    ensures s == Text(v, Minified, 0)
  {
    s := DumpMinifiedAt(v, 0);
  }

  /** The depth plays no part in the text. */
  method DumpMinifiedAt(v: JSON, ghost depth: nat) returns (s: string)
    ensures s == Text(v, Minified, depth)
    decreases v, 1
  {
    match v
    case Null => s := "null";
    case Boolean(b) => s := if b then "true" else "false";
    case Integral(n) => s := IntText(n);
    case Floating(t) => s := t;
    case Str(u) =>
      var e := JsonEscape(u);
      s := "\"" + (e + "\"");
    case Array(items) => s := DumpMinifiedArray(items, depth);
    case Object(fields) => s := DumpMinifiedObject(fields, depth);
  }

  method DumpMinifiedArray(items: seq<JSON>, ghost depth: nat) returns (s: string)
    ensures s == Text(Array(items), Minified, depth)
    decreases items, 0
  {
    hide Text, ItemsPending;
    ghost var lay, close := Minified, CloseGap(Minified, depth) + [']'];
    s := "[";
    ItemsStart(items, lay, depth);
    for k := 0 to |items|
      invariant s + ItemsPending(items, k, lay, depth, close) == Text(Array(items), lay, depth)
    {
      var t := DumpMinifiedAt(items[k], depth + 1);
      ItemsStep(items, k, lay, depth, close);
      Appended(s, Separator(k, lay), "", t, ItemsPending(items, k + 1, lay, depth, close));
      if k > 0 {
        s := s + ",";
      }
      s := s + t;
    }
    AllPrinted(items, lay, depth, close);
    s := s + "]";
  }

  method DumpMinifiedObject(fields: seq<Field>, ghost depth: nat) returns (s: string)
    ensures s == Text(Object(fields), Minified, depth)
    decreases fields, 0
  {
    hide Text, FieldsPending, FieldText;
    ghost var lay, close := Minified, CloseGap(Minified, depth) + ['}'];
    s := "{";
    FieldsStart(fields, lay, depth);
    for k := 0 to |fields|
      invariant s + FieldsPending(fields, k, lay, depth, close) == Text(Object(fields), lay, depth)
    {
      var f := fields[k];
      var t := DumpMinifiedAt(f.value, depth + 1);
      FieldParts(f, lay, depth, t);
      FieldsStep(fields, k, lay, depth, close);
      Appended(s, Separator(k, lay), "", FieldText(f, lay, depth), FieldsPending(fields, k + 1, lay, depth, close));
      if k > 0 {
        s := s + ",";
      }
      s := s + ("\"" + f.key + "\":" + t);
    }
    AllFieldsPrinted(fields, lay, depth, close);
    s := s + "}";
  }
}
