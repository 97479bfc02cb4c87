/** What the two printers write, line by line and token by token. */
module JsonLayout {
  import opened JsonText
  import opened JsonCut

  // ----- characters and integers

  /** Just seven characters are escaped, each by a backslash and a character of its own. */
  lemma SevenEscapes(c: char)
    ensures EscapeChar(c) ==
              match c
              case '\"' => ['\\', '\"']
              case '\\' => ['\\', '\\']
              case '\U{0008}' => ['\\', 'b']
              case '\U{000C}' => ['\\', 'f']
              case '\U{000A}' => ['\\', 'n']
              case '\U{000D}' => ['\\', 'r']
              case '\U{0009}' => ['\\', 't']
              case _ => [c]
  {
  }

  /** No integer but zero starts with a zero. */
  lemma {:induction false} NoLeadingZero(n: nat)
    requires n > 0
    ensures Decimal(n)[0] != '0'
  {
    if n >= 10 {
      NoLeadingZero(n / 10);
    }
  }

  // ----- minified

  /** Tokens side by side. */
  function Compact(v: JSON): string
    decreases v, 1
  {
    match v
    case Null => "null"
    case Boolean(b) => if b then "true" else "false"
    case Integral(n) => IntText(n)
    case Floating(t) => t
    case Str(s) => "\"" + Escape(s) + "\""
    case Array(items) => "[" + CompactItems(items) + "]"
    case Object(fields) => "{" + CompactFields(fields) + "}"
  }

  function CompactItems(items: seq<JSON>): string
    decreases items, 0
  {
    if items == [] then ""
    else if |items| == 1 then Compact(items[0])
    else Compact(items[0]) + "," + CompactItems(items[1..])
  }

  function CompactFields(fields: seq<Field>): string
    decreases fields, 0
  {
    if fields == [] then ""
    else
      var f := "\"" + fields[0].key + "\":" + Compact(fields[0].value);
      if |fields| == 1 then f else f + "," + CompactFields(fields[1..])
  }

  /** The minified form holds nothing but the tokens. */
  lemma {:induction false} MinifiedIsCompact(v: JSON, depth: nat)
    ensures Text(v, Minified, depth) == Compact(v)
    decreases v, 1
  {
    hide Escape, IntText;
    match v
    case Array(items) =>
      CompactItemsRest(items, depth);
      if items != [] {
        ItemsOpen(items, Minified, depth, "", "]");
        assert "" + ("" + (CompactItems(items) + "]")) == CompactItems(items) + "]";
        assert "" + [']'] == "" + "]";
      }
    case Object(fields) =>
      CompactFieldsRest(fields, depth);
      if fields != [] {
        FieldsOpen(fields, Minified, depth, "", "}");
        assert "" + ("" + (CompactFields(fields) + "}")) == CompactFields(fields) + "}";
        assert "" + ['}'] == "" + "}";
      }
    case _ =>
  }

  lemma {:induction false} CompactItemsRest(items: seq<JSON>, depth: nat)
    ensures items != [] ==> ItemsRest(items, Minified, depth, "") == CompactItems(items)
    decreases items, 0
  {
    hide Text, Compact;
    if items != [] {
      MinifiedIsCompact(items[0], depth + 1);
      CompactItemsRest(items[1..], depth);
      var t := Compact(items[0]);
      assert t + "" == t;
      if |items| > 1 {
        var r := CompactItems(items[1..]);
        assert t + ([','] + ("" + ("" + r))) == t + "," + r;
      }
    }
  }

  lemma {:induction false} CompactFieldsRest(fields: seq<Field>, depth: nat)
    ensures fields != [] ==> FieldsRest(fields, Minified, depth, "") == CompactFields(fields)
    decreases fields, 0
  {
    hide Text, Compact;
    if fields != [] {
      MinifiedIsCompact(fields[0].value, depth + 1);
      CompactFieldsRest(fields[1..], depth);
      var k, t := fields[0].key, Compact(fields[0].value);
      var f := "\"" + k + "\":" + t;
      assert ['\"'] + (k + ['\"']) + ([':'] + ("" + t)) == f;
      assert f + "" == f;
      if |fields| > 1 {
        var r := CompactFields(fields[1..]);
        assert f + ([','] + ("" + ("" + r))) == f + "," + r;
      }
    }
  }

  // ----- pretty

  /** A line, with how many tabs stand in front of it. */
  datatype Line = Line(level: nat, text: string)

  function Tabs(tab: string, n: nat): string {
    if n == 0 then "" else tab + Tabs(tab, n - 1)
  }

  function Rendered(l: Line, tab: string): string {
    Tabs(tab, l.level) + l.text
  }

  /** The lines with line breaks between them. */
  function Joined(lines: seq<Line>, tab: string): string
    requires lines != []
  {
    if |lines| == 1 then Rendered(lines[0], tab) else Rendered(lines[0], tab) + "\n" + Joined(lines[1..], tab)
  }

  /** The brackets of a value stand one level before its items. */
  function Level(depth: nat): nat {
    if depth == 0 then 0 else depth - 1
  }

  /** The lines of a value: `pre` stands in front of it, `post` behind it. Each item and each field starts on a line of its own,
      `depth` levels in; the closing bracket has a line of its own; between the brackets of an empty value lies an empty line. */
  function Lines(pre: string, v: JSON, depth: nat, post: string): (r: seq<Line>)
    ensures r != []
    decreases v, 1
  {
    match v
    case Array(items) =>
      [Line(Level(depth), pre + "[")] + (if items == [] then [Line(0, "")] else ItemLines(items, depth))
      + [Line(Level(depth), "]" + post)]
    case Object(fields) =>
      [Line(Level(depth), pre + "{")] + (if fields == [] then [Line(0, "")] else FieldLines(fields, depth))
      + [Line(Level(depth), "}" + post)]
    case _ => [Line(Level(depth), pre + Compact(v) + post)]
  }

  function ItemLines(items: seq<JSON>, depth: nat): (r: seq<Line>)
    requires items != []
    ensures r != []
    decreases items, 0
  {
    if |items| == 1 then Lines("", items[0], depth + 1, "")
    else Lines("", items[0], depth + 1, ",") + ItemLines(items[1..], depth)
  }

  function FieldLines(fields: seq<Field>, depth: nat): (r: seq<Line>)
    requires fields != []
    ensures r != []
    decreases fields, 0
  {
    var pre := "\"" + fields[0].key + "\": ";
    if |fields| == 1 then Lines(pre, fields[0].value, depth + 1, "")
    else Lines(pre, fields[0].value, depth + 1, ",") + FieldLines(fields[1..], depth)
  }

  lemma {:induction false} TabsLast(tab: string, n: nat)
    ensures tab + Tabs(tab, n) == Tabs(tab, n) + tab
  {
    if n > 0 {
      TabsLast(tab, n - 1);
      assert tab + (tab + Tabs(tab, n - 1)) == tab + (Tabs(tab, n - 1) + tab) == tab + Tabs(tab, n - 1) + tab;
    }
  }

  lemma {:induction false} PadIsTabs(tab: string, n: nat)
    ensures Pad(tab, n) == Tabs(tab, n)
  {
    if n > 0 {
      PadIsTabs(tab, n - 1);
      TabsLast(tab, n - 1);
    }
  }

  /** Erasing one tab leaves one level less. */
  lemma CloseIsTabs(tab: string, depth: nat)
    ensures CloseGap(Pretty(tab), depth) == "\n" + Tabs(tab, Level(depth))
  {
    PadIsTabs(tab, depth);
    if depth > 0 {
      assert (tab + Tabs(tab, depth - 1))[|tab|..] == Tabs(tab, depth - 1);
    }
  }

  lemma {:induction false} JoinedTwo(a: seq<Line>, b: seq<Line>, tab: string)
    requires a != [] && b != []
    ensures Joined(a + b, tab) == Joined(a, tab) + "\n" + Joined(b, tab)
    decreases |a|
  {
    hide Rendered;
    if |a| == 1 {
      assert (a + b)[0] == a[0] && (a + b)[1..] == b;
    } else {
      assert (a + b)[0] == a[0] && (a + b)[1..] == a[1..] + b;
      JoinedTwo(a[1..], b, tab);
      var x, y, z := Rendered(a[0], tab), Joined(a[1..], tab), Joined(b, tab);
      assert x + "\n" + (y + "\n" + z) == (x + "\n" + y) + "\n" + z;
    }
  }

  lemma JoinedThree(a: Line, b: seq<Line>, c: Line, tab: string)
    requires b != []
    ensures Joined([a] + b + [c], tab) == Rendered(a, tab) + "\n" + Joined(b, tab) + "\n" + Rendered(c, tab)
  {
    hide Rendered;
    JoinedTwo([a] + b, [c], tab);
    JoinedTwo([a], b, tab);
  }

  /** The pretty form is just those lines. */
  lemma {:induction false} PrettyIsLines(pre: string, v: JSON, tab: string, depth: nat, post: string)
    ensures Joined(Lines(pre, v, depth, post), tab) == Tabs(tab, Level(depth)) + (pre + (Text(v, Pretty(tab), depth) + post))
    decreases v, 1
  {
    match v
    case Array(items) => PrettyArray(pre, items, tab, depth, post);
    case Object(fields) => PrettyObject(pre, fields, tab, depth, post);
    case _ => PrettyScalar(pre, v, tab, depth, post);
  }

  lemma PrettyScalar(pre: string, v: JSON, tab: string, depth: nat, post: string)
    requires !v.Array? && !v.Object?
    ensures Joined(Lines(pre, v, depth, post), tab) == Tabs(tab, Level(depth)) + (pre + (Text(v, Pretty(tab), depth) + post))
  {
    hide Escape, IntText, Tabs;
    assert Text(v, Pretty(tab), depth) == Compact(v);
    assert pre + Compact(v) + post == pre + (Compact(v) + post);
  }

  lemma {:induction false} PrettyArray(pre: string, items: seq<JSON>, tab: string, depth: nat, post: string)
    ensures Joined(Lines(pre, Array(items), depth, post), tab)
         == Tabs(tab, Level(depth)) + (pre + (Text(Array(items), Pretty(tab), depth) + post))
    decreases items, 2
  {
    hide Tabs, ItemsRest, Level, Text, Joined, Rendered;
    var pad := Tabs(tab, Level(depth));
    var lines := if items == [] then [Line(0, "")] else ItemLines(items, depth);
    JoinedThree(Line(Level(depth), pre + "["), lines, Line(Level(depth), "]" + post), tab);
    RenderedIs(Level(depth), pre + "[", tab);
    RenderedIs(Level(depth), "]" + post, tab);
    var inner := if items == [] then "" else ItemGap(Pretty(tab), depth) + ItemsRest(items, Pretty(tab), depth, "");
    if items == [] {
      NoTabs(tab);
    } else {
      PrettyItems(items, tab, depth);
    }
    ArrayText(items, tab, depth);
    Framed(pad, pre, "[", "]", inner, post);
  }

  lemma ArrayText(items: seq<JSON>, tab: string, depth: nat)
    ensures var inner := if items == [] then "" else ItemGap(Pretty(tab), depth) + ItemsRest(items, Pretty(tab), depth, "");
            Text(Array(items), Pretty(tab), depth) == "[" + ("\n" + (inner + (("\n" + Tabs(tab, Level(depth))) + "]")))
  {
    hide Tabs, ItemsRest, Level, CloseGap, ItemGap;
    CloseIsTabs(tab, depth);
    var lay, close := Pretty(tab), CloseGap(Pretty(tab), depth);
    assert close + [']'] == close + "]";
    if items != [] {
      ItemsOpen(items, lay, depth, "", close + "]");
      assert "" + (close + "]") == close + "]";
      var g, body := ItemGap(lay, depth), ItemsRest(items, lay, depth, "");
      assert g + (body + (close + "]")) == (g + body) + (close + "]");
    } else {
      assert "" + (close + "]") == close + "]";
    }
  }

  lemma RenderedIs(level: nat, text: string, tab: string)
    ensures Rendered(Line(level, text), tab) == Tabs(tab, level) + text
  {
  }

  lemma Framed(pad: string, pre: string, open: string, close: string, inner: string, post: string)
    ensures pad + (pre + open) + "\n" + inner + "\n" + (pad + (close + post))
         == pad + (pre + ((open + ("\n" + (inner + (("\n" + pad) + close)))) + post))
  {
  }

  lemma NoTabs(tab: string)
    ensures Joined([Line(0, "")], tab) == ""
  {
  }

  lemma {:induction false} PrettyItems(items: seq<JSON>, tab: string, depth: nat)
    requires items != []
    ensures Joined(ItemLines(items, depth), tab) == ItemGap(Pretty(tab), depth) + ItemsRest(items, Pretty(tab), depth, "")
    decreases items, 1
  {
    hide Tabs, Text, Lines, Joined;
    var lay, g := Pretty(tab), ItemGap(Pretty(tab), depth);
    PadIsTabs(tab, depth);
    var t := Text(items[0], lay, depth + 1);
    PrettyIsLines("", items[0], tab, depth + 1, if |items| == 1 then "" else ",");
    if |items| == 1 {
      assert g + ("" + (t + "")) == g + (t + "");
    } else {
      PrettyItems(items[1..], tab, depth);
      JoinedTwo(Lines("", items[0], depth + 1, ","), ItemLines(items[1..], depth), tab);
      var r := ItemsRest(items[1..], lay, depth, "");
      assert g + ("" + (t + ",")) + "\n" + (g + r) == g + (t + ([','] + ("\n" + (g + r))));
    }
  }

  lemma {:induction false} PrettyObject(pre: string, fields: seq<Field>, tab: string, depth: nat, post: string)
    ensures Joined(Lines(pre, Object(fields), depth, post), tab)
         == Tabs(tab, Level(depth)) + (pre + (Text(Object(fields), Pretty(tab), depth) + post))
    decreases fields, 2
  {
    hide Tabs, FieldsRest, Level, Text, Joined, Rendered;
    var pad := Tabs(tab, Level(depth));
    var lines := if fields == [] then [Line(0, "")] else FieldLines(fields, depth);
    JoinedThree(Line(Level(depth), pre + "{"), lines, Line(Level(depth), "}" + post), tab);
    RenderedIs(Level(depth), pre + "{", tab);
    RenderedIs(Level(depth), "}" + post, tab);
    var inner := if fields == [] then "" else ItemGap(Pretty(tab), depth) + FieldsRest(fields, Pretty(tab), depth, "");
    if fields == [] {
      NoTabs(tab);
    } else {
      PrettyFields(fields, tab, depth);
    }
    ObjectText(fields, tab, depth);
    Framed(pad, pre, "{", "}", inner, post);
  }

  lemma ObjectText(fields: seq<Field>, tab: string, depth: nat)
    ensures var inner := if fields == [] then "" else ItemGap(Pretty(tab), depth) + FieldsRest(fields, Pretty(tab), depth, "");
            Text(Object(fields), Pretty(tab), depth) == "{" + ("\n" + (inner + (("\n" + Tabs(tab, Level(depth))) + "}")))
  {
    hide Tabs, FieldsRest, Level, CloseGap, ItemGap;
    CloseIsTabs(tab, depth);
    var lay, close := Pretty(tab), CloseGap(Pretty(tab), depth);
    assert close + ['}'] == close + "}";
    if fields != [] {
      FieldsOpen(fields, lay, depth, "", close + "}");
      assert "" + (close + "}") == close + "}";
      var g, body := ItemGap(lay, depth), FieldsRest(fields, lay, depth, "");
      assert g + (body + (close + "}")) == (g + body) + (close + "}");
    } else {
      assert "" + (close + "}") == close + "}";
    }
  }

  lemma {:induction false} PrettyFields(fields: seq<Field>, tab: string, depth: nat)
    requires fields != []
    ensures Joined(FieldLines(fields, depth), tab) == ItemGap(Pretty(tab), depth) + FieldsRest(fields, Pretty(tab), depth, "")
    decreases fields, 1
  {
    hide Tabs, Text, Lines, Joined;
    var lay, g, f := Pretty(tab), ItemGap(Pretty(tab), depth), fields[0];
    PadIsTabs(tab, depth);
    var pre, t := "\"" + f.key + "\": ", Text(f.value, lay, depth + 1);
    assert FieldText(f, lay, depth) == pre + t;
    PrettyIsLines(pre, f.value, tab, depth + 1, if |fields| == 1 then "" else ",");
    if |fields| == 1 {
      assert g + (pre + (t + "")) == g + ((pre + t) + "");
    } else {
      PrettyFields(fields[1..], tab, depth);
      JoinedTwo(Lines(pre, f.value, depth + 1, ","), FieldLines(fields[1..], depth), tab);
      var r := FieldsRest(fields[1..], lay, depth, "");
      assert g + (pre + (t + ",")) + "\n" + (g + r) == g + ((pre + t) + ([','] + ("\n" + (g + r))));
    }
  }
}
