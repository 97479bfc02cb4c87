/** The parser as the loops run it. A call that would never return answers `Diverges` instead. */
module JsonReader {
  import opened Basics
  import opened JsonText
  import opened JsonParse
  import opened JsonLanguage
  import opened JsonTermination
  import opened JsonUnfinished

  method ConsumeWhitespace(fmt: string, start: nat) returns (offset: int)
    requires start <= |fmt|
    ensures offset == Skip(fmt, start)
  {
    offset := start;
    while offset < |fmt| && IsSpace(fmt[offset])
      invariant start <= offset <= |fmt| && SpacesEnd(fmt, offset) == SpacesEnd(fmt, start)
    {
      offset := offset + 1;
    }
    if offset == |fmt| {
      offset := offset - 1;
    }
  }

  /** The four digits of a unicode escape. */
  method ReadHex(fmt: string, o: nat) returns (digits: Option<string>)
    ensures digits == if o + 4 < |fmt| && (forall i :: o + 1 <= i <= o + 4 ==> IsHex(fmt[i]))
                      then Some(fmt[o + 1..o + 5]) else None
  {
    var val := "";
    for i := 1 to 5
      invariant o + i - 1 < |fmt| || i == 1
      invariant val == if o + i <= |fmt| then fmt[o + 1..o + i] else ""
      invariant forall k :: o + 1 <= k < o + i ==> k < |fmt| && IsHex(fmt[k])
    {
      if o + i >= |fmt| || !IsHex(fmt[o + i]) {
        return None;
      }
      val := val + [fmt[o + i]];
    }
    return Some(val);
  }

  method ParseString(fmt: string, start: nat) returns (r: Outcome)
    ensures r == StringFrom(fmt, start + 1, "")
  {
    var o, val := start + 1, "";
    while o < |fmt| && fmt[o] != '\"'
      invariant StringFrom(fmt, o, val) == StringFrom(fmt, start + 1, "")
      decreases |fmt| - o
    {
      var failed;
      o, val, failed := StringStep(fmt, o, val);
      if failed {
        return Failed;
      }
    }
    if o >= |fmt| {
      return Failed;
    }
    return Parsed(Str(val), o + 1);
  }

  /** One character or escape. */
  method StringStep(fmt: string, start: nat, prefix: string) returns (o: nat, val: string, failed: bool)
    requires start < |fmt| && fmt[start] != '\"'
    ensures failed ==> StringFrom(fmt, start, prefix) == Failed
    ensures !failed ==> start < o < |fmt| && StringFrom(fmt, start, prefix) == StringFrom(fmt, o, val)
  {
    o, val := start, prefix;
    if fmt[o] == '\\' {
      o := o + 1;
      if o >= |fmt| {
        return o, val, true;
      }
      if fmt[o] == 'u' {
        var digits := ReadHex(fmt, o);
        if digits.None? {
          return o, val, true;
        }
        val := val + "\\u" + digits.value;
        o := o + 4;
      } else {
        val := val + Unescaped(fmt[o]);
      }
    } else {
      val := val + [fmt[o]];
    }
    if o + 1 == |fmt| {
      return o, val, true;
    }
    return o + 1, val, false;
  }

  /** The digits, signs and points of a number, and the character that ends them. */
  method ReadMantissa(fmt: string, p: nat) returns (val: string, offset: nat, c: char, isFloating: bool)
    requires p < |fmt| && (IsDigit(fmt[p]) || fmt[p] == '-')
    ensures var e := NumberEnd(fmt, p);
            && val == fmt[p..e] && (isFloating <==> '.' in val)
            && c == (if e < |fmt| then fmt[e] else fmt[|fmt| - 1])
            && offset == if e < |fmt| then e + 1 else e
  {
    hide NumberEnd;
    offset, val, c, isFloating := p, "", fmt[p], false;
    var reading := true;
    while reading && offset < |fmt|
      invariant p <= offset <= |fmt| && (offset == p ==> reading)
      invariant reading ==> NumberEnd(fmt, p) == NumberEnd(fmt, offset) && val == fmt[p..offset]
      invariant reading && offset > p ==> c == fmt[offset - 1]
      invariant !reading ==> p < offset && NumberEnd(fmt, p) == offset - 1 && val == fmt[p..offset - 1] && c == fmt[offset - 1]
      invariant isFloating <==> '.' in val
      decreases |fmt| - offset, reading
    {
      c := fmt[offset];
      MantissaStep(fmt, p, offset);
      offset := offset + 1;
      PointIn(val, c);
      if IsDigit(c) || c == '-' {
        val := val + [c];
      } else if c == '.' {
        val := val + [c];
        isFloating := true;
      } else {
        reading := false;
      }
    }
    MantissaEnds(fmt);
  }

  lemma MantissaStep(fmt: string, p: nat, o: nat)
    requires p <= o < |fmt|
    ensures fmt[p..o + 1] == fmt[p..o] + [fmt[o]]
    ensures NumberEnd(fmt, o) == if IsDigit(fmt[o]) || fmt[o] == '-' || fmt[o] == '.' then NumberEnd(fmt, o + 1) else o
  {
  }

  lemma MantissaEnds(fmt: string)
    ensures NumberEnd(fmt, |fmt|) == |fmt|
  {
  }

  lemma PointIn(val: string, c: char)
    ensures '.' in val + [c] <==> '.' in val || c == '.'
  {
  }

  /** The digits of an exponent; `ended` says whether a character behind them has been read. */
  method ReadDigits(fmt: string, start: nat) returns (digits: string, offset: nat, c: char, ended: bool)
    requires start <= |fmt|
    ensures var end := DigitsEnd(fmt, start);
            && digits == fmt[start..end] && (ended <==> end < |fmt|)
            && (ended ==> offset == end + 1 && c == fmt[end]) && (!ended ==> offset == |fmt|)
  {
    hide DigitsEnd;
    digits, offset, c := "", start, '0';
    while offset < |fmt|
      invariant start <= offset <= |fmt| && DigitsEnd(fmt, offset) == DigitsEnd(fmt, start)
      invariant digits == fmt[start..offset]
    {
      c := fmt[offset];
      DigitsStep(fmt, offset);
      if !IsDigit(c) {
        return digits, offset + 1, c, true;
      }
      assert fmt[start..offset + 1] == fmt[start..offset] + [c];
      digits := digits + [c];
      offset := offset + 1;
    }
    DigitsStep(fmt, offset);
    ended := false;
  }

  /** `extractExponent`; the offset is the one before the final decrement. */
  method ExtractExponent(fmt: string, o: nat) returns (exp: Option<string>, offset: nat)
    ensures exp.None? <==> Exponent(fmt, o).None?
    ensures exp.Some? ==> offset > 0 && Exponent(fmt, o) == Some((exp.value, offset - 1))
  {
    hide EndsNumber, DigitsEnd;
    if o >= |fmt| {
      return None, o;
    }
    offset := o;
    var expStr := "";
    if fmt[o] == '-' {
      offset, expStr := offset + 1, "-";
    } else if fmt[o] == '+' {
      offset := offset + 1;
    }
    var digits, c, ended;
    digits, offset, c, ended := ReadDigits(fmt, offset);
    if ended && !EndsNumber(c) {
      return None, offset;
    }
    return Some(expStr + digits), offset;
  }

  lemma DigitsStep(fmt: string, o: nat)
    requires o <= |fmt|
    ensures DigitsEnd(fmt, o) == if o < |fmt| && IsDigit(fmt[o]) then DigitsEnd(fmt, o + 1) else o
  {
  }

  method ReadNumber(rs: Reals, fmt: string, p: nat) returns (r: Outcome)
    requires p < |fmt| && (IsDigit(fmt[p]) || fmt[p] == '-')
    ensures r == ParseNumber(rs, fmt, p)
  {
    hide Exponent, Stol, Scaled, NumberEnd;
    var val, offset, c, isFloating := ReadMantissa(fmt, p);
    var expStr := "";
    if c == 'e' || c == 'E' {
      var exp;
      exp, offset := ExtractExponent(fmt, offset);
      if exp.None? || exp.value == "" {
        return Failed;
      }
      expStr := exp.value;
    } else if !EndsNumber(c) {
      return Failed;
    }
    offset := offset - 1;
    if isFloating || expStr != "" {
      return Scaled(rs, val, expStr, offset);
    }
    var n := Stol(val);
    return if n.Some? then Parsed(Integral(n.value), offset) else Failed;
  }

  /** `parseNext`. */
  method ReadNext(rs: Reals, fmt: string, start: nat) returns (r: Outcome)
    requires start <= |fmt|
    ensures r == ParseNext(rs, fmt, start)
    decreases |fmt| - Skip(fmt, start), 3
  {
    var p := ConsumeWhitespace(fmt, start);
    if p < 0 {
      return Failed;
    }
    var c := fmt[p];
    if c == '{' {
      r := ReadObject(rs, fmt, p);
    } else if c == '[' {
      r := ReadArray(rs, fmt, p);
    } else if c == '\"' {
      r := ParseString(fmt, p);
    } else if c == 't' || c == 'f' {
      r := ParseBoolean(fmt, p);
    } else if c == 'n' {
      r := ParseNull(fmt, p);
    } else if IsDigit(c) || c == '-' {
      r := ReadNumber(rs, fmt, p);
    } else {
      r := Failed;
    }
  }

  method ReadArray(rs: Reals, fmt: string, p: nat) returns (r: Outcome)
    requires p < |fmt|
    ensures r == ParseArray(rs, fmt, p)
    decreases |fmt| - p, 2
  {
    hide ParseNext, Skip;
    if p + 1 == |fmt| {
      return Diverges;
    }
    var o: int := ConsumeWhitespace(fmt, p + 1);
    if fmt[o] == ']' {
      return Parsed(Array([]), o + 1);
    }
    assert Skip(fmt, o) >= o;
    ghost var q := o;
    var items := [];
    while true
      invariant 0 <= o <= |fmt| && p < Skip(fmt, o)
      invariant ParseItems(rs, fmt, o, items) == ParseItems(rs, fmt, q, [])
      decreases |fmt| - Skip(fmt, o)
    {
      var next := ReadNext(rs, fmt, o);
      if !next.Parsed? {
        return next;
      }
      CommaAdvances(rs, fmt, o, next.value, next.offset);
      o := ConsumeWhitespace(fmt, next.offset);
      items := items + [next.value];
      if fmt[o] == ']' {
        return Parsed(Array(items), o + 1);
      }
      if fmt[o] != ',' {
        return Failed;
      }
      o := o + 1;
    }
  }

  method ReadField(rs: Reals, fmt: string, start: nat) returns (r: FieldOutcome)
    requires start <= |fmt|
    ensures r == ParseField(rs, fmt, start)
    decreases |fmt| - Skip(fmt, start), 4
  {
    hide ParseNext, Skip;
    var key := ReadNext(rs, fmt, start);
    if !key.Parsed? {
      return Stop(key);
    }
    CommaAdvances(rs, fmt, start, key.value, key.offset);
    var w := ConsumeWhitespace(fmt, key.offset);
    if fmt[w] != ':' {
      return Stop(Failed);
    }
    var q := ConsumeWhitespace(fmt, w + 1);
    assert Skip(fmt, q) >= q;
    var value := ReadNext(rs, fmt, q);
    if !value.Parsed? {
      return Stop(value);
    }
    return Read(key.value, value.value, value.offset);
  }

  method ReadObject(rs: Reals, fmt: string, p: nat) returns (r: Outcome)
    requires p < |fmt|
    ensures r == ParseObject(rs, fmt, p)
    decreases |fmt| - p, 2
  {
    hide ParseField, ParseNext, Skip, Put, AsString;
    if p + 1 == |fmt| {
      return Diverges;
    }
    var o: int := ConsumeWhitespace(fmt, p + 1);
    if fmt[o] == '}' {
      return Parsed(Object([]), o + 1);
    }
    assert Skip(fmt, o) >= o;
    ghost var q := o;
    var fields := [];
    while true
      invariant 0 <= o <= |fmt| && p < Skip(fmt, o)
      invariant ParseFields(rs, fmt, o, fields) == ParseFields(rs, fmt, q, [])
      decreases |fmt| - Skip(fmt, o)
    {
      var next := ReadField(rs, fmt, o);
      if next.Stop? {
        return next.why;
      }
      FieldAdvances(rs, fmt, o, next);
      fields := Put(fields, AsString(next.key), next.value);
      o := ConsumeWhitespace(fmt, next.offset);
      if fmt[o] == '}' {
        return Parsed(Object(fields), o + 1);
      }
      if fmt[o] != ',' {
        return Failed;
      }
      o := o + 1;
    }
  }

  /** A value exactly for the texts of the grammar that spell it, and no return exactly for an array that is begun and not
      finished; all else throws. */
  method LoadText(rs: Reals, fmt: string) returns (r: Loaded)
    ensures r == Load(rs, fmt)
    ensures forall v :: r == Value(v) <==> Spelled(rs, fmt, v)
    ensures r == Never <==> EndsOpen(fmt) && ArrayMayFollow(rs, fmt[..|fmt| - 1])
  {
    hide Spelled, ParseNext, ArrayMayFollow;
    LoadIs(rs, fmt);
    var next := ReadNext(rs, fmt, 0);
    match next
    case Parsed(v, o) =>
      if o + 1 <= |fmt| {
        return Throws;
      }
      return Value(v);
    case Failed => return Throws;
    case Diverges => return Never;
  }

  lemma LoadIs(rs: Reals, fmt: string)
    ensures forall v :: Load(rs, fmt) == Value(v) <==> Spelled(rs, fmt, v)
    ensures Load(rs, fmt) == Never <==> EndsOpen(fmt) && ArrayMayFollow(rs, fmt[..|fmt| - 1])
  {
    hide *;
    forall v
      ensures Load(rs, fmt) == Value(v) <==> Spelled(rs, fmt, v)
    {
      LoadIff(rs, fmt, v);
    }
    NeverIff(rs, fmt);
  }
}
