/** The parser as the source recurses, with a bound on the depth of its calls and no word about calls that do not return;
    and that the outcome `Diverges` stands exactly for those that no bound lets return. */
module JsonTermination {
  import opened Basics
  import opened JsonText
  import opened JsonParse

  /** A value read at a valid offset. */
  ghost predicate InText(fmt: string, r: Option<Outcome>) {
    r.Some? && r.value.Parsed? ==> 0 < r.value.offset <= |fmt|
  }

  function RunNext(rs: Reals, fmt: string, o: nat, fuel: nat): (r: Option<Outcome>)
    requires o <= |fmt|
    ensures InText(fmt, r)
    decreases fuel
  {
    if fuel == 0 then None
    else
      var p := Skip(fmt, o);
      if p < 0 then Some(Failed)
      else
        var c := fmt[p];
        if c == '{' then RunObject(rs, fmt, p, fuel - 1)
        else if c == '[' then RunArray(rs, fmt, p, fuel - 1)
        else if c == '\"' then Some(StringFrom(fmt, p + 1, ""))
        else if c == 't' || c == 'f' then Some(ParseBoolean(fmt, p))
        else if c == 'n' then Some(ParseNull(fmt, p))
        else if IsDigit(c) || c == '-' then Some(ParseNumber(rs, fmt, p))
        else Some(Failed)
  }

  function RunArray(rs: Reals, fmt: string, p: nat, fuel: nat): (r: Option<Outcome>)
    requires p < |fmt|
    ensures InText(fmt, r)
    decreases fuel
  {
    if fuel == 0 then None
    else
      var q := Skip(fmt, p + 1);
      if fmt[q] == ']' then Some(Parsed(Array([]), q + 1)) else RunItems(rs, fmt, q, [], fuel - 1)
  }

  function RunItems(rs: Reals, fmt: string, s: nat, acc: seq<JSON>, fuel: nat): (r: Option<Outcome>)
    requires s <= |fmt|
    ensures InText(fmt, r)
    decreases fuel
  {
    if fuel == 0 then None
    else match RunNext(rs, fmt, s, fuel - 1)
      case Some(Parsed(v, o)) =>
        var w := Skip(fmt, o);
        if fmt[w] == ',' then RunItems(rs, fmt, w + 1, acc + [v], fuel - 1)
        else if fmt[w] == ']' then Some(Parsed(Array(acc + [v]), w + 1))
        else Some(Failed)
      case other => other
  }

  function RunObject(rs: Reals, fmt: string, p: nat, fuel: nat): (r: Option<Outcome>)
    requires p < |fmt|
    ensures InText(fmt, r)
    decreases fuel
  {
    if fuel == 0 then None
    else
      var q := Skip(fmt, p + 1);
      if fmt[q] == '}' then Some(Parsed(Object([]), q + 1)) else RunFields(rs, fmt, q, [], fuel - 1)
  }

  function RunField(rs: Reals, fmt: string, s: nat, fuel: nat): (r: Option<FieldOutcome>)
    requires s <= |fmt|
    ensures r.Some? && r.value.Read? ==> 0 < r.value.offset <= |fmt|
    ensures r.Some? && r.value.Stop? ==> !r.value.why.Parsed?
    decreases fuel
  {
    if fuel == 0 then None
    else match RunNext(rs, fmt, s, fuel - 1)
      case Some(Parsed(key, o)) =>
        var w := Skip(fmt, o);
        if fmt[w] != ':' then Some(Stop(Failed))
        else
          (match RunNext(rs, fmt, Skip(fmt, w + 1), fuel - 1)
           case Some(Parsed(v, o')) => Some(Read(key, v, o'))
           case Some(other) => Some(Stop(other))
           case None => None)
      case Some(other) => Some(Stop(other))
      case None => None
  }

  function RunFields(rs: Reals, fmt: string, s: nat, acc: seq<Field>, fuel: nat): (r: Option<Outcome>)
    requires s <= |fmt|
    ensures InText(fmt, r)
    decreases fuel
  {
    if fuel == 0 then None
    else match RunField(rs, fmt, s, fuel - 1)
      case Some(Read(key, v, o)) =>
        var w := Skip(fmt, o);
        var fields := Put(acc, AsString(key), v);
        if fmt[w] == ',' then RunFields(rs, fmt, w + 1, fields, fuel - 1)
        else if fmt[w] == '}' then Some(Parsed(Object(fields), w + 1))
        else Some(Failed)
      case Some(Stop(why)) => Some(why)
      case None => None
  }

  // ----- a bracket at the end

  /** Behind the last character white space is skipped back onto it. */
  lemma BackOntoLast(fmt: string, p: nat)
    requires p + 1 == |fmt| && !IsSpace(fmt[p])
    ensures Skip(fmt, p + 1) == p && Skip(fmt, p) == p
  {
  }

  /** An opening bracket at the end is parsed over and over again: no bound is enough. */
  lemma {:induction false} Endless(rs: Reals, fmt: string, p: nat, fuel: nat)
    requires p + 1 == |fmt| && (fmt[p] == '[' || fmt[p] == '{')
    ensures RunNext(rs, fmt, p, fuel) == None
    ensures fmt[p] == '[' ==> RunArray(rs, fmt, p, fuel) == None
    ensures fmt[p] == '{' ==> RunObject(rs, fmt, p, fuel) == None
    decreases fuel
  {
    hide StringFrom, ParseNumber, Skip;
    BackOntoLast(fmt, p);
    if fuel > 0 {
      Endless(rs, fmt, p, fuel - 1);
      if fuel > 1 {
        Endless(rs, fmt, p, fuel - 2);
        if fuel > 2 {
          Endless(rs, fmt, p, fuel - 3);
        }
      }
      if fmt[p] == '[' {
        EndlessArray(rs, fmt, p, fuel);
      } else {
        EndlessObject(rs, fmt, p, fuel);
      }
    }
  }

  lemma EndlessArray(rs: Reals, fmt: string, p: nat, fuel: nat)
    requires p + 1 == |fmt| && fmt[p] == '[' && Skip(fmt, p + 1) == p && fuel > 0
    requires forall k :: 0 <= k < fuel && fuel - 3 <= k ==> RunNext(rs, fmt, p, k) == None
    ensures RunArray(rs, fmt, p, fuel) == None
  {
    hide StringFrom, ParseNumber, Skip, RunNext;
    if fuel > 1 {
      assert RunNext(rs, fmt, p, fuel - 2) == None;
      assert RunItems(rs, fmt, p, [], fuel - 1) == None;
    }
  }

  lemma EndlessObject(rs: Reals, fmt: string, p: nat, fuel: nat)
    requires p + 1 == |fmt| && fmt[p] == '{' && Skip(fmt, p + 1) == p && fuel > 0
    requires forall k :: 0 <= k < fuel && fuel - 3 <= k ==> RunNext(rs, fmt, p, k) == None
    ensures RunObject(rs, fmt, p, fuel) == None
  {
    hide StringFrom, ParseNumber, Skip, RunNext, Put, AsString;
    if fuel > 1 {
      if fuel > 2 {
        assert RunNext(rs, fmt, p, fuel - 3) == None;
      }
      assert RunField(rs, fmt, p, fuel - 2) == None;
      assert RunFields(rs, fmt, p, [], fuel - 1) == None;
    }
  }

  // ----- what returns under a bound is what the parser gives

  ghost predicate Same(r: Option<Outcome>, spec: Outcome) {
    r.Some? ==> r.value == spec && spec != Diverges
  }

  lemma {:induction false} NextSound(rs: Reals, fmt: string, o: nat, fuel: nat)
    requires o <= |fmt|
    ensures Same(RunNext(rs, fmt, o, fuel), ParseNext(rs, fmt, o))
    decreases fuel
  {
    hide StringFrom, ParseNumber, Skip, RunArray, RunObject, ParseArray, ParseObject;
    if fuel > 0 {
      var p := Skip(fmt, o);
      if p >= 0 && fmt[p] == '[' {
        ArraySound(rs, fmt, p, fuel - 1);
      } else if p >= 0 && fmt[p] == '{' {
        ObjectSound(rs, fmt, p, fuel - 1);
      }
    }
  }

  lemma {:induction false} ArraySound(rs: Reals, fmt: string, p: nat, fuel: nat)
    requires p < |fmt| && fmt[p] == '['
    ensures Same(RunArray(rs, fmt, p, fuel), ParseArray(rs, fmt, p))
    decreases fuel
  {
    hide RunItems, ParseItems, ParseNext, RunNext;
    if p + 1 == |fmt| {
      Endless(rs, fmt, p, fuel);
    } else if fuel > 0 {
      ItemsSound(rs, fmt, Skip(fmt, p + 1), [], fuel - 1);
    }
  }

  lemma {:induction false} ItemsSound(rs: Reals, fmt: string, s: nat, acc: seq<JSON>, fuel: nat)
    requires s <= |fmt|
    ensures Same(RunItems(rs, fmt, s, acc, fuel), ParseItems(rs, fmt, s, acc))
    decreases fuel
  {
    hide RunNext, ParseNext, Skip;
    if fuel > 0 {
      NextSound(rs, fmt, s, fuel - 1);
      var r := RunNext(rs, fmt, s, fuel - 1);
      if r.Some? && r.value.Parsed? {
        CommaAdvances(rs, fmt, s, r.value.value, r.value.offset);
        ItemsSound(rs, fmt, Skip(fmt, r.value.offset) + 1, acc + [r.value.value], fuel - 1);
      }
    }
  }

  lemma {:induction false} ObjectSound(rs: Reals, fmt: string, p: nat, fuel: nat)
    requires p < |fmt| && fmt[p] == '{'
    ensures Same(RunObject(rs, fmt, p, fuel), ParseObject(rs, fmt, p))
    decreases fuel
  {
    hide RunFields, ParseFields, ParseField, ParseNext, RunNext, RunField;
    if p + 1 == |fmt| {
      Endless(rs, fmt, p, fuel);
    } else if fuel > 0 {
      FieldsSound(rs, fmt, Skip(fmt, p + 1), [], fuel - 1);
    }
  }

  lemma {:induction false} FieldSound(rs: Reals, fmt: string, s: nat, fuel: nat)
    requires s <= |fmt|
    ensures var r := RunField(rs, fmt, s, fuel); r.Some? ==> r.value == ParseField(rs, fmt, s) != Stop(Diverges)
    decreases fuel
  {
    hide RunNext, ParseNext, Skip;
    if fuel > 0 {
      NextSound(rs, fmt, s, fuel - 1);
      var r := RunNext(rs, fmt, s, fuel - 1);
      if r.Some? && r.value.Parsed? {
        CommaAdvances(rs, fmt, s, r.value.value, r.value.offset);
        NextSound(rs, fmt, Skip(fmt, Skip(fmt, r.value.offset) + 1), fuel - 1);
      }
    }
  }

  lemma {:induction false} FieldsSound(rs: Reals, fmt: string, s: nat, acc: seq<Field>, fuel: nat)
    requires s <= |fmt|
    ensures Same(RunFields(rs, fmt, s, acc, fuel), ParseFields(rs, fmt, s, acc))
    decreases fuel
  {
    hide RunField, ParseField, RunNext, ParseNext, Skip, Put, AsString;
    if fuel > 0 {
      FieldSound(rs, fmt, s, fuel - 1);
      var r := RunField(rs, fmt, s, fuel - 1);
      if r.Some? && r.value.Read? {
        FieldAdvances(rs, fmt, s, r.value);
        FieldsSound(rs, fmt, Skip(fmt, r.value.offset) + 1, Put(acc, AsString(r.value.key), r.value.value), fuel - 1);
      }
    }
  }

  // ----- what the parser gives returns under some bound

  /** A bound that is enough from a position on, `rank` being that of the function called. */
  function Enough(fmt: string, p: int, rank: nat): int {
    8 * (|fmt| - p) + rank
  }

  lemma {:induction false} NextEnough(rs: Reals, fmt: string, o: nat, fuel: nat)
    requires o <= |fmt| && ParseNext(rs, fmt, o) != Diverges && fuel > Enough(fmt, Skip(fmt, o), 3)
    ensures RunNext(rs, fmt, o, fuel).Some?
    decreases fuel
  {
    hide StringFrom, ParseNumber, Skip, RunArray, RunObject, ParseArray, ParseObject;
    var p := Skip(fmt, o);
    if p >= 0 && fmt[p] == '[' {
      ArrayEnough(rs, fmt, p, fuel - 1);
    } else if p >= 0 && fmt[p] == '{' {
      ObjectEnough(rs, fmt, p, fuel - 1);
    }
  }

  lemma {:induction false} ArrayEnough(rs: Reals, fmt: string, p: nat, fuel: nat)
    requires p < |fmt| && ParseArray(rs, fmt, p) != Diverges && fuel > Enough(fmt, p, 2)
    ensures RunArray(rs, fmt, p, fuel).Some?
    decreases fuel
  {
    hide RunItems, ParseItems, ParseNext, RunNext;
    var q := Skip(fmt, p + 1);
    if fmt[q] != ']' {
      ItemsEnough(rs, fmt, q, [], fuel - 1);
    }
  }

  lemma {:induction false} ItemsEnough(rs: Reals, fmt: string, s: nat, acc: seq<JSON>, fuel: nat)
    requires s <= |fmt| && ParseItems(rs, fmt, s, acc) != Diverges && fuel > Enough(fmt, Skip(fmt, s), 4)
    ensures RunItems(rs, fmt, s, acc, fuel).Some?
    decreases fuel
  {
    hide RunNext, ParseNext, Skip;
    NextEnough(rs, fmt, s, fuel - 1);
    NextSound(rs, fmt, s, fuel - 1);
    var r := ParseNext(rs, fmt, s);
    if r.Parsed? {
      CommaAdvances(rs, fmt, s, r.value, r.offset);
      var w := Skip(fmt, r.offset);
      if fmt[w] == ',' {
        ItemsEnough(rs, fmt, w + 1, acc + [r.value], fuel - 1);
      }
    }
  }

  lemma {:induction false} ObjectEnough(rs: Reals, fmt: string, p: nat, fuel: nat)
    requires p < |fmt| && ParseObject(rs, fmt, p) != Diverges && fuel > Enough(fmt, p, 2)
    ensures RunObject(rs, fmt, p, fuel).Some?
    decreases fuel
  {
    hide RunFields, ParseFields, ParseField, ParseNext, RunNext, RunField;
    var q := Skip(fmt, p + 1);
    if fmt[q] != '}' {
      FieldsEnough(rs, fmt, q, [], fuel - 1);
    }
  }

  lemma {:induction false} FieldEnough(rs: Reals, fmt: string, s: nat, fuel: nat)
    requires s <= |fmt| && ParseField(rs, fmt, s) != Stop(Diverges) && fuel > Enough(fmt, Skip(fmt, s), 4)
    ensures RunField(rs, fmt, s, fuel).Some?
    decreases fuel
  {
    hide RunNext, ParseNext, Skip;
    NextEnough(rs, fmt, s, fuel - 1);
    NextSound(rs, fmt, s, fuel - 1);
    var r := ParseNext(rs, fmt, s);
    if r.Parsed? {
      CommaAdvances(rs, fmt, s, r.value, r.offset);
      var w := Skip(fmt, r.offset);
      if fmt[w] == ':' {
        var q := Skip(fmt, w + 1);
        assert Skip(fmt, q) >= q;
        NextEnough(rs, fmt, q, fuel - 1);
        NextSound(rs, fmt, q, fuel - 1);
      }
    }
  }

  lemma {:induction false} FieldsEnough(rs: Reals, fmt: string, s: nat, acc: seq<Field>, fuel: nat)
    requires s <= |fmt| && ParseFields(rs, fmt, s, acc) != Diverges && fuel > Enough(fmt, Skip(fmt, s), 5)
    ensures RunFields(rs, fmt, s, acc, fuel).Some?
    decreases fuel
  {
    hide RunField, ParseField, RunNext, ParseNext, Skip, Put, AsString;
    FieldEnough(rs, fmt, s, fuel - 1);
    FieldSound(rs, fmt, s, fuel - 1);
    var r := ParseField(rs, fmt, s);
    if r.Read? {
      FieldAdvances(rs, fmt, s, r);
      var w := Skip(fmt, r.offset);
      if fmt[w] == ',' {
        FieldsEnough(rs, fmt, w + 1, Put(acc, AsString(r.key), r.value), fuel - 1);
      }
    }
  }

  /** `Diverges` means that no bound on the depth is enough. */
  lemma DivergesIff(rs: Reals, fmt: string, o: nat)
    requires o <= |fmt|
    ensures ParseNext(rs, fmt, o) == Diverges <==> forall fuel: nat :: RunNext(rs, fmt, o, fuel) == None
  {
    hide RunNext, ParseNext, Skip;
    if ParseNext(rs, fmt, o) == Diverges {
      forall fuel: nat
        ensures RunNext(rs, fmt, o, fuel) == None
      {
        NextSound(rs, fmt, o, fuel);
      }
    } else {
      NextEnough(rs, fmt, o, Enough(fmt, Skip(fmt, o), 4));
    }
  }

  /** Otherwise every bound from eight times the length on gives the outcome. */
  lemma ReturnsWithin(rs: Reals, fmt: string, o: nat, fuel: nat)
    requires o <= |fmt| && ParseNext(rs, fmt, o) != Diverges && fuel >= 8 * |fmt| + 12
    ensures RunNext(rs, fmt, o, fuel) == Some(ParseNext(rs, fmt, o))
  {
    hide RunNext, ParseNext;
    NextEnough(rs, fmt, o, fuel);
    NextSound(rs, fmt, o, fuel);
  }

  // ----- texts that do not end in an opening bracket

  predicate EndsOpen(fmt: string) {
    fmt != [] && (fmt[|fmt| - 1] == '[' || fmt[|fmt| - 1] == '{')
  }

  /** The parser returns on every text that does not end in an opening bracket. */
  lemma LoadReturns(rs: Reals, fmt: string)
    requires !EndsOpen(fmt)
    ensures Load(rs, fmt) != Never
  {
    NextReturns(rs, fmt, 0);
  }

  lemma {:induction false} NextReturns(rs: Reals, fmt: string, o: nat)
    requires o <= |fmt| && !EndsOpen(fmt)
    ensures ParseNext(rs, fmt, o) != Diverges
    decreases |fmt| - Skip(fmt, o), 3
  {
    hide StringFrom, ParseNumber, ParseArray, ParseObject, Skip;
    var p := Skip(fmt, o);
    if p >= 0 {
      if fmt[p] == '{' {
        ObjectReturns(rs, fmt, p);
      } else if fmt[p] == '[' {
        ArrayReturns(rs, fmt, p);
      }
    }
  }

  lemma {:induction false} ArrayReturns(rs: Reals, fmt: string, p: nat)
    requires p < |fmt| && !EndsOpen(fmt) && fmt[p] == '['
    ensures ParseArray(rs, fmt, p) != Diverges
    decreases |fmt| - p, 2
  {
    hide ParseItems, ParseNext;
    if p + 1 < |fmt| {
      ItemsReturn(rs, fmt, Skip(fmt, p + 1), []);
    }
  }

  lemma {:induction false} ItemsReturn(rs: Reals, fmt: string, s: nat, acc: seq<JSON>)
    requires s <= |fmt| && !EndsOpen(fmt)
    ensures ParseItems(rs, fmt, s, acc) != Diverges
    decreases |fmt| - Skip(fmt, s), 4
  {
    hide ParseNext, Skip;
    NextReturns(rs, fmt, s);
    var r := ParseNext(rs, fmt, s);
    if r.Parsed? {
      CommaAdvances(rs, fmt, s, r.value, r.offset);
      ItemsReturn(rs, fmt, Skip(fmt, r.offset) + 1, acc + [r.value]);
    }
  }

  lemma {:induction false} ObjectReturns(rs: Reals, fmt: string, p: nat)
    requires p < |fmt| && !EndsOpen(fmt) && fmt[p] == '{'
    ensures ParseObject(rs, fmt, p) != Diverges
    decreases |fmt| - p, 2
  {
    hide ParseFields, ParseField, ParseNext;
    if p + 1 < |fmt| {
      FieldsReturn(rs, fmt, Skip(fmt, p + 1), []);
    }
  }

  lemma {:induction false} FieldReturns(rs: Reals, fmt: string, s: nat)
    requires s <= |fmt| && !EndsOpen(fmt)
    ensures ParseField(rs, fmt, s) != Stop(Diverges)
    decreases |fmt| - Skip(fmt, s), 4
  {
    hide ParseNext, Skip;
    NextReturns(rs, fmt, s);
    var r := ParseNext(rs, fmt, s);
    if r.Parsed? {
      CommaAdvances(rs, fmt, s, r.value, r.offset);
      var q := Skip(fmt, Skip(fmt, r.offset) + 1);
      assert Skip(fmt, q) >= q;
      NextReturns(rs, fmt, q);
    }
  }

  lemma {:induction false} FieldsReturn(rs: Reals, fmt: string, s: nat, acc: seq<Field>)
    requires s <= |fmt| && !EndsOpen(fmt)
    ensures ParseFields(rs, fmt, s, acc) != Diverges
    decreases |fmt| - Skip(fmt, s), 5
  {
    hide ParseField, ParseNext, Skip, Put, AsString;
    FieldReturns(rs, fmt, s);
    var r := ParseField(rs, fmt, s);
    if r.Read? {
      FieldAdvances(rs, fmt, s, r);
      FieldsReturn(rs, fmt, Skip(fmt, r.offset) + 1, Put(acc, AsString(r.key), r.value));
    }
  }
}
