/** Exactly which texts the parser never returns from: those that end in an opening bracket where an array could stand. */
module JsonUnfinished {
  import opened Basics
  import opened JsonText
  import opened JsonParse
  import opened JsonTermination

  /** An array that no string, number or literal can run into without failing. */
  const TOKEN: string := "[\"a\"]"

  predicate IsOpen(c: char) {
    c == '[' || c == '{'
  }

  /** Two texts that are the same up to `k`, where one ends in an opening bracket and the other goes on with the token. */
  ghost predicate Twins(f: string, g: string, k: nat) {
    && |f| == k + 1 && IsOpen(f[k]) && k + 5 <= |g| && g[k..k + 5] == TOKEN
    && forall i :: 0 <= i < k ==> f[i] == g[i]
  }

  lemma TokenAt(f: string, g: string, k: nat)
    requires Twins(f, g, k)
    ensures g[k] == '[' && g[k + 1] == '\"' && g[k + 2] == 'a' && g[k + 3] == '\"' && g[k + 4] == ']'
  {
    var t := g[k..k + 5];
    assert t[0] == g[k] && t[1] == g[k + 1] && t[2] == g[k + 2] && t[3] == g[k + 3] && t[4] == g[k + 4];
  }

  /** How the outcomes on the two texts go together. */
  ghost predicate Follows(k: nat, r: Outcome, s: Outcome) {
    match r
    case Diverges => !s.Parsed? || s.offset > k
    case Parsed(_, e) => s == r && e <= k
    case Failed => !s.Parsed? || s.offset == k + 2
  }

  // ----- white space, strings, numbers, literals

  lemma {:induction false} SameSkip(f: string, g: string, k: nat, o: nat)
    requires Twins(f, g, k) && o <= k
    ensures o <= Skip(f, o) <= k && Skip(g, o) == Skip(f, o)
    ensures SpacesEnd(f, o) == SpacesEnd(g, o) == Skip(f, o)
    decreases k - o
  {
    TokenAt(f, g, k);
    if o < k && IsSpace(f[o]) {
      SameSkip(f, g, k, o + 1);
    }
  }

  lemma {:induction false} SameString(f: string, g: string, k: nat, o: nat, val: string)
    requires Twins(f, g, k) && o <= k
    ensures Follows(k, StringFrom(f, o, val), StringFrom(g, o, val))
    decreases k - o
  {
    TokenAt(f, g, k);
    if o == k {
      assert StringFrom(g, k + 1, val + [g[k]]) == Parsed(Str(val + [g[k]]), k + 2);
    } else if f[o] == '\"' {
    } else if f[o] == '\\' {
      if o + 1 == k {
        assert StringFrom(g, k + 1, val + Unescaped(g[k])) == Parsed(Str(val + Unescaped(g[k])), k + 2);
      } else if f[o + 1] == 'u' {
        SameUnicode(f, g, k, o, val);
      } else {
        SameString(f, g, k, o + 2, val + Unescaped(f[o + 1]));
      }
    } else {
      SameString(f, g, k, o + 1, val + [f[o]]);
    }
  }

  lemma {:induction false} SameUnicode(f: string, g: string, k: nat, o: nat, val: string)
    requires Twins(f, g, k) && o + 1 < k && f[o] == '\\' && f[o + 1] == 'u'
    ensures Follows(k, StringFrom(f, o, val), StringFrom(g, o, val))
    decreases k - o, 0
  {
    TokenAt(f, g, k);
    if o + 5 < k {
      assert f[o + 2..o + 6] == g[o + 2..o + 6];
      SameString(f, g, k, o + 6, val + "\\u" + f[o + 2..o + 6]);
    } else {
      assert !IsHex(g[k]) && !IsHex(f[k]);
    }
  }

  lemma {:induction false} SameNumberEnd(f: string, g: string, k: nat, o: nat)
    requires Twins(f, g, k) && o <= k
    ensures NumberEnd(f, o) == NumberEnd(g, o) <= k
    decreases k - o
  {
    TokenAt(f, g, k);
    if o < k {
      SameNumberEnd(f, g, k, o + 1);
    }
  }

  lemma {:induction false} SameDigitsEnd(f: string, g: string, k: nat, o: nat)
    requires Twins(f, g, k) && o <= k
    ensures DigitsEnd(f, o) == DigitsEnd(g, o) <= k
    decreases k - o
  {
    TokenAt(f, g, k);
    if o < k {
      SameDigitsEnd(f, g, k, o + 1);
    }
  }

  lemma SameExponent(f: string, g: string, k: nat, o: nat)
    requires Twins(f, g, k) && o <= k
    ensures Exponent(f, o) == Exponent(g, o) && (Exponent(f, o).Some? ==> Exponent(f, o).value.1 < k)
  {
    TokenAt(f, g, k);
    var start := if IsSign(f[o]) then o + 1 else o;
    assert IsSign(f[o]) <==> IsSign(g[o]);
    SameDigitsEnd(f, g, k, start);
    var end := DigitsEnd(f, start);
    assert f[start..end] == g[start..end];
    assert !EndsNumber(f[k]) && !EndsNumber(g[k]);
  }

  lemma SameNumber(rs: Reals, f: string, g: string, k: nat, p: nat)
    requires Twins(f, g, k) && p < k && (IsDigit(f[p]) || f[p] == '-')
    ensures Follows(k, ParseNumber(rs, f, p), ParseNumber(rs, g, p))
  {
    hide Exponent, Scaled, Stol, NumberEnd;
    TokenAt(f, g, k);
    SameNumberEnd(f, g, k, p);
    var e := NumberEnd(f, p);
    assert f[p..e] == g[p..e];
    assert !EndsNumber(f[k]) && !EndsNumber(g[k]);
    if e < k {
      SameExponent(f, g, k, e + 1);
    }
  }

  lemma SameLiteral(f: string, g: string, k: nat, p: nat, word: string)
    requires Twins(f, g, k) && p < k && '[' !in word && '{' !in word
    ensures (p + |word| <= |f| && f[p..p + |word|] == word) <==> (p + |word| <= |g| && g[p..p + |word|] == word)
    ensures p + |word| <= |f| && f[p..p + |word|] == word ==> p + |word| <= k
  {
    TokenAt(f, g, k);
    if p + |word| <= k {
      assert f[p..p + |word|] == g[p..p + |word|];
    } else {
      if p + |word| <= |f| {
        assert f[p..p + |word|][k - p] == f[k];
      }
      if p + |word| <= |g| {
        assert g[p..p + |word|][k - p] == g[k];
      }
    }
  }

  lemma SameBoolean(f: string, g: string, k: nat, p: nat)
    requires Twins(f, g, k) && p < k
    ensures Follows(k, ParseBoolean(f, p), ParseBoolean(g, p)) && Follows(k, ParseNull(f, p), ParseNull(g, p))
  {
    SameLiteral(f, g, k, p, "true");
    SameLiteral(f, g, k, p, "false");
    SameLiteral(f, g, k, p, "null");
  }

  // ----- values

  lemma SkipHere(fmt: string, o: nat)
    requires o < |fmt| && !IsSpace(fmt[o])
    ensures Skip(fmt, o) == o
  {
  }

  lemma {:induction false} SameNext(rs: Reals, f: string, g: string, k: nat, o: nat)
    requires Twins(f, g, k) && o <= k
    ensures Follows(k, ParseNext(rs, f, o), ParseNext(rs, g, o))
    decreases k - Skip(f, o), 3
  {
    hide StringFrom, ParseNumber, ParseBoolean, ParseNull, Skip, Twins;
    SameSkip(f, g, k, o);
    var p := Skip(f, o);
    if p == k {
      OpenDiverges(rs, f, g, k, o);
    } else {
      SameChar(f, g, k, p);
      if f[p] == '[' {
        SameArray(rs, f, g, k, p);
      } else if f[p] == '{' {
        SameObject(rs, f, g, k, p);
      } else if f[p] == '\"' {
        SameString(f, g, k, p + 1, "");
      } else if f[p] == 't' || f[p] == 'f' || f[p] == 'n' {
        SameBoolean(f, g, k, p);
      } else if IsDigit(f[p]) || f[p] == '-' {
        SameNumber(rs, f, g, k, p);
      }
    }
  }

  lemma SameChar(f: string, g: string, k: nat, p: nat)
    requires Twins(f, g, k) && p < k
    ensures |f| == k + 1 && p < |g| && k + 5 <= |g| && f[p] == g[p]
  {
  }

  lemma OpenDiverges(rs: Reals, f: string, g: string, k: nat, o: nat)
    requires Twins(f, g, k) && o <= k && Skip(f, o) == k
    ensures ParseNext(rs, f, o) == Diverges
  {
    hide StringFrom, ParseNumber, Skip;
  }

  lemma {:induction false} SameArray(rs: Reals, f: string, g: string, k: nat, p: nat)
    requires Twins(f, g, k) && p < k
    ensures p < |f| && p < |g| && Follows(k, ParseArray(rs, f, p), ParseArray(rs, g, p))
    decreases k - p, 2
  {
    hide ParseItems, ParseNext, Skip, Twins;
    SameChar(f, g, k, p);
    SameSkip(f, g, k, p + 1);
    var q := Skip(f, p + 1);
    TwinEnd(f, g, k);
    if q < k {
      SameChar(f, g, k, q);
    }
    SameSkip(f, g, k, q);
    SameItems(rs, f, g, k, q, []);
  }

  lemma TwinEnd(f: string, g: string, k: nat)
    requires Twins(f, g, k)
    ensures |f| == k + 1 && k + 5 <= |g| && IsOpen(f[k]) && g[k] == '[' && g[k + 2] == 'a'
  {
    TokenAt(f, g, k);
  }

  /** Where both go on: at the bracket both fail, elsewhere they read the same. */
  lemma SameBehind(f: string, g: string, k: nat, e: nat)
    requires Twins(f, g, k) && e <= k
    ensures Skip(g, e) == Skip(f, e) && e <= Skip(f, e) <= k && |f| == k + 1 && k + 5 <= |g|
    ensures Skip(f, e) < k ==> f[Skip(f, e)] == g[Skip(f, e)]
    ensures Skip(f, e) == k ==> IsOpen(f[k]) && g[k] == '['
    ensures Skip(g, k + 2) == k + 2 && g[k + 2] == 'a'
  {
    SameSkip(f, g, k, e);
    TokenAt(f, g, k);
    SkipHere(g, k + 2);
  }

  lemma {:induction false} SameItems(rs: Reals, f: string, g: string, k: nat, s: nat, acc: seq<JSON>)
    requires Twins(f, g, k) && s <= k
    ensures |f| == k + 1 && k + 5 <= |g| && Follows(k, ParseItems(rs, f, s, acc), ParseItems(rs, g, s, acc))
    decreases k - Skip(f, s), 4
  {
    hide ParseNext, Skip, Twins;
    SameNext(rs, f, g, k, s);
    SameBehind(f, g, k, s);
    var r := ParseNext(rs, f, s);
    if r.Parsed? {
      CommaAdvances(rs, f, s, r.value, r.offset);
      SameBehind(f, g, k, r.offset);
      var w := Skip(f, r.offset);
      if w < k && f[w] == ',' {
        SameBehind(f, g, k, w + 1);
        SameItems(rs, f, g, k, w + 1, acc + [r.value]);
      }
    }
  }

  lemma {:induction false} SameObject(rs: Reals, f: string, g: string, k: nat, p: nat)
    requires Twins(f, g, k) && p < k
    ensures p < |f| && p < |g| && Follows(k, ParseObject(rs, f, p), ParseObject(rs, g, p))
    decreases k - p, 2
  {
    hide ParseFields, ParseField, ParseNext, Skip, Twins;
    SameChar(f, g, k, p);
    SameSkip(f, g, k, p + 1);
    var q := Skip(f, p + 1);
    TwinEnd(f, g, k);
    if q < k {
      SameChar(f, g, k, q);
    }
    SameSkip(f, g, k, q);
    SameFields(rs, f, g, k, q, []);
  }

  ghost predicate FieldFollows(k: nat, r: FieldOutcome, s: FieldOutcome) {
    match r
    case Read(_, _, e) => s == r && e <= k
    case Stop(why) => s.Stop? || if why.Diverges? then s.offset > k else s.offset == k + 2
  }

  lemma {:induction false} SameField(rs: Reals, f: string, g: string, k: nat, s: nat)
    requires Twins(f, g, k) && s <= k
    ensures |f| == k + 1 && k + 5 <= |g| && FieldFollows(k, ParseField(rs, f, s), ParseField(rs, g, s))
    decreases k - Skip(f, s), 4
  {
    hide ParseNext, Skip, Twins;
    SameNext(rs, f, g, k, s);
    SameBehind(f, g, k, s);
    var r := ParseNext(rs, f, s);
    if r.Parsed? {
      CommaAdvances(rs, f, s, r.value, r.offset);
      SameBehind(f, g, k, r.offset);
      var w := Skip(f, r.offset);
      if w < k && f[w] == ':' {
        SameBehind(f, g, k, w + 1);
        var q := Skip(f, w + 1);
        SameBehind(f, g, k, q);
        SameNext(rs, f, g, k, q);
      }
    }
  }

  lemma {:induction false} SameFields(rs: Reals, f: string, g: string, k: nat, s: nat, acc: seq<Field>)
    requires Twins(f, g, k) && s <= k
    ensures |f| == k + 1 && k + 5 <= |g| && Follows(k, ParseFields(rs, f, s, acc), ParseFields(rs, g, s, acc))
    decreases k - Skip(f, s), 5
  {
    hide ParseField, ParseNext, Skip, Twins, Put, AsString;
    SameField(rs, f, g, k, s);
    SameBehind(f, g, k, s);
    var r := ParseField(rs, f, s);
    if r.Read? {
      FieldAdvances(rs, f, s, r);
      SameBehind(f, g, k, r.offset);
      var w := Skip(f, r.offset);
      if w < k && f[w] == ',' {
        SameBehind(f, g, k, w + 1);
        SameFields(rs, f, g, k, w + 1, Put(acc, AsString(r.key), r.value));
      }
    }
  }

  // ----- how to finish an unfinished text

  function Full(w: string, t: string, s: string): (r: string)
    ensures |r| == |w| + 5 + |t| + |s|
  {
    w + (TOKEN + (t + s))
  }

  lemma FullTwins(w: string, open: char, t: string, s: string)
    requires IsOpen(open)
    ensures Twins(w + [open], Full(w, t, s), |w|)
  {
    var g := Full(w, t, s);
    assert g[|w|..] == TOKEN + (t + s);
    assert g[|w|..|w| + 5] == TOKEN;
  }

  /** One more character behind what has been completed. */
  lemma FullNext(w: string, t: string, c: char, s: string)
    ensures Full(w, t + [c], s) == Full(w, t, [c] + s)
    ensures Full(w, t, [c] + s)[|w| + 5 + |t|] == c
  {
    assert (t + [c]) + s == t + ([c] + s);
    var g := Full(w, t, [c] + s);
    assert g[|w|..][5..] == t + ([c] + s);
  }

  lemma TokenParses(rs: Reals, f: string, g: string, k: nat, o: nat)
    requires Twins(f, g, k) && o <= k && Skip(f, o) == k
    ensures k + 5 <= |g| && ParseNext(rs, g, o) == Parsed(Array([Str("a")]), k + 5)
  {
    SameSkip(f, g, k, o);
    TokenAt(f, g, k);
    SkipHere(g, k + 1);
    SkipHere(g, k + 4);
    hide Skip, ParseNumber, Twins;
    assert StringFrom(g, k + 3, "" + ['a']) == Parsed(Str("" + ['a']), k + 4);
    assert StringFrom(g, k + 2, "") == Parsed(Str("" + ['a']), k + 4);
    assert "" + ['a'] == "a";
    assert ParseNext(rs, g, k + 1) == Parsed(Str("a"), k + 4);
    assert ParseItems(rs, g, k + 1, []) == Parsed(Array([] + [Str("a")]), k + 5);
    assert [] + [Str("a")] == [Str("a")];
  }

  /** Whatever follows, the value from `o` on is read to the end of `t`. */
  ghost predicate Completes(rs: Reals, w: string, o: nat, t: string, v: JSON)
    requires o <= |w|
  {
    forall s :: ParseNext(rs, Full(w, t, s), o) == Parsed(v, |w| + 5 + |t|)
  }

  ghost predicate ArrayCompletes(rs: Reals, w: string, p: nat, t: string, v: JSON)
    requires p < |w|
  {
    forall s :: ParseArray(rs, Full(w, t, s), p) == Parsed(v, |w| + 5 + |t|)
  }

  ghost predicate ItemsComplete(rs: Reals, w: string, x: nat, acc: seq<JSON>, t: string, v: JSON)
    requires x <= |w|
  {
    forall s :: ParseItems(rs, Full(w, t, s), x, acc) == Parsed(v, |w| + 5 + |t|)
  }

  ghost predicate ObjectCompletes(rs: Reals, w: string, p: nat, t: string, v: JSON)
    requires p < |w|
  {
    forall s :: ParseObject(rs, Full(w, t, s), p) == Parsed(v, |w| + 5 + |t|)
  }

  ghost predicate FieldCompletes(rs: Reals, w: string, x: nat, t: string, key: JSON, v: JSON)
    requires x <= |w|
  {
    forall s :: ParseField(rs, Full(w, t, s), x) == Read(key, v, |w| + 5 + |t|)
  }

  ghost predicate FieldsComplete(rs: Reals, w: string, x: nat, acc: seq<Field>, t: string, v: JSON)
    requires x <= |w|
  {
    forall s :: ParseFields(rs, Full(w, t, s), x, acc) == Parsed(v, |w| + 5 + |t|)
  }

  // ----- what finishes a text

  lemma TokenStops(w: string, o: nat)
    requires o <= |w|
    ensures o <= Skip(Full(w, "", ""), o) <= |w|
  {
    hide Skip;
    FullTwins(w, '[', "", "");
    SameSkip(w + ['['], Full(w, "", ""), |w|, o);
  }

  predicate NotOpen(t: string) {
    t == "" || !IsOpen(t[|t| - 1])
  }

  /** Where the first item of an array or object at `p` starts. */
  function Behind(w: string, p: nat): (q: nat)
    requires p < |w|
    ensures p < q <= |w|
  {
    TokenStops(w, p + 1);
    Skip(Full(w, "", ""), p + 1)
  }

  /** What finishes the value that starts at `o`, once the token stands behind the text. */
  function ValueEnd(rs: Reals, w: string, o: nat): (t: string)
    requires o <= |w|
    ensures NotOpen(t)
    decreases |w| - o, 0
  {
    var g := Full(w, "", "");
    TokenStops(w, o);
    var p := Skip(g, o);
    if p == |w| then ""
    else
      var q := Behind(w, p);
      if g[p] == '[' then ItemsEnd(rs, w, q) else FieldsEnd(rs, w, q)
  }

  /** An item that ends in the text is passed over; one that does not is the last. */
  function ItemsEnd(rs: Reals, w: string, x: nat): (t: string)
    requires x <= |w|
    ensures NotOpen(t)
    decreases |w| - x, 1
  {
    var g := Full(w, "", "");
    TokenStops(w, x);
    var r := ParseNext(rs, g, x);
    if r.Parsed? && r.offset <= |w| then
      TokenStops(w, r.offset);
      var c := Skip(g, r.offset);
      if c < |w| then ItemsEnd(rs, w, c + 1) else ""
    else ValueEnd(rs, w, x) + [']']
  }

  function FieldEnd(rs: Reals, w: string, x: nat): (t: string)
    requires x <= |w|
    ensures NotOpen(t)
    decreases |w| - x, 1
  {
    var g := Full(w, "", "");
    TokenStops(w, x);
    var r := ParseNext(rs, g, x);
    if r.Parsed? && r.offset <= |w| then
      TokenStops(w, r.offset);
      var c := Skip(g, r.offset);
      if c == |w| then ""
      else
        TokenStops(w, c + 1);
        ValueEnd(rs, w, Skip(g, c + 1))
    else ValueEnd(rs, w, x) + [':'] + "null"
  }

  function FieldsEnd(rs: Reals, w: string, x: nat): (t: string)
    requires x <= |w|
    ensures NotOpen(t)
    decreases |w| - x, 2
  {
    var g := Full(w, "", "");
    TokenStops(w, x);
    var r := ParseField(rs, g, x);
    if r.Read? && r.offset <= |w| then
      TokenStops(w, r.offset);
      var c := Skip(g, r.offset);
      if c < |w| then FieldsEnd(rs, w, c + 1) else ""
    else FieldEnd(rs, w, x) + ['}']
  }

  lemma ItemsEndIs(rs: Reals, w: string, x: nat)
    requires x <= |w|
    ensures var g := Full(w, "", ""); var r := ParseNext(rs, g, x);
            if r.Parsed? && r.offset <= |w| then
              Skip(g, r.offset) < |w| ==> 0 <= Skip(g, r.offset) && ItemsEnd(rs, w, x) == ItemsEnd(rs, w, Skip(g, r.offset) + 1)
            else ItemsEnd(rs, w, x) == ValueEnd(rs, w, x) + [']']
  {
    hide ParseNext, Skip, ValueEnd, Full;
  }

  lemma FieldsEndIs(rs: Reals, w: string, x: nat)
    requires x <= |w|
    ensures var g := Full(w, "", ""); var r := ParseField(rs, g, x);
            if r.Read? && r.offset <= |w| then
              Skip(g, r.offset) < |w| ==> 0 <= Skip(g, r.offset) && FieldsEnd(rs, w, x) == FieldsEnd(rs, w, Skip(g, r.offset) + 1)
            else FieldsEnd(rs, w, x) == FieldEnd(rs, w, x) + ['}']
  {
    hide ParseField, Skip, FieldEnd, Full;
  }

  lemma {:induction false} NextCloses(rs: Reals, w: string, open: char, o: nat) returns (t: string, v: JSON)
    requires IsOpen(open) && o <= |w| && ParseNext(rs, w + [open], o) == Diverges
    ensures Completes(rs, w, o, t, v) && t == ValueEnd(rs, w, o)
    decreases |w| - Skip(w + [open], o), 3
  {
    hide StringFrom, ParseNumber, ParseBoolean, ParseNull, Skip, Twins, Full, ParseArray, ParseObject, ItemsEnd, FieldsEnd;
    var f, k := w + [open], |w|;
    FullTwins(w, open, "", "");
    SameSkip(f, Full(w, "", ""), k, o);
    var p := Skip(f, o);
    if p == k {
      t, v := "", Array([Str("a")]);
      forall s
        ensures ParseNext(rs, Full(w, t, s), o) == Parsed(v, k + 5 + |t|)
      {
        FullTwins(w, open, t, s);
        TokenParses(rs, f, Full(w, t, s), k, o);
      }
    } else if f[p] == '[' {
      t, v := ArrayCloses(rs, w, open, p);
      forall s
        ensures ParseNext(rs, Full(w, t, s), o) == Parsed(v, k + 5 + |t|)
      {
        FullTwins(w, open, t, s);
        SameSkip(f, Full(w, t, s), k, o);
        SameChar(f, Full(w, t, s), k, p);
      }
    } else {
      t, v := ObjectCloses(rs, w, open, p);
      forall s
        ensures ParseNext(rs, Full(w, t, s), o) == Parsed(v, k + 5 + |t|)
      {
        FullTwins(w, open, t, s);
        SameSkip(f, Full(w, t, s), k, o);
        SameChar(f, Full(w, t, s), k, p);
      }
    }
  }

  lemma {:induction false} ArrayCloses(rs: Reals, w: string, open: char, p: nat) returns (t: string, v: JSON)
    requires IsOpen(open) && p < |w| && ParseArray(rs, w + [open], p) == Diverges
    ensures ArrayCompletes(rs, w, p, t, v) && t == ItemsEnd(rs, w, Behind(w, p))
    decreases |w| - p, 2
  {
    hide ParseItems, ParseNext, Skip, Twins, Full, ItemsEnd;
    var f, k := w + [open], |w|;
    FullTwins(w, open, "", "");
    SameBehind(f, Full(w, "", ""), k, p + 1);
    var q := Skip(f, p + 1);
    SameBehind(f, Full(w, "", ""), k, q);
    t, v := ItemsClose(rs, w, open, q, []);
    forall s
      ensures ParseArray(rs, Full(w, t, s), p) == Parsed(v, k + 5 + |t|)
    {
      FullTwins(w, open, t, s);
      SameBehind(f, Full(w, t, s), k, p + 1);
    }
  }

  lemma {:induction false} ItemsClose(rs: Reals, w: string, open: char, x: nat, acc: seq<JSON>) returns (t: string, v: JSON)
    requires IsOpen(open) && x <= |w| && ParseItems(rs, w + [open], x, acc) == Diverges
    ensures ItemsComplete(rs, w, x, acc, t, v) && t == ItemsEnd(rs, w, x)
    decreases |w| - Skip(w + [open], x), 4
  {
    hide ParseNext, Skip, Twins, Full, Completes, ValueEnd, ItemsEnd;
    var f, k := w + [open], |w|;
    FullTwins(w, open, "", "");
    SameBehind(f, Full(w, "", ""), k, x);
    var r := ParseNext(rs, f, x);
    SameNext(rs, f, Full(w, "", ""), k, x);
    ItemsEndIs(rs, w, x);
    if r.Diverges? {
      var t', v' := NextCloses(rs, w, open, x);
      t, v := t' + [']'], Array(acc + [v']);
      forall s
        ensures ParseItems(rs, Full(w, t, s), x, acc) == Parsed(v, k + 5 + |t|)
      {
        CompletedBy(rs, w, x, t', v', ']', s);
      }
    } else {
      CommaAdvances(rs, f, x, r.value, r.offset);
      SameBehind(f, Full(w, "", ""), k, r.offset);
      var c := Skip(f, r.offset);
      SameBehind(f, Full(w, "", ""), k, c + 1);
      t, v := ItemsClose(rs, w, open, c + 1, acc + [r.value]);
      forall s
        ensures ParseItems(rs, Full(w, t, s), x, acc) == Parsed(v, k + 5 + |t|)
      {
        FullTwins(w, open, t, s);
        SameNext(rs, f, Full(w, t, s), k, x);
        SameBehind(f, Full(w, t, s), k, r.offset);
      }
    }
  }

  /** A completed value with its end. */
  lemma CompletedBy(rs: Reals, w: string, x: nat, t: string, v: JSON, c: char, s: string)
    requires x <= |w| && Completes(rs, w, x, t, v) && !IsSpace(c)
    ensures var g := Full(w, t + [c], s); var e := |w| + 5 + |t|;
            ParseNext(rs, g, x) == Parsed(v, e) && e < |g| && Skip(g, e) == e && g[e] == c
  {
    hide ParseNext, Full, Skip;
    FullNext(w, t, c, s);
    SkipHere(Full(w, t, [c] + s), |w| + 5 + |t|);
  }

  lemma {:induction false} ObjectCloses(rs: Reals, w: string, open: char, p: nat) returns (t: string, v: JSON)
    requires IsOpen(open) && p < |w| && ParseObject(rs, w + [open], p) == Diverges
    ensures ObjectCompletes(rs, w, p, t, v) && t == FieldsEnd(rs, w, Behind(w, p))
    decreases |w| - p, 2
  {
    hide ParseFields, ParseField, ParseNext, Skip, Twins, Full, FieldsEnd;
    var f, k := w + [open], |w|;
    FullTwins(w, open, "", "");
    SameBehind(f, Full(w, "", ""), k, p + 1);
    var q := Skip(f, p + 1);
    SameBehind(f, Full(w, "", ""), k, q);
    t, v := FieldsClose(rs, w, open, q, []);
    forall s
      ensures ParseObject(rs, Full(w, t, s), p) == Parsed(v, k + 5 + |t|)
    {
      FullTwins(w, open, t, s);
      SameBehind(f, Full(w, t, s), k, p + 1);
    }
  }

  /** A field is finished by its value, or by a colon and a null if the key is unfinished. */
  lemma {:induction false} FieldCloses(rs: Reals, w: string, open: char, x: nat) returns (t: string, key: JSON, v: JSON)
    requires IsOpen(open) && x <= |w| && ParseField(rs, w + [open], x) == Stop(Diverges)
    ensures FieldCompletes(rs, w, x, t, key, v) && t == FieldEnd(rs, w, x)
    decreases |w| - Skip(w + [open], x), 4
  {
    hide ParseNext, Skip, Twins, Full, Completes, ValueEnd;
    var f, k := w + [open], |w|;
    FullTwins(w, open, "", "");
    SameBehind(f, Full(w, "", ""), k, x);
    var r := ParseNext(rs, f, x);
    SameNext(rs, f, Full(w, "", ""), k, x);
    if r.Diverges? {
      var t';
      t', key := NextCloses(rs, w, open, x);
      t, v := t' + [':'] + "null", Null;
      forall s
        ensures ParseField(rs, Full(w, t, s), x) == Read(key, v, k + 5 + |t|)
      {
        NullBehind(rs, w, x, t', key, s);
      }
    } else {
      CommaAdvances(rs, f, x, r.value, r.offset);
      SameBehind(f, Full(w, "", ""), k, r.offset);
      var c := Skip(f, r.offset);
      SameBehind(f, Full(w, "", ""), k, c + 1);
      var q := Skip(f, c + 1);
      SameBehind(f, Full(w, "", ""), k, q);
      key := r.value;
      t, v := NextCloses(rs, w, open, q);
      forall s
        ensures ParseField(rs, Full(w, t, s), x) == Read(key, v, k + 5 + |t|)
      {
        FullTwins(w, open, t, s);
        SameNext(rs, f, Full(w, t, s), k, x);
        SameBehind(f, Full(w, t, s), k, r.offset);
        SameBehind(f, Full(w, t, s), k, c + 1);
        ValueCompleted(rs, w, q, t, v, s);
      }
    }
  }

  lemma ValueCompleted(rs: Reals, w: string, o: nat, t: string, v: JSON, s: string)
    requires o <= |w| && Completes(rs, w, o, t, v)
    ensures ParseNext(rs, Full(w, t, s), o) == Parsed(v, |w| + 5 + |t|)
  {
    hide ParseNext, Full;
  }

  lemma NullBehind(rs: Reals, w: string, x: nat, t: string, key: JSON, s: string)
    requires x <= |w| && Completes(rs, w, x, t, key)
    ensures var g := Full(w, t + [':'] + "null", s);
            ParseField(rs, g, x) == Read(key, Null, |w| + 5 + |t| + 5)
  {
    hide ParseNext, Full, Skip, Completes;
    var g, e := Full(w, t + [':'] + "null", s), |w| + 5 + |t|;
    NullThere(rs, w, t, s);
    CompletedBy(rs, w, x, t, key, ':', "null" + s);
  }

  lemma NullThere(rs: Reals, w: string, t: string, s: string)
    ensures var g := Full(w, t + [':'] + "null", s); var q := |w| + 5 + |t| + 1;
            && g == Full(w, t + [':'], "null" + s) && q + 4 <= |g|
            && Skip(g, q) == q && ParseNext(rs, g, q) == Parsed(Null, q + 4)
  {
    hide StringFrom, ParseNumber;
    var g, q := Full(w, t + [':'] + "null", s), |w| + 5 + |t| + 1;
    assert (t + [':'] + "null") + s == (t + [':']) + ("null" + s);
    assert g[|w|..][5..] == (t + [':']) + ("null" + s);
    assert g[q..] == "null" + s;
    assert g[q..q + 4] == "null";
    assert g[q] == g[q..q + 4][0] == 'n';
    SkipHere(g, q);
  }

  lemma {:induction false} FieldsClose(rs: Reals, w: string, open: char, x: nat, acc: seq<Field>) returns (t: string, v: JSON)
    requires IsOpen(open) && x <= |w| && ParseFields(rs, w + [open], x, acc) == Diverges
    ensures FieldsComplete(rs, w, x, acc, t, v) && t == FieldsEnd(rs, w, x)
    decreases |w| - Skip(w + [open], x), 5
  {
    hide ParseField, ParseNext, Skip, Twins, Full, FieldCompletes, Put, AsString, FieldEnd, FieldsEnd;
    var f, k := w + [open], |w|;
    FullTwins(w, open, "", "");
    SameBehind(f, Full(w, "", ""), k, x);
    var r := ParseField(rs, f, x);
    SameField(rs, f, Full(w, "", ""), k, x);
    FieldsEndIs(rs, w, x);
    if r.Stop? {
      var t', key, v' := FieldCloses(rs, w, open, x);
      t, v := t' + ['}'], Object(Put(acc, AsString(key), v'));
      forall s
        ensures ParseFields(rs, Full(w, t, s), x, acc) == Parsed(v, k + 5 + |t|)
      {
        FieldCompletedBy(rs, w, x, t', key, v', s);
      }
    } else {
      FieldAdvances(rs, f, x, r);
      SameBehind(f, Full(w, "", ""), k, r.offset);
      var c := Skip(f, r.offset);
      SameBehind(f, Full(w, "", ""), k, c + 1);
      t, v := FieldsClose(rs, w, open, c + 1, Put(acc, AsString(r.key), r.value));
      forall s
        ensures ParseFields(rs, Full(w, t, s), x, acc) == Parsed(v, k + 5 + |t|)
      {
        FullTwins(w, open, t, s);
        SameField(rs, f, Full(w, t, s), k, x);
        SameBehind(f, Full(w, t, s), k, r.offset);
      }
    }
  }

  lemma FieldCompletedBy(rs: Reals, w: string, x: nat, t: string, key: JSON, v: JSON, s: string)
    requires x <= |w| && FieldCompletes(rs, w, x, t, key, v)
    ensures var g := Full(w, t + ['}'], s); var e := |w| + 5 + |t|;
            ParseField(rs, g, x) == Read(key, v, e) && e < |g| && Skip(g, e) == e && g[e] == '}'
  {
    hide ParseField, Full, Skip;
    FullNext(w, t, '}', s);
    SkipHere(Full(w, t, ['}'] + s), |w| + 5 + |t|);
  }

  // ----- the condition

  /** What finishes a text behind the token. */
  function Closing(rs: Reals, w: string): string {
    ValueEnd(rs, w, 0)
  }

  /** The text goes on to one that loads: with the token for an array, and what finishes the text then. */
  predicate ArrayMayFollow(rs: Reals, w: string) {
    Load(rs, Full(w, Closing(rs, w), "")).Value?
  }

  lemma OpenNever(rs: Reals, w: string, open: char)
    requires IsOpen(open)
    ensures Load(rs, w + [open]) == Never <==> ArrayMayFollow(rs, w)
    ensures (exists t :: Load(rs, Full(w, t, "")).Value?) ==> Load(rs, w + [open]) == Never
  {
    hide ParseNext, Full, Twins, Completes, ValueEnd;
    var f := w + [open];
    if Load(rs, f) == Never {
      var t, v := NextCloses(rs, w, open, 0);
      ValueCompleted(rs, w, 0, t, v, "");
      assert Load(rs, Full(w, t, "")) == Value(v);
    }
    if t :| Load(rs, Full(w, t, "")).Value? {
      FullTwins(w, open, t, "");
      SameNext(rs, f, Full(w, t, ""), |w|, 0);
    }
  }

  /** What decides it can be loaded. */
  lemma ClosingReturns(rs: Reals, w: string)
    ensures Load(rs, Full(w, Closing(rs, w), "")) != Never
  {
    hide Load, ValueEnd;
    var t := Closing(rs, w);
    var g := Full(w, t, "");
    assert NotOpen(t);
    assert t + "" == t;
    assert g == w + TOKEN + t;
    LoadReturns(rs, g);
  }

  /** If any text makes it load, that one does. */
  lemma ClosingSuffices(rs: Reals, w: string, t: string)
    requires Load(rs, Full(w, t, "")).Value?
    ensures ArrayMayFollow(rs, w)
  {
    hide Load, ArrayMayFollow, Full;
    OpenNever(rs, w, '[');
  }

  /** The parser never returns exactly on texts that end in an opening bracket where an array could stand; that is decided by
      loading one other text. */
  lemma NeverIff(rs: Reals, fmt: string)
    ensures Load(rs, fmt) == Never <==> EndsOpen(fmt) && ArrayMayFollow(rs, fmt[..|fmt| - 1])
  {
    hide Load, Full;
    if EndsOpen(fmt) {
      var w, open := fmt[..|fmt| - 1], fmt[|fmt| - 1];
      assert fmt == w + [open];
      OpenNever(rs, w, open);
    } else {
      LoadReturns(rs, fmt);
    }
  }
}
