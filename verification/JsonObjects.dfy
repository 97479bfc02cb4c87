/** Objects as maps from keys to values. */
module JsonObjects {
  import opened JsonText

  ghost function AsMap(fields: seq<Field>): map<string, JSON> {
    if fields == [] then map[] else AsMap(fields[..|fields| - 1])[fields[|fields| - 1].key := fields[|fields| - 1].value]
  }

  lemma {:induction false} LessGoesOn(a: string, b: string, c: string)
    requires Less(a, b) && Less(b, c)
    ensures Less(a, c)
  {
    if a != [] && a[0] == b[0] == c[0] {
      LessGoesOn(a[1..], b[1..], c[1..]);
    }
  }

  lemma {:induction false} LessOrMore(a: string, b: string)
    ensures a == b || Less(a, b) || Less(b, a)
  {
    if a != [] && b != [] && a[0] == b[0] {
      LessOrMore(a[1..], b[1..]);
      assert a == [a[0]] + a[1..] && b == [b[0]] + b[1..];
    }
  }

  /** At the first place where two strings differ the lesser one has the lesser character, or ends. */
  ghost predicate DifferAt(a: string, b: string, i: nat) {
    i <= |a| && i < |b| && a[..i] == b[..i] && (i < |a| ==> a[i] < b[i])
  }

  lemma {:induction false} LessIff(a: string, b: string)
    ensures Less(a, b) <==> exists i: nat :: DifferAt(a, b, i)
  {
    if b != [] && a != [] && a[0] == b[0] {
      LessIff(a[1..], b[1..]);
      if Less(a, b) {
        var i: nat :| DifferAt(a[1..], b[1..], i);
        var j := i + 1;
        assert a[..j] == [a[0]] + a[1..][..i] && b[..j] == [b[0]] + b[1..][..i];
        assert DifferAt(a, b, j);
      }
      if j: nat :| DifferAt(a, b, j) {
        assert j > 0;
        var i := j - 1;
        assert a[1..][..i] == a[..j][1..] && b[1..][..i] == b[..j][1..];
        assert DifferAt(a[1..], b[1..], i);
      }
    } else {
      if Less(a, b) {
        assert DifferAt(a, b, 0);
      }
      if j: nat :| DifferAt(a, b, j) {
        assert j > 0 ==> a[..j][0] == b[..j][0];
      }
    }
  }

  /** With one key before all others, the map of the rest and that key. */
  lemma {:induction false} AsMapFirst(fields: seq<Field>)
    requires fields != [] && KeysIncrease(fields)
    ensures AsMap(fields) == AsMap(fields[1..])[fields[0].key := fields[0].value]
    ensures forall k :: k in AsMap(fields[1..]) ==> Less(fields[0].key, k)
    decreases |fields|
  {
    var n := |fields| - 1;
    if n == 0 {
      assert fields[..0] == [] && fields[1..] == [];
    } else {
      var front, last := fields[..n], fields[n];
      AsMapFirst(front);
      assert fields[1..][..n - 1] == front[1..] && fields[1..][n - 1] == last;
      LessIsStrict(fields[0].key, last.key);
    }
  }

  lemma {:induction false} AsMapKeys(fields: seq<Field>, k: string)
    ensures k in AsMap(fields) <==> exists i :: 0 <= i < |fields| && fields[i].key == k
    decreases |fields|
  {
    if fields != [] {
      var n := |fields| - 1;
      AsMapKeys(fields[..n], k);
      if i :| 0 <= i < |fields| && fields[i].key == k {
        assert i < n ==> fields[..n][i].key == k;
      }
      if i :| 0 <= i < n && fields[..n][i].key == k {
        assert fields[i].key == k;
      }
      assert fields[n].key == k ==> exists i :: 0 <= i < |fields| && fields[i].key == k;
    }
  }

  lemma FirstBefore(f: Field, rest: seq<Field>)
    requires KeysIncrease(rest) && forall k :: k in AsMap(rest) ==> Less(f.key, k)
    ensures KeysIncrease([f] + rest) && AsMap([f] + rest) == AsMap(rest)[f.key := f.value]
  {
    var all := [f] + rest;
    forall i, j | 0 <= i < j < |all|
      ensures Less(all[i].key, all[j].key)
    {
      if i == 0 {
        AsMapKeys(rest, rest[j - 1].key);
      }
    }
    AsMapFirst(all);
    assert all[1..] == rest;
  }

  /** `object[key] = value` keeps the key order and is an update of the map, wherever the key belongs. */
  lemma {:induction false} PutIsUpdate(fields: seq<Field>, key: string, value: JSON)
    requires KeysIncrease(fields)
    ensures KeysIncrease(Put(fields, key, value)) && AsMap(Put(fields, key, value)) == AsMap(fields)[key := value]
    decreases |fields|
  {
    hide Less;
    if fields == [] {
      FirstBefore(Field(key, value), []);
    } else {
      var f, rest := fields[0], fields[1..];
      AsMapFirst(fields);
      assert fields == [f] + rest && f == Field(f.key, f.value);
      LessOrMore(key, f.key);
      if f.key == key {
        FirstBefore(Field(key, value), rest);
      } else if Less(key, f.key) {
        forall k | k in AsMap(fields)
          ensures Less(key, k)
        {
          if k != f.key {
            LessGoesOn(key, f.key, k);
          }
        }
        FirstBefore(Field(key, value), fields);
      } else {
        PutIsUpdate(rest, key, value);
        FirstBefore(f, Put(rest, key, value));
      }
    }
  }

  lemma FirstIn(fields: seq<Field>)
    requires fields != []
    ensures fields[0].key in AsMap(fields)
  {
    AsMapKeys(fields, fields[0].key);
  }

  /** In key order there is one list for a map. */
  lemma {:induction false} OneOrder(a: seq<Field>, b: seq<Field>)
    requires KeysIncrease(a) && KeysIncrease(b) && AsMap(a) == AsMap(b)
    ensures a == b
    decreases |a|
  {
    hide Less;
    if a == [] || b == [] {
      if a != [] {
        FirstIn(a);
      }
      if b != [] {
        FirstIn(b);
      }
    } else {
      AsMapFirst(a);
      AsMapFirst(b);
      FirstKeys(a, b);
      SameRest(a, b);
      OneOrder(a[1..], b[1..]);
      assert a == [Field(a[0].key, a[0].value)] + a[1..] && b == [Field(b[0].key, b[0].value)] + b[1..];
    }
  }

  lemma FirstKeys(a: seq<Field>, b: seq<Field>)
    requires a != [] && b != [] && AsMap(a) == AsMap(b)
    requires AsMap(a) == AsMap(a[1..])[a[0].key := a[0].value] && AsMap(b) == AsMap(b[1..])[b[0].key := b[0].value]
    requires forall k :: k in AsMap(a[1..]) ==> Less(a[0].key, k)
    requires forall k :: k in AsMap(b[1..]) ==> Less(b[0].key, k)
    ensures a[0] == b[0]
  {
    hide Less, AsMap;
    var k, l := a[0].key, b[0].key;
    assert k in AsMap(b) && l in AsMap(a);
    if k != l {
      assert Less(k, l) && Less(l, k);
      LessIsStrict(k, l);
    }
    assert AsMap(a)[k] == a[0].value && AsMap(b)[l] == b[0].value;
  }

  lemma SameRest(a: seq<Field>, b: seq<Field>)
    requires a != [] && b != [] && AsMap(a) == AsMap(b) && a[0].key == b[0].key
    requires AsMap(a) == AsMap(a[1..])[a[0].key := a[0].value] && AsMap(b) == AsMap(b[1..])[b[0].key := b[0].value]
    requires forall k :: k in AsMap(a[1..]) ==> Less(a[0].key, k)
    requires forall k :: k in AsMap(b[1..]) ==> Less(b[0].key, k)
    ensures AsMap(a[1..]) == AsMap(b[1..])
  {
    hide Less, AsMap;
    var k := a[0].key;
    NotLessItself(k);
    assert AsMap(a[1..]) == AsMap(a) - {k} && AsMap(b[1..]) == AsMap(b) - {k};
  }

  lemma NotLessItself(k: string)
    ensures !Less(k, k)
  {
    if Less(k, k) {
      LessIsStrict(k, k);
    }
  }
}
