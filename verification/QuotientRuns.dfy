/** Every run of filter operations is a run on a plain finite set of fingerprints. */
module QuotientRuns {
  import opened Words
  import opened RingLayout
  import opened QuotientFilter
  import opened SlotBits
  import Division

  datatype Op = Insert(hash: Word) | Remove(hash: Word) | Query(hash: Word) | Clear

  type Fingerprint = (nat, nat)

  function Split(f: Quotient, hash: Word): Fingerprint
    requires f.qBits < 64 && f.rBits < 64
  {
    (f.HashToQuotient(hash), f.HashToRemainder(hash))
  }

  /** The set after one operation: an insertion into a full filter is refused, and so is the removal of a hash
      with bits above the fingerprint. */
  function After(f: Quotient, s: set<Fingerprint>, op: Op): set<Fingerprint>
    requires f.qBits < 64 && f.rBits < 64
  {
    match op
    case Insert(h) => if |s| < f.capacity then s + {Split(f, h)} else s
    case Remove(h) => if h < Pow2(f.qBits + f.rBits) then s - {Split(f, h)} else s
    case Query(_) => s
    case Clear => {}
  }

  function Answer(f: Quotient, s: set<Fingerprint>, op: Op): bool
    requires f.qBits < 64 && f.rBits < 64
  {
    match op
    case Insert(_) => |s| < f.capacity
    case Remove(h) => h < Pow2(f.qBits + f.rBits)
    case Query(h) => Split(f, h) in s
    case Clear => true
  }

  function Replay(f: Quotient, s: set<Fingerprint>, ops: seq<Op>): set<Fingerprint>
    requires f.qBits < 64 && f.rBits < 64
  {
    if ops == [] then s else After(f, Replay(f, s, ops[..|ops| - 1]), ops[|ops| - 1])
  }

  /** Each answer given so far is the one the set gives at that point of the run. */
  ghost predicate AnswersFit(f: Quotient, s: set<Fingerprint>, ops: seq<Op>, answers: seq<bool>)
    requires f.qBits < 64 && f.rBits < 64
  {
    |answers| <= |ops| && forall i :: 0 <= i < |answers| ==> answers[i] == Answer(f, Replay(f, s, ops[..i]), ops[i])
  }

  method Perform(f: Quotient, op: Op) returns (answer: bool)
    requires f.Valid()
    modifies f, f.filter
    ensures f.Valid()
    ensures f.Fingerprints() == After(f, old(f.Fingerprints()), op)
    ensures answer == Answer(f, old(f.Fingerprints()), op)
  {
    match op {
      case Insert(h) => answer := f.Insert(h);
      case Remove(h) => answer := f.Remove(h);
      case Query(h) => answer := f.MayContain(h);
      case Clear =>
        f.Clear();
        answer := true;
    }
  }

  /** Over any run: the layout invariant holds at the end, the fingerprints and every answer on the way are those
      of the set, and the counter is the size of the set. */
  method Run(f: Quotient, ops: seq<Op>) returns (answers: seq<bool>)
    requires f.Valid()
    modifies f, f.filter
    ensures f.Valid()
    ensures f.Fingerprints() == Replay(f, old(f.Fingerprints()), ops)
    ensures f.entries == |Replay(f, old(f.Fingerprints()), ops)| <= f.capacity
    ensures |answers| == |ops| && AnswersFit(f, old(f.Fingerprints()), ops, answers)
  {
    ghost var start := f.Fingerprints();
    answers := [];
    for i := 0 to |ops|
      invariant f.Valid() && |answers| == i
      invariant f.Fingerprints() == Replay(f, start, ops[..i])
      invariant AnswersFit(f, start, ops, answers)
    {
      ReplayStep(f, start, ops, i);
      var a := Perform(f, ops[i]);
      answers := answers + [a];
    }
    assert ops[..|ops|] == ops;
    EntriesFit(f.cells);
  }

  lemma ReplayStep(f: Quotient, s: set<Fingerprint>, ops: seq<Op>, i: nat)
    requires f.qBits < 64 && f.rBits < 64 && i < |ops|
    ensures Replay(f, s, ops[..i + 1]) == After(f, Replay(f, s, ops[..i]), ops[i])
  {
    assert ops[..i + 1][..i] == ops[..i];
  }

  // ----- what a fingerprint is

  lemma {:induction false} ShrIsQuotient(x: Word, s: nat)
    ensures Shr(x, s) == x / Pow2(s)
    decreases s
  {
    if s > 0 {
      ShrIsQuotient(x / 2, s - 1);
      HalfFirst(x, Pow2(s - 1));
    }
  }

  lemma HalfFirst(x: nat, d: nat)
    requires d > 0
    ensures x / 2 / d == x / (2 * d)
  {
    var q, r := x / 2 / d, x / 2 % d;
    assert x / 2 == q * d + r;
    Division.Quotient(x, 2 * d, q, 2 * r + x % 2);
  }

  /** The remainder is the low bits of the hash, the quotient those above them. */
  lemma SplitIs(f: Quotient, hash: Word)
    requires f.qBits < 64 && f.rBits < 64
    ensures Split(f, hash) == (hash / Pow2(f.rBits) % Pow2(f.qBits), hash % Pow2(f.rBits))
  {
    ShrIsQuotient(hash, f.rBits);
    MaskIsMod(Shr(hash, f.rBits), f.qBits);
    MaskIsMod(hash, f.rBits);
  }

  lemma LowParts(x: nat, q: nat, r: nat)
    requires q > 0 && r > 0
    ensures q * r > 0 && x % (q * r) == x / r % q * r + x % r
  {
    var y := x / r;
    Whole(x, r);
    Whole(y, q);
    TwoDigits(x, y, y / q, y % q, x % r, q, r);
  }

  lemma Whole(x: nat, r: nat)
    requires r > 0
    ensures x == x / r * r + x % r
  {
  }

  lemma TwoDigits(x: nat, y: nat, a: nat, b: nat, c: nat, q: nat, r: nat)
    requires x == y * r + c && y == a * q + b && b < q && c < r
    ensures q * r > 0 && x % (q * r) == b * r + c
  {
    Regroup(a, b, q, r);
    MulMonotone(b, q - 1, r);
    LessOne(q, r);
    Division.Quotient(x, q * r, a, b * r + c);
  }

  lemma LessOne(q: nat, r: nat)
    requires q > 0 && r > 0
    ensures (q - 1) * r == q * r - r && q * r > 0
  {
    MulMonotone(1, q, r);
  }

  lemma Regroup(a: nat, b: nat, q: nat, r: nat)
    ensures (a * q + b) * r == a * (q * r) + b * r
  {
  }

  lemma SameParts(a: nat, b: nat, c: nat, d: nat, r: nat)
    requires b < r && d < r && a * r + b == c * r + d
    ensures a == c && b == d
  {
    Division.Quotient(a * r + b, r, a, b);
    Division.Quotient(c * r + d, r, c, d);
  }

  /** Two hashes have the same fingerprint exactly when they agree in their low bits, as many as quotient and remainder have
      together. */
  lemma SameFingerprint(f: Quotient, a: Word, b: Word)
    requires f.qBits < 64 && f.rBits < 64
    ensures Split(f, a) == Split(f, b) <==> a % Pow2(f.qBits + f.rBits) == b % Pow2(f.qBits + f.rBits)
  {
    hide Split, Pow2;
    var q, r := Pow2(f.qBits), Pow2(f.rBits);
    SplitIs(f, a);
    SplitIs(f, b);
    Pow2Sum(f.qBits, f.rBits);
    LowParts(a, q, r);
    LowParts(b, q, r);
    if a % (q * r) == b % (q * r) {
      SameParts(a / r % q, a % r, b / r % q, b % r, r);
    }
  }
}
