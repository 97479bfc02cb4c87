/** Infix expressions into postfix and prefix notation. */
module Notation {
  datatype Result<T> = Ok(value: T) | EmptyStack

  predicate IsOperand(c: char) {
    'a' <= c <= 'z' || 'A' <= c <= 'Z' || '0' <= c <= '9'
  }

  function GetPriority(c: char): nat {
    if c == '+' || c == '-' then 1 else if c == '*' || c == '/' then 2 else if c == '^' then 3 else 0
  }

  // ----- what the converter does, stack tops first

  datatype Machine = Machine(stack: string, out: string)

  /** Pops while the operator on top binds as strongly as `c`. */
  function PopStronger(c: char, m: Machine): (r: Machine)
    ensures |r.stack| <= |m.stack|
    decreases |m.stack|
  {
    if m.stack != [] && GetPriority(c) <= GetPriority(m.stack[0])
    then PopStronger(c, Machine(m.stack[1..], m.out + [m.stack[0]]))
    else m
  }

  /** Pops up to and including the opening parenthesis; without one the empty stack is read. */
  function PopGroup(m: Machine): Result<Machine>
    decreases |m.stack|
  {
    if m.stack == [] then EmptyStack
    else if m.stack[0] == '(' then Ok(Machine(m.stack[1..], m.out))
    else PopGroup(Machine(m.stack[1..], m.out + [m.stack[0]]))
  }

  function Step(c: char, m: Machine): Result<Machine> {
    if IsOperand(c) then Ok(Machine(m.stack, m.out + [c]))
    else if c == '(' then Ok(Machine(['('] + m.stack, m.out))
    else if c == ')' then PopGroup(m)
    else
      var p := PopStronger(c, m);
      Ok(Machine([c] + p.stack, p.out))
  }

  function Run(infix: string, m: Machine): Result<Machine>
    decreases |infix|
  {
    if infix == [] then Ok(m)
    else match Step(infix[0], m)
      case Ok(next) => Run(infix[1..], next)
      case EmptyStack => EmptyStack
  }

  function Postfix(infix: string): Result<string> {
    match Run(infix, Machine([], []))
    case Ok(m) => Ok(m.out + m.stack)
    case EmptyStack => EmptyStack
  }

  function Swapped(c: char): char {
    if c == '(' then ')' else if c == ')' then '(' else c
  }

  function Reversed(s: string): string {
    if s == [] then [] else Reversed(s[1..]) + [s[0]]
  }

  function SwappedAll(s: string): string {
    if s == [] then [] else [Swapped(s[0])] + SwappedAll(s[1..])
  }

  function Prefix(infix: string): Result<string> {
    match Postfix(SwappedAll(Reversed(infix)))
    case Ok(s) => Ok(Reversed(s))
    case EmptyStack => EmptyStack
  }

  // ----- the loops

  method InfixToPostfix(infix: string) returns (r: Result<string>)
    ensures r == Postfix(infix)
  {
    hide PopStronger, PopGroup, IsOperand;
    var postfix, stack := "", "";
    assert infix[0..] == infix;
    for i := 0 to |infix|
      invariant Run(infix[i..], Machine(stack, postfix)) == Run(infix, Machine([], []))
    {
      var c := infix[i];
      assert infix[i..][0] == c && infix[i..][1..] == infix[i + 1..];
      if IsOperand(c) {
        postfix := postfix + [c];
      } else if c == '(' {
        stack := ['('] + stack;
      } else if c == ')' {
        var ok;
        stack, postfix, ok := PopToParenthesis(stack, postfix);
        if !ok {
          return EmptyStack;
        }
      } else {
        stack, postfix := PopOperators(c, stack, postfix);
        stack := [c] + stack;
      }
    }
    while stack != []
      invariant Postfix(infix) == Ok(postfix + stack)
    {
      assert postfix + stack == postfix + [stack[0]] + stack[1..];
      postfix, stack := postfix + [stack[0]], stack[1..];
    }
    assert postfix + stack == postfix;
    return Ok(postfix);
  }

  method PopToParenthesis(stack: string, postfix: string) returns (stack': string, postfix': string, ok: bool)
    ensures PopGroup(Machine(stack, postfix)) == if ok then Ok(Machine(stack', postfix')) else EmptyStack
  {
    stack', postfix' := stack, postfix;
    while stack' != [] && stack'[0] != '('
      invariant PopGroup(Machine(stack', postfix')) == PopGroup(Machine(stack, postfix))
    {
      postfix', stack' := postfix' + [stack'[0]], stack'[1..];
    }
    ok := stack' != [];
    if ok {
      stack' := stack'[1..];
    }
  }

  method PopOperators(c: char, stack: string, postfix: string) returns (stack': string, postfix': string)
    ensures PopStronger(c, Machine(stack, postfix)) == Machine(stack', postfix')
  {
    hide GetPriority;
    stack', postfix' := stack, postfix;
    while stack' != [] && GetPriority(c) <= GetPriority(stack'[0])
      invariant PopStronger(c, Machine(stack', postfix')) == PopStronger(c, Machine(stack, postfix))
    {
      postfix', stack' := postfix' + [stack'[0]], stack'[1..];
    }
  }

  method ConvertToPrefix(infix: string) returns (r: Result<string>)
    ensures r == Prefix(infix)
  {
    hide Postfix;
    var preprocess := Reverse(infix);
    preprocess := SwapParentheses(preprocess);
    r := InfixToPostfix(preprocess);
    if r.Ok? {
      var notation := Reverse(r.value);
      r := Ok(notation);
    }
  }

  method Reverse(s: string) returns (r: string)
    ensures r == Reversed(s)
  {
    r := "";
    for i := 0 to |s|
      invariant Reversed(s[i..]) + r == Reversed(s)
    {
      assert s[i..][1..] == s[i + 1..];
      assert Reversed(s[i + 1..]) + [s[i]] + r == Reversed(s[i + 1..]) + ([s[i]] + r);
      r := [s[i]] + r;
    }
    assert [] + r == r;
  }

  method SwapParentheses(s: string) returns (r: string)
    ensures r == SwappedAll(s)
  {
    r := "";
    for i := 0 to |s|
      invariant r + SwappedAll(s[i..]) == SwappedAll(s)
    {
      assert s[i..][1..] == s[i + 1..];
      assert r + ([Swapped(s[i])] + SwappedAll(s[i + 1..])) == r + [Swapped(s[i])] + SwappedAll(s[i + 1..]);
      r := r + [Swapped(s[i])];
    }
    assert r + [] == r;
  }

  // ----- expressions and how they may be written

  datatype Expr = Leaf(c: char) | Apply(op: char, left: Expr, right: Expr)

  function PostOrder(e: Expr): string {
    match e
    case Leaf(c) => [c]
    case Apply(op, l, r) => PostOrder(l) + (PostOrder(r) + [op])
  }

  function PreOrder(e: Expr): string {
    match e
    case Leaf(c) => [c]
    case Apply(op, l, r) => [op] + (PreOrder(l) + PreOrder(r))
  }

  /** A rendering: an expression with its parentheses. */
  datatype Written = Atom(c: char) | Binary(op: char, left: Written, right: Written) | Paren(inner: Written)

  function Show(w: Written): string {
    match w
    case Atom(c) => [c]
    case Binary(op, l, r) => Show(l) + ([op] + Show(r))
    case Paren(v) => ['('] + (Show(v) + [')'])
  }

  function Meaning(w: Written): Expr {
    match w
    case Atom(c) => Leaf(c)
    case Binary(op, l, r) => Apply(op, Meaning(l), Meaning(r))
    case Paren(v) => Meaning(v)
  }

  ghost predicate Spelled(w: Written) {
    match w
    case Atom(c) => IsOperand(c)
    case Binary(op, l, r) => GetPriority(op) > 0 && Spelled(l) && Spelled(r)
    case Paren(v) => Spelled(v)
  }

  /** How strongly a rendering holds together. */
  function Strength(w: Written): nat {
    if w.Binary? then GetPriority(w.op) else 4
  }

  /** Parentheses are omitted only by priority and, among operators of one priority, by grouping to the left. */
  ghost predicate LeftGrouped(w: Written) {
    match w
    case Atom(_) => true
    case Binary(op, l, r) =>
      Strength(l) >= GetPriority(op) && Strength(r) > GetPriority(op) && LeftGrouped(l) && LeftGrouped(r)
    case Paren(v) => LeftGrouped(v)
  }

  ghost predicate RightGrouped(w: Written) {
    match w
    case Atom(_) => true
    case Binary(op, l, r) =>
      Strength(l) > GetPriority(op) && Strength(r) >= GetPriority(op) && RightGrouped(l) && RightGrouped(r)
    case Paren(v) => RightGrouped(v)
  }

  /** Every application below the top stands in parentheses. */
  ghost predicate FullyParenthesised(w: Written) {
    match w
    case Atom(_) => true
    case Binary(op, l, r) => !l.Binary? && !r.Binary? && FullyParenthesised(l) && FullyParenthesised(r)
    case Paren(v) => FullyParenthesised(v)
  }

  // ----- the grammar, character by character

  /** A letter or a digit. */
  predicate IsName(c: char) {
    'a' <= c <= 'z' || 'A' <= c <= 'Z' || '0' <= c <= '9'
  }

  /** A name, or a sum in parentheses. */
  ghost predicate LeftFactor(w: Written)
    decreases w, 0
  {
    (w.Atom? && IsName(w.c)) || (w.Paren? && LeftSum(w.inner))
  }

  ghost predicate LeftPower(w: Written)
    decreases w, 1
  {
    if w.Binary? && w.op == '^' then LeftPower(w.left) && LeftFactor(w.right) else LeftFactor(w)
  }

  ghost predicate LeftProduct(w: Written)
    decreases w, 2
  {
    if w.Binary? && (w.op == '*' || w.op == '/') then LeftProduct(w.left) && LeftPower(w.right) else LeftPower(w)
  }

  /** Products joined by plus and minus, powers by times and over, factors by the caret; equals group to the left. */
  ghost predicate LeftSum(w: Written)
    decreases w, 3
  {
    if w.Binary? && (w.op == '+' || w.op == '-') then LeftSum(w.left) && LeftProduct(w.right) else LeftProduct(w)
  }

  ghost predicate RightFactor(w: Written)
    decreases w, 0
  {
    (w.Atom? && IsName(w.c)) || (w.Paren? && RightSum(w.inner))
  }

  ghost predicate RightPower(w: Written)
    decreases w, 1
  {
    if w.Binary? && w.op == '^' then RightFactor(w.left) && RightPower(w.right) else RightFactor(w)
  }

  ghost predicate RightProduct(w: Written)
    decreases w, 2
  {
    if w.Binary? && (w.op == '*' || w.op == '/') then RightPower(w.left) && RightProduct(w.right) else RightPower(w)
  }

  /** The same, with equals grouping to the right. */
  ghost predicate RightSum(w: Written)
    decreases w, 3
  {
    if w.Binary? && (w.op == '+' || w.op == '-') then RightProduct(w.left) && RightSum(w.right) else RightProduct(w)
  }

  /** Priorities describe just that grammar. */
  lemma {:induction false} LeftGrammar(w: Written)
    ensures LeftSum(w) <==> Spelled(w) && LeftGrouped(w)
    ensures LeftProduct(w) <==> Spelled(w) && LeftGrouped(w) && Strength(w) >= 2
    ensures LeftPower(w) <==> Spelled(w) && LeftGrouped(w) && Strength(w) >= 3
    ensures LeftFactor(w) <==> Spelled(w) && LeftGrouped(w) && Strength(w) >= 4
  {
    assert LeftFactor(w) <==> (w.Atom? && IsName(w.c)) || (w.Paren? && LeftSum(w.inner));
    assert LeftPower(w) <==> if w.Binary? && w.op == '^' then LeftPower(w.left) && LeftFactor(w.right) else LeftFactor(w);
    assert LeftProduct(w) <==> if w.Binary? && (w.op == '*' || w.op == '/') then LeftProduct(w.left) && LeftPower(w.right) else LeftPower(w);
    assert LeftSum(w) <==> if w.Binary? && (w.op == '+' || w.op == '-') then LeftSum(w.left) && LeftProduct(w.right) else LeftProduct(w);
    match w
    case Atom(_) =>
    case Binary(op, l, r) =>
      LeftGrammar(l);
      LeftGrammar(r);
    case Paren(v) => LeftGrammar(v);
  }

  lemma {:induction false} RightGrammar(w: Written)
    ensures RightSum(w) <==> Spelled(w) && RightGrouped(w)
    ensures RightProduct(w) <==> Spelled(w) && RightGrouped(w) && Strength(w) >= 2
    ensures RightPower(w) <==> Spelled(w) && RightGrouped(w) && Strength(w) >= 3
    ensures RightFactor(w) <==> Spelled(w) && RightGrouped(w) && Strength(w) >= 4
  {
    assert RightFactor(w) <==> (w.Atom? && IsName(w.c)) || (w.Paren? && RightSum(w.inner));
    assert RightPower(w) <==> if w.Binary? && w.op == '^' then RightFactor(w.left) && RightPower(w.right) else RightFactor(w);
    assert RightProduct(w) <==> if w.Binary? && (w.op == '*' || w.op == '/') then RightPower(w.left) && RightProduct(w.right) else RightPower(w);
    assert RightSum(w) <==> if w.Binary? && (w.op == '+' || w.op == '-') then RightProduct(w.left) && RightSum(w.right) else RightProduct(w);
    match w
    case Atom(_) =>
    case Binary(op, l, r) =>
      RightGrammar(l);
      RightGrammar(r);
    case Paren(v) => RightGrammar(v);
  }

  /** Names joined by the five operators. */
  ghost predicate Named(w: Written) {
    match w
    case Atom(c) => IsName(c)
    case Binary(op, l, r) => (op == '+' || op == '-' || op == '*' || op == '/' || op == '^') && Named(l) && Named(r)
    case Paren(v) => Named(v)
  }

  lemma {:induction false} NamedIsSpelled(w: Written)
    ensures Named(w) <==> Spelled(w)
  {
    match w
    case Atom(_) =>
    case Binary(_, l, r) =>
      NamedIsSpelled(l);
      NamedIsSpelled(r);
    case Paren(v) => NamedIsSpelled(v);
  }

  // ----- postfix

  /** The operators left on the stack by a rendering all bind at least as strongly as it does. */
  ghost predicate Pending(ops: string, strength: nat) {
    forall i :: 0 <= i < |ops| ==> GetPriority(ops[i]) >= strength && ops[i] != '('
  }

  ghost predicate Weaker(stack: string, strength: nat) {
    stack != [] ==> GetPriority(stack[0]) < strength
  }

  lemma {:induction false} PopsPending(c: char, ops: string, stack: string, out: string)
    requires Pending(ops, GetPriority(c)) && Weaker(stack, GetPriority(c))
    ensures PopStronger(c, Machine(ops + stack, out)) == Machine(stack, out + ops)
    decreases |ops|
  {
    hide GetPriority;
    if ops != [] {
      var all := ops + stack;
      assert all[0] == ops[0] && all[1..] == ops[1..] + stack;
      PopsPending(c, ops[1..], stack, out + [ops[0]]);
      assert out + [ops[0]] + ops[1..] == out + ops;
    } else {
      assert ops + stack == stack && out + ops == out;
    }
  }

  lemma {:induction false} PopsGroup(ops: string, stack: string, out: string)
    requires Pending(ops, 1)
    ensures PopGroup(Machine(ops + (['('] + stack), out)) == Ok(Machine(stack, out + ops))
    decreases |ops|
  {
    hide GetPriority;
    var all := ops + (['('] + stack);
    if ops != [] {
      assert all[0] == ops[0] && all[1..] == ops[1..] + (['('] + stack);
      PopsGroup(ops[1..], stack, out + [ops[0]]);
      assert out + [ops[0]] + ops[1..] == out + ops;
    } else {
      assert all[0] == '(' && all[1..] == stack && out + ops == out;
    }
  }

  lemma RunOne(c: char, rest: string, m: Machine, next: Machine)
    requires Step(c, m) == Ok(next)
    ensures Run([c] + rest, m) == Run(rest, next)
  {
    hide Step;
    assert ([c] + rest)[0] == c && ([c] + rest)[1..] == rest;
  }

  /** Reading a rendering writes `x` and leaves `y` on the stack, which together are its post-order walk; what was on the
      stack before stays there. */
  lemma {:induction false} Reads(w: Written, rest: string, stack: string, out: string) returns (x: string, y: string)
    requires Spelled(w) && LeftGrouped(w) && Weaker(stack, Strength(w))
    ensures x + y == PostOrder(Meaning(w)) && Pending(y, Strength(w)) && Pending(y, 1)
    ensures Run(Show(w) + rest, Machine(stack, out)) == Run(rest, Machine(y + stack, out + x))
    decreases w
  {
    match w
    case Atom(c) =>
      x, y := [c], [];
      RunOne(c, rest, Machine(stack, out), Machine(stack, out + [c]));
      assert [] + stack == stack && x + y == [c];
    case Binary(op, l, r) => x, y := ReadsBinary(w, rest, stack, out);
    case Paren(v) => x, y := ReadsParen(w, rest, stack, out);
  }

  lemma {:induction false} ReadsBinary(w: Written, rest: string, stack: string, out: string) returns (x: string, y: string)
    requires w.Binary? && Spelled(w) && LeftGrouped(w) && Weaker(stack, Strength(w))
    ensures x + y == PostOrder(Meaning(w)) && Pending(y, Strength(w)) && Pending(y, 1)
    ensures Run(Show(w) + rest, Machine(stack, out)) == Run(rest, Machine(y + stack, out + x))
    decreases w, 0
  {
    hide Run, Step, GetPriority, IsOperand, PopStronger;
    var op, l, r := w.op, w.left, w.right;
    var after := Show(r) + rest;
    assert Show(w) + rest == Show(l) + ([op] + after);
    var xl, yl := Reads(l, [op] + after, stack, out);
    TakesOperator(op, yl, stack, out + xl);
    RunOne(op, after, Machine(yl + stack, out + xl), Machine([op] + stack, out + xl + yl));
    var xr, yr := Reads(r, rest, [op] + stack, out + xl + yl);
    x, y := xl + yl + xr, yr + [op];
    Assembled(xl, yl, xr, yr, op, PostOrder(Meaning(l)), PostOrder(Meaning(r)), out, stack);
    PendingOperator(op);
  }

  lemma PendingOperator(op: char)
    requires GetPriority(op) > 0
    ensures op != '('
  {
  }

  lemma Assembled(xl: string, yl: string, xr: string, yr: string, op: char, pl: string, pr: string, out: string, stack: string)
    requires xl + yl == pl && xr + yr == pr
    ensures (xl + yl + xr) + (yr + [op]) == pl + (pr + [op])
    ensures yr + ([op] + stack) == (yr + [op]) + stack && out + xl + yl + xr == out + (xl + yl + xr)
  {
  }

  /** An operator takes the pending ones off the stack. */
  lemma TakesOperator(op: char, ops: string, stack: string, out: string)
    requires GetPriority(op) > 0 && Pending(ops, GetPriority(op)) && Weaker(stack, GetPriority(op))
    ensures Step(op, Machine(ops + stack, out)) == Ok(Machine([op] + stack, out + ops))
  {
    hide PopStronger;
    PopsPending(op, ops, stack, out);
  }

  lemma {:induction false} ReadsParen(w: Written, rest: string, stack: string, out: string) returns (x: string, y: string)
    requires w.Paren? && Spelled(w) && LeftGrouped(w)
    ensures x + y == PostOrder(Meaning(w)) && Pending(y, Strength(w)) && Pending(y, 1)
    ensures Run(Show(w) + rest, Machine(stack, out)) == Run(rest, Machine(y + stack, out + x))
    decreases w, 0
  {
    hide Run, PopGroup;
    var v, after := w.inner, [')'] + rest;
    assert Show(w) + rest == ['('] + (Show(v) + after);
    RunOne('(', Show(v) + after, Machine(stack, out), Machine(['('] + stack, out));
    StrengthAtLeast(v);
    var xv, yv := Reads(v, after, ['('] + stack, out);
    PopsGroup(yv, stack, out + xv);
    RunOne(')', rest, Machine(yv + (['('] + stack), out + xv), Machine(stack, out + xv + yv));
    x, y := xv + yv, [];
    assert out + xv + yv == out + x && [] + stack == stack && x + [] == x;
  }

  lemma StrengthAtLeast(w: Written)
    requires Spelled(w)
    ensures Strength(w) >= 1
  {
  }

  /** Converting a sum that groups to the left gives the post-order walk, and never reads the empty stack. */
  lemma PostfixIsPostOrder(w: Written)
    requires LeftSum(w)
    ensures Postfix(Show(w)) == Ok(PostOrder(Meaning(w)))
  {
    LeftGrammar(w);
    GroupedPostfix(w);
  }

  lemma GroupedPostfix(w: Written)
    requires Spelled(w) && LeftGrouped(w)
    ensures Postfix(Show(w)) == Ok(PostOrder(Meaning(w)))
  {
    hide Step, GetPriority;
    var x, y := Reads(w, "", "", "");
    assert Show(w) + "" == Show(w) && y + "" == y && "" + x == x;
  }

  // ----- prefix

  function Mirrored(w: Written): Written {
    match w
    case Atom(c) => w
    case Binary(op, l, r) => Binary(op, Mirrored(r), Mirrored(l))
    case Paren(v) => Paren(Mirrored(v))
  }

  lemma {:induction false} ReversedJoin(a: string, b: string)
    ensures Reversed(a + b) == Reversed(b) + Reversed(a)
  {
    if a == [] {
      assert a + b == b && Reversed(b) + [] == Reversed(b);
    } else {
      assert (a + b)[0] == a[0] && (a + b)[1..] == a[1..] + b;
      ReversedJoin(a[1..], b);
      assert Reversed(b) + Reversed(a[1..]) + [a[0]] == Reversed(b) + (Reversed(a[1..]) + [a[0]]);
    }
  }

  lemma {:induction false} SwappedJoin(a: string, b: string)
    ensures SwappedAll(a + b) == SwappedAll(a) + SwappedAll(b)
  {
    hide Swapped;
    if a == [] {
      assert a + b == b;
    } else {
      assert (a + b)[0] == a[0] && (a + b)[1..] == a[1..] + b;
      SwappedJoin(a[1..], b);
    }
  }

  ghost function Flipped(s: string): string {
    SwappedAll(Reversed(s))
  }

  lemma FlippedJoin(a: string, b: string)
    ensures Flipped(a + b) == Flipped(b) + Flipped(a)
  {
    hide SwappedAll, Reversed;
    ReversedJoin(a, b);
    SwappedJoin(Reversed(b), Reversed(a));
  }

  lemma FlippedOne(c: char)
    ensures Flipped([c]) == [Swapped(c)]
  {
    hide Swapped;
    assert [c][1..] == [] && Reversed([c]) == [c];
    assert SwappedAll([c]) == [Swapped(c)] + SwappedAll([]);
  }

  /** The preprocessed text is a rendering of the mirrored expression. */
  lemma {:induction false} FlippedShow(w: Written)
    requires Spelled(w)
    ensures Flipped(Show(w)) == Show(Mirrored(w))
  {
    hide Flipped;
    match w
    case Atom(c) => FlippedOne(c);
    case Binary(op, l, r) =>
      FlippedJoin(Show(l), [op] + Show(r));
      FlippedJoin([op], Show(r));
      FlippedOne(op);
      FlippedShow(l);
      FlippedShow(r);
      assert Show(Mirrored(r)) + [op] + Show(Mirrored(l)) == Show(Mirrored(r)) + ([op] + Show(Mirrored(l)));
    case Paren(v) =>
      FlippedJoin(['('], Show(v) + [')']);
      FlippedJoin(Show(v), [')']);
      FlippedOne('(');
      FlippedOne(')');
      FlippedShow(v);
      assert ['('] + Show(Mirrored(v)) + [')'] == ['('] + (Show(Mirrored(v)) + [')']);
  }

  lemma MirroredStrength(w: Written)
    ensures Strength(Mirrored(w)) == Strength(w)
  {
  }

  lemma {:induction false} MirroredGrouping(w: Written)
    ensures LeftGrouped(Mirrored(w)) <==> RightGrouped(w)
    ensures Spelled(Mirrored(w)) <==> Spelled(w)
  {
    match w
    case Atom(_) =>
    case Binary(op, l, r) =>
      MirroredGrouping(l);
      MirroredGrouping(r);
      MirroredStrength(l);
      MirroredStrength(r);
    case Paren(v) => MirroredGrouping(v);
  }

  lemma {:induction false} MirroredWalk(w: Written)
    ensures Reversed(PostOrder(Meaning(Mirrored(w)))) == PreOrder(Meaning(w))
  {
    match w
    case Atom(c) => assert [c][1..] == [] && Reversed([c]) == [c];
    case Binary(op, l, r) =>
      var a, b := PostOrder(Meaning(Mirrored(r))), PostOrder(Meaning(Mirrored(l)));
      MirroredWalk(l);
      MirroredWalk(r);
      ReversedJoin(a, b + [op]);
      ReversedJoin(b, [op]);
      assert [op][1..] == [] && Reversed([op]) == [op];
    case Paren(v) => MirroredWalk(v);
  }

  /** Converting a sum that groups to the right gives the pre-order walk, and never reads the empty stack. */
  lemma PrefixIsPreOrder(w: Written)
    requires RightSum(w)
    ensures Prefix(Show(w)) == Ok(PreOrder(Meaning(w)))
  {
    RightGrammar(w);
    GroupedPrefix(w);
  }

  lemma GroupedPrefix(w: Written)
    requires Spelled(w) && RightGrouped(w)
    ensures Prefix(Show(w)) == Ok(PreOrder(Meaning(w)))
  {
    hide Spelled, LeftGrouped, RightGrouped, Show, Postfix, PreOrder, PostOrder;
    FlippedShow(w);
    MirroredGrouping(w);
    GroupedPostfix(Mirrored(w));
    MirroredWalk(w);
  }

  lemma {:induction false} FullIsGrouped(w: Written)
    requires Spelled(w) && FullyParenthesised(w)
    ensures LeftGrouped(w) && RightGrouped(w)
  {
    match w
    case Atom(_) =>
    case Binary(op, l, r) =>
      FullIsGrouped(l);
      FullIsGrouped(r);
    case Paren(v) => FullIsGrouped(v);
  }

  /** With all parentheses written, both conversions give the walks of the expression. */
  lemma FullGivesBoth(w: Written)
    requires Named(w) && FullyParenthesised(w)
    ensures Postfix(Show(w)) == Ok(PostOrder(Meaning(w))) && Prefix(Show(w)) == Ok(PreOrder(Meaning(w)))
  {
    hide Spelled, LeftGrouped, RightGrouped, Show, Postfix, Prefix, PreOrder, PostOrder, FullyParenthesised;
    NamedIsSpelled(w);
    FullIsGrouped(w);
    GroupedPostfix(w);
    GroupedPrefix(w);
  }

  // ----- when the empty stack is read, for any text

  /** A character that counts as an operator without being one of the five: it binds no more than a parenthesis. */
  predicate IsUnknown(c: char) {
    !IsName(c) && c != '(' && c != ')' && c != '+' && c != '-' && c != '*' && c != '/' && c != '^'
  }

  /** No parenthesis closes that is not open, `open` being open before, where an unknown operator undoes all that are open. */
  predicate Closed(s: string, open: nat) {
    if s == [] then true
    else if s[0] == '(' then Closed(s[1..], open + 1)
    else if s[0] == ')' then open > 0 && Closed(s[1..], open - 1)
    else Closed(s[1..], if IsUnknown(s[0]) then 0 else open)
  }

  function Opens(stack: string): nat {
    if stack == [] then 0 else (if stack[0] == '(' then 1 else 0) + Opens(stack[1..])
  }

  lemma {:induction false} GroupOpens(m: Machine)
    ensures PopGroup(m).Ok? <==> Opens(m.stack) > 0
    ensures PopGroup(m).Ok? ==> Opens(PopGroup(m).value.stack) == Opens(m.stack) - 1
    decreases |m.stack|
  {
    if m.stack != [] && m.stack[0] != '(' {
      GroupOpens(Machine(m.stack[1..], m.out + [m.stack[0]]));
    }
  }

  lemma {:induction false} StrongerOpens(c: char, m: Machine)
    ensures Opens(PopStronger(c, m).stack) == if GetPriority(c) > 0 then Opens(m.stack) else 0
    decreases |m.stack|
  {
    if m.stack != [] && GetPriority(c) <= GetPriority(m.stack[0]) {
      StrongerOpens(c, Machine(m.stack[1..], m.out + [m.stack[0]]));
    }
  }

  ghost function OpensAfter(c: char, open: nat): int {
    if c == '(' then open + 1 else if c == ')' then open - 1 else if IsUnknown(c) then 0 else open
  }

  lemma StepOpens(c: char, m: Machine)
    ensures Step(c, m).Ok? <==> (c == ')' ==> Opens(m.stack) > 0)
    ensures Step(c, m).Ok? ==> Opens(Step(c, m).value.stack) == OpensAfter(c, Opens(m.stack))
  {
    hide PopStronger, PopGroup;
    if c == ')' {
      GroupOpens(m);
    } else if c == '(' {
      assert (['('] + m.stack)[1..] == m.stack;
    } else if !IsOperand(c) {
      StrongerOpens(c, m);
      var p := PopStronger(c, m);
      assert ([c] + p.stack)[1..] == p.stack;
    }
  }

  lemma {:induction false} RunSafe(s: string, m: Machine)
    ensures Run(s, m).Ok? <==> Closed(s, Opens(m.stack))
    decreases |s|
  {
    hide Step, Opens, IsUnknown;
    if s != [] {
      StepOpens(s[0], m);
      var next := Step(s[0], m);
      if next.Ok? {
        RunSafe(s[1..], next.value);
      }
    }
  }

  /** Converting to postfix reads the empty stack exactly on texts that close a parenthesis that is not open. */
  lemma SafeIffClosed(s: string)
    ensures Postfix(s).Ok? <==> Closed(s, 0)
  {
    hide Run, Closed;
    RunSafe(s, Machine([], []));
    assert Opens("") == 0;
  }

  /** The same read from the end, where a closing parenthesis opens. */
  predicate ClosedBackwards(s: string, open: nat) {
    if s == [] then true
    else
      var c, rest := s[|s| - 1], s[..|s| - 1];
      if c == ')' then ClosedBackwards(rest, open + 1)
      else if c == '(' then open > 0 && ClosedBackwards(rest, open - 1)
      else ClosedBackwards(rest, if IsUnknown(c) then 0 else open)
  }

  lemma {:induction false} FlippedClosed(s: string, open: nat)
    ensures Closed(Flipped(s), open) <==> ClosedBackwards(s, open)
    decreases |s|
  {
    hide Flipped, IsUnknown;
    if s == [] {
      FlippedNothing();
    } else {
      var c, rest := s[|s| - 1], s[..|s| - 1];
      assert s == rest + [c];
      FlippedJoin(rest, [c]);
      FlippedOne(c);
      var f := [Swapped(c)] + Flipped(rest);
      assert f[0] == Swapped(c) && f[1..] == Flipped(rest);
      UnknownStays(c);
      FlippedClosed(rest, if c == ')' then open + 1 else if c == '(' && open > 0 then open - 1 else if IsUnknown(c) then 0 else open);
    }
  }

  lemma FlippedNothing()
    ensures Flipped("") == ""
  {
  }

  lemma UnknownStays(c: char)
    ensures Swapped(c) == c || c == '(' || c == ')'
    ensures c == '(' || c == ')' ==> !IsUnknown(c)
  {
  }

  /** Converting to prefix reads the empty stack exactly on texts that, read from the end, open a parenthesis that is not
      closed. */
  lemma PrefixSafeIffClosed(s: string)
    ensures Prefix(s).Ok? <==> ClosedBackwards(s, 0)
  {
    hide Postfix, Closed, ClosedBackwards, SwappedAll, Reversed;
    SafeIffClosed(Flipped(s));
    FlippedClosed(s, 0);
  }

  /** A space, or any other unknown operator, between parentheses makes both conversions read the empty stack. */
  lemma UnknownOperatorReadsEmptyStack(c: char)
    requires IsUnknown(c)
    ensures Postfix(['(', c, ')']) == EmptyStack && Prefix(['(', c, ')']) == EmptyStack
  {
    hide Postfix, Prefix, IsUnknown;
    var s := ['(', c, ')'];
    SafeIffClosed(s);
    PrefixSafeIffClosed(s);
    NotParenthesis(c);
    assert s[1..] == [c, ')'] && s[1..][1..] == [')'];
    assert !Closed([')'], 0) && !Closed([c, ')'], 1);
    assert s[..2] == ['(', c] && s[..2][..1] == ['('];
    assert !ClosedBackwards(['('], 0) && !ClosedBackwards(['(', c], 1);
  }

  lemma NotParenthesis(c: char)
    requires IsUnknown(c)
    ensures c != '(' && c != ')'
  {
  }

  /** Without unknown operators that is plain matching of parentheses. */
  lemma {:induction false} ClosedIsMatching(s: string, open: nat)
    requires forall i :: 0 <= i < |s| ==> !IsUnknown(s[i])
    ensures Closed(s, open) <==> forall k :: 0 <= k <= |s| ==> Balance(s[..k]) + open >= 0
    decreases |s|
  {
    hide IsUnknown;
    if s == [] {
      assert s[..0] == [];
    } else {
      var b := if s[0] == '(' then 1 else if s[0] == ')' then -1 else 0;
      var rest := s[1..];
      forall k | 1 <= k <= |s|
        ensures Balance(s[..k]) == b + Balance(rest[..k - 1])
      {
        assert s[..k][1..] == rest[..k - 1];
      }
      assert s[..0] == [] && Balance(rest[..0]) == 0;
      if open + b >= 0 {
        ClosedIsMatching(rest, open + b);
        forall k | 0 <= k <= |rest|
          ensures Balance(s[..k + 1]) == b + Balance(rest[..k])
        {
        }
      } else {
        assert Balance(s[..1]) == b + Balance(rest[..0]);
      }
    }
  }

  /** Opening less closing parentheses. */
  function Balance(s: string): int {
    if s == [] then 0 else (if s[0] == '(' then 1 else if s[0] == ')' then -1 else 0) + Balance(s[1..])
  }

  // ----- what any text keeps

  /** The names of a text, in their order. */
  function Names(s: string): string {
    if s == [] then [] else (if IsName(s[0]) then [s[0]] else []) + Names(s[1..])
  }

  lemma {:induction false} NamesJoin(a: string, b: string)
    ensures Names(a + b) == Names(a) + Names(b)
  {
    if a == [] {
      assert a + b == b;
    } else {
      assert (a + b)[0] == a[0] && (a + b)[1..] == a[1..] + b;
      NamesJoin(a[1..], b);
    }
  }

  /** A stack holds no names and no closing parenthesis. */
  ghost predicate Clean(stack: string) {
    forall i :: 0 <= i < |stack| ==> !IsName(stack[i]) && stack[i] != ')'
  }

  lemma {:induction false} CleanNames(stack: string)
    requires Clean(stack)
    ensures Names(stack) == []
  {
    if stack != [] {
      CleanNames(stack[1..]);
    }
  }

  function Count(s: string, c: char): nat {
    if s == [] then 0 else (if s[0] == c then 1 else 0) + Count(s[1..], c)
  }

  lemma {:induction false} CountJoin(a: string, b: string, c: char)
    ensures Count(a + b, c) == Count(a, c) + Count(b, c)
  {
    if a == [] {
      assert a + b == b;
    } else {
      assert (a + b)[0] == a[0] && (a + b)[1..] == a[1..] + b;
      CountJoin(a[1..], b, c);
    }
  }

  lemma CountOne(c: char, d: char)
    ensures Count([c], d) == (if c == d then 1 else 0) && (!IsName(c) ==> Names([c]) == []) && (IsName(c) ==> Names([c]) == [c])
  {
    assert [c][1..] == [];
  }

  /** How many of a character are left: each closing parenthesis has taken an opening one with it. */
  function Left(text: string, c: char): int {
    Count(text, c) as int - if c == '(' || c == ')' then Count(text, ')') else 0
  }

  ghost predicate Kept(m: Machine, text: string, c: char) {
    Count(m.out, c) + Count(m.stack, c) == Left(text, c)
  }

  /** What the machine holds after `text`: its names in order, and every other character as often as it is left. */
  ghost predicate Holds(m: Machine, text: string) {
    Clean(m.stack) && Names(m.out) == Names(text) && forall c :: Kept(m, text, c)
  }

  /** The top of the stack is written. */
  function TopWritten(m: Machine): Machine
    requires m.stack != []
  {
    Machine(m.stack[1..], m.out + [m.stack[0]])
  }

  lemma Popped(m: Machine, text: string)
    requires Holds(m, text) && m.stack != []
    ensures Holds(TopWritten(m), text)
  {
    hide Left, IsName, Names, Count;
    var x, r := m.stack[0], TopWritten(m);
    NamesJoin(m.out, [x]);
    CountOne(x, x);
    assert Names(r.out) == Names(m.out) + [] == Names(m.out);
    forall c
      ensures Kept(r, text, c)
    {
      assert Kept(m, text, c);
      CountTop(m.stack, c);
      CountJoin(m.out, [x], c);
    }
  }

  lemma CountTop(s: string, c: char)
    requires s != []
    ensures Count(s, c) == Count([s[0]], c) + Count(s[1..], c)
  {
    CountOne(s[0], c);
  }

  lemma {:induction false} StrongerHolds(c: char, m: Machine, text: string)
    requires Holds(m, text)
    ensures Holds(PopStronger(c, m), text)
    decreases |m.stack|
  {
    hide GetPriority, Holds;
    if m.stack != [] && GetPriority(c) <= GetPriority(m.stack[0]) {
      Popped(m, text);
      StrongerHolds(c, TopWritten(m), text);
    }
  }

  lemma {:induction false} GroupHolds(m: Machine, text: string)
    requires Holds(m, text) && PopGroup(m).Ok?
    ensures Holds(PopGroup(m).value, text + [')'])
    decreases |m.stack|
  {
    hide Holds;
    if m.stack[0] == '(' {
      GroupClosed(m, text);
    } else {
      Popped(m, text);
      GroupHolds(TopWritten(m), text);
    }
  }

  lemma GroupClosed(m: Machine, text: string)
    requires Holds(m, text) && m.stack != [] && m.stack[0] == '('
    ensures Holds(Machine(m.stack[1..], m.out), text + [')'])
  {
    hide IsName, Names, Count;
    var r := Machine(m.stack[1..], m.out);
    NamesJoin(text, [')']);
    ParenthesisIsNoName();
    CountOne(')', ')');
    assert Names(text) + [] == Names(text);
    forall c
      ensures Kept(r, text + [')'], c)
    {
      assert Kept(m, text, c);
      CountTop(m.stack, c);
      CountOne('(', c);
      CountOne(')', c);
      CountJoin(text, [')'], c);
      CountJoin(text, [')'], ')');
    }
  }

  lemma ParenthesisIsNoName()
    ensures !IsName(')') && !IsName('(')
  {
  }

  lemma StepHolds(c: char, m: Machine, text: string)
    requires Holds(m, text) && Step(c, m).Ok?
    ensures Holds(Step(c, m).value, text + [c])
  {
    hide PopStronger, PopGroup, GetPriority, Holds;
    if c == ')' {
      GroupHolds(m, text);
    } else {
      StrongerHolds(c, m, text);
      Pushed(c, if IsOperand(c) || c == '(' then m else PopStronger(c, m), text);
    }
  }

  lemma Pushed(c: char, p: Machine, text: string)
    requires Holds(p, text) && c != ')'
    ensures Holds(if IsName(c) then Machine(p.stack, p.out + [c]) else Machine([c] + p.stack, p.out), text + [c])
  {
    hide IsName, Names, Count;
    var r := if IsName(c) then Machine(p.stack, p.out + [c]) else Machine([c] + p.stack, p.out);
    NamesJoin(text, [c]);
    NamesJoin(p.out, [c]);
    CountOne(c, c);
    assert !IsName(c) ==> Names(text) + [] == Names(text);
    forall d
      ensures Kept(r, text + [c], d)
    {
      assert Kept(p, text, d);
      CountJoin(text, [c], d);
      CountJoin(text, [c], ')');
      CountJoin(p.out, [c], d);
      CountJoin([c], p.stack, d);
      CountOne(c, d);
      CountOne(c, ')');
    }
  }

  lemma {:induction false} RunHolds(s: string, m: Machine, text: string)
    requires Holds(m, text) && Run(s, m).Ok?
    ensures Holds(Run(s, m).value, text + s)
    decreases |s|
  {
    hide Step, Holds;
    if s == [] {
      assert text + s == text;
    } else {
      StepHolds(s[0], m, text);
      RunHolds(s[1..], Step(s[0], m).value, text + [s[0]]);
      assert text + [s[0]] + s[1..] == text + s;
    }
  }

  /** Whatever the text, if the empty stack is not read the names keep their order, every operator comes as often as before, and
      of the parentheses only opening ones that were never closed are left. */
  lemma PostfixKeeps(s: string)
    requires Postfix(s).Ok?
    ensures Names(Postfix(s).value) == Names(s)
    ensures forall c :: Count(Postfix(s).value, c) == Left(s, c)
  {
    hide Run, Count, IsName, Left;
    Nothing();
    RunHolds(s, Machine([], []), []);
    assert [] + s == s;
    var m := Run(s, Machine([], [])).value;
    NamesJoin(m.out, m.stack);
    CleanNames(m.stack);
    forall c
      ensures Count(m.out + m.stack, c) == Left(s, c)
    {
      assert Kept(m, s, c);
      CountJoin(m.out, m.stack, c);
    }
  }

  lemma Nothing()
    ensures Holds(Machine([], []), [])
  {
  }

  lemma {:induction false} ReversedKeeps(s: string)
    ensures Names(Reversed(s)) == Reversed(Names(s)) && forall c :: Count(Reversed(s), c) == Count(s, c)
  {
    if s != [] {
      hide Names, Count, Reversed;
      var a, b := [s[0]], s[1..];
      assert s == a + b;
      ReversedJoin(a, b);
      ReversedJoin(Names(a), Names(b));
      NamesJoin(a, b);
      ReversedOne(s[0]);
      ReversedKeeps(b);
      NamesJoin(Reversed(b), a);
      forall c
        ensures Count(Reversed(s), c) == Count(s, c)
      {
        CountJoin(Reversed(b), a, c);
        CountJoin(a, b, c);
      }
    }
  }

  lemma ReversedOne(c: char)
    ensures Reversed([c]) == [c] && Reversed(Names([c])) == Names([c])
  {
    assert [c][1..] == [];
  }

  lemma {:induction false} SwappedKeeps(s: string)
    ensures Names(SwappedAll(s)) == Names(s) && forall c :: Count(SwappedAll(s), c) == Count(s, Swapped(c))
  {
    if s != [] {
      SwappedKeeps(s[1..]);
      var r := SwappedAll(s);
      assert r[0] == Swapped(s[0]) && r[1..] == SwappedAll(s[1..]);
    }
  }

  /** The same for prefix, where the closing parentheses that were never opened are left, and come out as opening ones. */
  lemma PrefixKeeps(s: string)
    requires Prefix(s).Ok?
    ensures Names(Prefix(s).value) == Names(s)
    ensures forall c :: c != '(' && c != ')' ==> Count(Prefix(s).value, c) == Count(s, c)
    ensures Count(Prefix(s).value, '(') == Count(s, ')') as int - Count(s, '(') && Count(Prefix(s).value, ')') == 0
  {
    hide Postfix, Names, Count, Reversed, SwappedAll;
    var f := SwappedAll(Reversed(s));
    ReversedKeeps(s);
    SwappedKeeps(Reversed(s));
    PostfixKeeps(f);
    ReversedKeeps(Postfix(f).value);
    ReversedTwice(Names(s));
  }

  lemma {:induction false} ReversedTwice(s: string)
    ensures Reversed(Reversed(s)) == s
  {
    if s != [] {
      ReversedTwice(s[1..]);
      ReversedJoin(Reversed(s[1..]), [s[0]]);
      assert [s[0]][1..] == [];
      assert Reversed([s[0]]) == [s[0]];
    }
  }
}
