/** The shunting-yard translation of WHERE expressions to postfix and the stack machine that runs it:
    a small compiler and the proof that it preserves meaning. Literals, variables and the arithmetic
    behind the operators are abstract. */
module ShuntingYard {

  datatype Option<T> = None | Some(value: T)

  datatype Operator = Or | And | Eq | Ne | Lt | Gt | Le | Ge | Plus | Minus | Times | Divide | Power

  function Precedence(op: Operator): nat {
    match op
    case Or => 1
    case And => 2
    case Eq => 3 case Ne => 3
    case Lt => 4 case Gt => 4 case Le => 4 case Ge => 4
    case Plus => 5 case Minus => 5
    case Times => 6 case Divide => 6
    case Power => 7
  }

  predicate RightAssoc(op: Operator) {
    op == Power
  }

  datatype Token = Open | Close | Op(op: Operator) | Operand(name: string)

  // ------------------------------------------------------------------ expressions and how to write them

  datatype Expr = Leaf(name: string) | Bin(op: Operator, left: Expr, right: Expr)

  /** An expression as written: with parentheses, needed or not. */
  datatype Infix = Atom(name: string) | Paren(inner: Infix) | Binary(op: Operator, left: Infix, right: Infix)

  function Meaning(i: Infix): Expr {
    match i
    case Atom(n) => Leaf(n)
    case Paren(j) => Meaning(j)
    case Binary(op, l, r) => Bin(op, Meaning(l), Meaning(r))
  }

  function Tokens(i: Infix): seq<Token> {
    match i
    case Atom(n) => [Operand(n)]
    case Paren(j) => [Open] + Tokens(j) + [Close]
    case Binary(op, l, r) => Tokens(l) + [Op(op)] + Tokens(r)
  }

  /** `inner` may stand bare as the left operand of `outer`: it binds tighter, or as tight and to the left. */
  predicate BareLeft(outer: Operator, inner: Operator) {
    Precedence(inner) > Precedence(outer) || (Precedence(inner) == Precedence(outer) && !RightAssoc(outer))
  }

  predicate BareRight(outer: Operator, inner: Operator) {
    Precedence(inner) > Precedence(outer) || (Precedence(inner) == Precedence(outer) && RightAssoc(outer))
  }

  /** Parentheses stand wherever precedence and associativity require them. */
  predicate WellParenthesized(i: Infix) {
    match i
    case Atom(_) => true
    case Paren(j) => WellParenthesized(j)
    case Binary(op, l, r) =>
      WellParenthesized(l) && WellParenthesized(r)
      && (l.Binary? ==> BareLeft(op, l.op)) && (r.Binary? ==> BareRight(op, r.op))
  }

  /** The writing of an expression with no other parentheses than the required ones. */
  function Minimal(e: Expr): (i: Infix)
    ensures WellParenthesized(i) && Meaning(i) == e && (e.Bin? <==> i.Binary?) && (e.Bin? ==> i.op == e.op)
  {
    match e
    case Leaf(n) => Atom(n)
    case Bin(op, l, r) =>
      Binary(op,
             if l.Bin? && !BareLeft(op, l.op) then Paren(Minimal(l)) else Minimal(l),
             if r.Bin? && !BareRight(op, r.op) then Paren(Minimal(r)) else Minimal(r))
  }

  function Postfix(e: Expr): seq<Token> {
    match e
    case Leaf(n) => [Operand(n)]
    case Bin(op, l, r) => Postfix(l) + Postfix(r) + [Op(op)]
  }

  // ------------------------------------------------------------------ the translation as a machine

  /** The output vector and the operator stack, top last; or the thrown error. */
  datatype State = Running(output: seq<Token>, ops: seq<Token>) | Mismatched

  datatype Rpn = Translated(output: seq<Token>) | MismatchedParentheses

  /** `top` leaves the stack before `op` is pushed. */
  predicate Yields(top: Operator, op: Operator) {
    Precedence(top) > Precedence(op) || (Precedence(top) == Precedence(op) && !RightAssoc(op))
  }

  /** What is popped for `op`, in popping order, and what stays. */
  function Unwind(ops: seq<Token>, op: Operator): (r: (seq<Token>, seq<Token>)) {
    if ops != [] && ops[|ops| - 1].Op? && Yields(ops[|ops| - 1].op, op) then
      var rest := Unwind(ops[..|ops| - 1], op);
      ([ops[|ops| - 1]] + rest.0, rest.1)
    else ([], ops)
  }

  /** What is popped down to the nearest opening parenthesis, and what stays. */
  function UnwindToOpen(ops: seq<Token>): (r: (seq<Token>, seq<Token>))
    ensures r.1 != [] ==> r.1[|r.1| - 1] == Open
  {
    if ops != [] && ops[|ops| - 1] != Open then
      var rest := UnwindToOpen(ops[..|ops| - 1]);
      ([ops[|ops| - 1]] + rest.0, rest.1)
    else ([], ops)
  }

  function Step(s: State, t: Token): State {
    if s.Mismatched? then Mismatched
    else match t
      case Open => Running(s.output, s.ops + [Open])
      case Close =>
        var u := UnwindToOpen(s.ops);
        if u.1 == [] then Mismatched else Running(s.output + u.0, u.1[..|u.1| - 1])
      case Op(op) =>
        var u := Unwind(s.ops, op);
        Running(s.output + u.0, u.1 + [t])
      case Operand(_) => Running(s.output + [t], s.ops)
  }

  function Run(s: State, tokens: seq<Token>): State
    decreases |tokens|
  {
    if tokens == [] then s else Run(Step(s, tokens[0]), tokens[1..])
  }

  /** Emptying the stack at the end of the input. */
  function Finish(s: State): Rpn {
    if s.Mismatched? then MismatchedParentheses
    else
      var u := UnwindToOpen(s.ops);
      if u.1 != [] then MismatchedParentheses else Translated(s.output + u.0)
  }

  function Translate(tokens: seq<Token>): Rpn {
    Finish(Run(Running([], []), tokens))
  }

  /** The translation as it is run: explicit stack, output vector, one pass over the tokens. */
  method ToRpn(tokens: seq<Token>) returns (rpn: Rpn)
    ensures rpn == Translate(tokens)
  {
    var output: seq<Token>, ops: seq<Token> := [], [];
    var start := Running([], []);
    var i := 0;
    while i < |tokens|
      invariant i <= |tokens| && Run(start, tokens) == Run(Running(output, ops), tokens[i..])
    {
      var tok := tokens[i];
      ghost var before := Running(output, ops);
      match tok {
        case Open =>
          ops := ops + [tok];
        case Close =>
          output, ops := PopToOpen(output, ops);
          if ops == [] {
            assert Step(before, tok) == Mismatched;
            MismatchedStays(tokens[i + 1..]);
            return MismatchedParentheses;
          }
          ops := ops[..|ops| - 1];
        case Op(op) =>
          output, ops := PopStronger(output, ops, op);
          ops := ops + [tok];
        case Operand(_) =>
          output := output + [tok];
      }
      assert Step(before, tok) == Running(output, ops);
      assert tokens[i..][1..] == tokens[i + 1..];
      i := i + 1;
    }
    assert tokens[i..] == [];
    ghost var last := Running(output, ops);
    output, ops := PopToOpen(output, ops);
    if ops != [] { return MismatchedParentheses; }
    rpn := Translated(output);
  }

  lemma {:induction false} MismatchedStays(tokens: seq<Token>)
    ensures Run(Mismatched, tokens) == Mismatched
  {
    if tokens != [] { MismatchedStays(tokens[1..]); }
  }

  method PopStronger(output0: seq<Token>, ops0: seq<Token>, op: Operator) returns (output: seq<Token>, ops: seq<Token>)
    ensures (output, ops) == (output0 + Unwind(ops0, op).0, Unwind(ops0, op).1)
  {
    output, ops := output0, ops0;
    while ops != [] && ops[|ops| - 1].Op? && Yields(ops[|ops| - 1].op, op)
      invariant output0 + Unwind(ops0, op).0 == output + Unwind(ops, op).0
      invariant Unwind(ops0, op).1 == Unwind(ops, op).1
      decreases |ops|
    {
      output, ops := output + [ops[|ops| - 1]], ops[..|ops| - 1];
    }
    assert output + [] == output;
  }

  method PopToOpen(output0: seq<Token>, ops0: seq<Token>) returns (output: seq<Token>, ops: seq<Token>)
    ensures (output, ops) == (output0 + UnwindToOpen(ops0).0, UnwindToOpen(ops0).1)
  {
    output, ops := output0, ops0;
    while ops != [] && ops[|ops| - 1] != Open
      invariant output0 + UnwindToOpen(ops0).0 == output + UnwindToOpen(ops).0
      invariant UnwindToOpen(ops0).1 == UnwindToOpen(ops).1
      decreases |ops|
    {
      output, ops := output + [ops[|ops| - 1]], ops[..|ops| - 1];
    }
    assert output + [] == output;
  }

  // ------------------------------------------------------------------ the translation yields the postfix form

  lemma {:induction false} RunConcat(s: State, a: seq<Token>, b: seq<Token>)
    ensures Run(s, a + b) == Run(Run(s, a), b)
    decreases |a|
  {
    if a == [] {
      assert a + b == b;
    } else {
      assert (a + b)[1..] == a[1..] + b;
      RunConcat(Step(s, a[0]), a[1..], b);
    }
  }

  /** Nothing on the stack yields to `op`. */
  predicate Holds(ops: seq<Token>, op: Operator) {
    ops != [] ==> ops[|ops| - 1] == Open || (ops[|ops| - 1].Op? && !Yields(ops[|ops| - 1].op, op))
  }

  /** What the tokens of an expression leave behind: the part already written, and the operators still
      waiting, innermost last. */
  function Written(i: Infix): seq<Token> {
    match i
    case Atom(n) => [Operand(n)]
    case Paren(j) => Postfix(Meaning(j))
    case Binary(op, l, r) => Postfix(Meaning(l)) + Written(r)
  }

  function Waiting(i: Infix): seq<Token> {
    match i
    case Atom(n) => []
    case Paren(j) => []
    case Binary(op, l, r) => [Op(op)] + Waiting(r)
  }

  function Reverse(s: seq<Token>): (r: seq<Token>)
    ensures |r| == |s|
  {
    if s == [] then [] else Reverse(s[1..]) + [s[0]]
  }

  lemma {:induction false} ReverseLast(s: seq<Token>)
    requires s != []
    ensures Reverse(s) == [s[|s| - 1]] + Reverse(s[..|s| - 1])
  {
    if |s| > 1 {
      ReverseLast(s[1..]);
      assert s[1..][..|s| - 2] == s[..|s| - 1][1..];
    }
  }

  /** Popping what waits completes the postfix form. */
  lemma {:induction false} WrittenThenWaiting(i: Infix)
    ensures Written(i) + Reverse(Waiting(i)) == Postfix(Meaning(i))
    ensures forall k :: 0 <= k < |Waiting(i)| ==> Waiting(i)[k].Op?
  {
    match i
    case Atom(_) => {}
    case Paren(_) => {}
    case Binary(op, l, r) =>
      WrittenThenWaiting(r);
      assert Waiting(i)[1..] == Waiting(r);
  }

  /** The waiting operators bind at least as tightly as the outermost one, so they all yield with it. */
  lemma {:induction false} WaitingYields(i: Infix, op: Operator)
    requires WellParenthesized(i) && (i.Binary? ==> Yields(i.op, op))
    ensures forall k :: 0 <= k < |Waiting(i)| ==> Waiting(i)[k].Op? && Yields(Waiting(i)[k].op, op)
  {
    if i.Binary? { WaitingYields(i.right, op); }
  }

  lemma {:induction false} UnwindWaiting(ops: seq<Token>, p: seq<Token>, op: Operator)
    requires Holds(ops, op) && forall k :: 0 <= k < |p| ==> p[k].Op? && Yields(p[k].op, op)
    ensures Unwind(ops + p, op) == (Reverse(p), ops)
    decreases |p|
  {
    if p == [] {
      assert ops + p == ops;
    } else {
      var q := p[..|p| - 1];
      assert (ops + p)[..|ops + p| - 1] == ops + q;
      UnwindWaiting(ops, q, op);
      ReverseLast(p);
    }
  }

  lemma {:induction false} UnwindPending(ops: seq<Token>, p: seq<Token>)
    requires (ops != [] ==> ops[|ops| - 1] == Open) && forall k :: 0 <= k < |p| ==> p[k].Op?
    ensures UnwindToOpen(ops + p) == (Reverse(p), ops)
    decreases |p|
  {
    if p == [] {
      assert ops + p == ops;
    } else {
      var q := p[..|p| - 1];
      assert (ops + p)[..|ops + p| - 1] == ops + q;
      UnwindPending(ops, q);
      ReverseLast(p);
    }
  }

  lemma {:induction false} ReadOne(s: State, t: Token)
    ensures Run(s, [t]) == Step(s, t)
  {
    assert [t][1..] == [];
    assert Run(s, [t]) == Run(Step(s, t), []);
  }

  /** Reading an expression on top of a stack that holds against it. */
  lemma {:induction false} ReadExpression(i: Infix, output: seq<Token>, ops: seq<Token>)
    requires WellParenthesized(i) && (i.Binary? ==> Holds(ops, i.op))
    ensures Run(Running(output, ops), Tokens(i)) == Running(output + Written(i), ops + Waiting(i))
    decreases i
  {
    match i
    case Atom(n) =>
      assert ops + [] == ops;
      ReadOne(Running(output, ops), Operand(n));
    case Paren(j) =>
      ReadExpression(j, output, ops + [Open]);
      ReadParen(j, output, ops);
    case Binary(op, l, r) =>
      ReadExpression(l, output, ops);
      ReadExpression(r, output + Postfix(Meaning(l)), ops + [Op(op)]);
      ReadBinary(op, l, r, output, ops);
  }

  /** The closing parenthesis takes down what waits inside. */
  lemma {:induction false} ReadParen(j: Infix, output: seq<Token>, ops: seq<Token>)
    requires Run(Running(output, ops + [Open]), Tokens(j)) == Running(output + Written(j), ops + [Open] + Waiting(j))
    ensures Run(Running(output, ops), Tokens(Paren(j))) == Running(output + Postfix(Meaning(j)), ops + [])
  {
    var inside := ops + [Open];
    ReadOne(Running(output, ops), Open);
    RunConcat(Running(output, ops), [Open], Tokens(j));
    RunConcat(Running(output, ops), [Open] + Tokens(j), [Close]);
    ReadClose(j, output, inside);
    assert inside[..|inside| - 1] == ops + [];
  }

  lemma ReadClose(j: Infix, output: seq<Token>, inside: seq<Token>)
    requires inside != [] && inside[|inside| - 1] == Open
    ensures Run(Running(output + Written(j), inside + Waiting(j)), [Close])
         == Running(output + Postfix(Meaning(j)), inside[..|inside| - 1])
  {
    ReadOne(Running(output + Written(j), inside + Waiting(j)), Close);
    WrittenThenWaiting(j);
    UnwindPending(inside, Waiting(j));
    Reassociate(output, Written(j), Reverse(Waiting(j)));
  }

  /** An operator takes down what its left operand left waiting. */
  lemma {:induction false} ReadOperator(op: Operator, l: Infix, output: seq<Token>, ops: seq<Token>)
    requires WellParenthesized(l) && Holds(ops, op) && (l.Binary? ==> Yields(l.op, op))
    ensures Run(Running(output + Written(l), ops + Waiting(l)), [Op(op)])
         == Running(output + Postfix(Meaning(l)), ops + [Op(op)])
  {
    ReadOne(Running(output + Written(l), ops + Waiting(l)), Op(op));
    UnwindLeft(op, l, ops);
    Reassociate(output, Written(l), Reverse(Waiting(l)));
    WrittenThenWaiting(l);
  }

  lemma {:induction false} UnwindLeft(op: Operator, l: Infix, ops: seq<Token>)
    requires WellParenthesized(l) && Holds(ops, op) && (l.Binary? ==> Yields(l.op, op))
    ensures Unwind(ops + Waiting(l), op) == (Reverse(Waiting(l)), ops)
  {
    WaitingYields(l, op);
    UnwindWaiting(ops, Waiting(l), op);
  }

  lemma {:induction false} ReadBinary(op: Operator, l: Infix, r: Infix, output: seq<Token>, ops: seq<Token>)
    requires WellParenthesized(Binary(op, l, r)) && Holds(ops, op)
    requires Run(Running(output, ops), Tokens(l)) == Running(output + Written(l), ops + Waiting(l))
    requires Run(Running(output + Postfix(Meaning(l)), ops + [Op(op)]), Tokens(r))
          == Running(output + Postfix(Meaning(l)) + Written(r), ops + [Op(op)] + Waiting(r))
    ensures Run(Running(output, ops), Tokens(Binary(op, l, r)))
         == Running(output + Written(Binary(op, l, r)), ops + Waiting(Binary(op, l, r)))
  {
    ReadOperator(op, l, output, ops);
    RunThree(Running(output, ops), Tokens(l), [Op(op)], Tokens(r));
    Reassociate(output, Postfix(Meaning(l)), Written(r));
    Reassociate(ops, [Op(op)], Waiting(r));
  }

  lemma RunThree(s: State, a: seq<Token>, b: seq<Token>, c: seq<Token>)
    ensures Run(s, a + b + c) == Run(Run(Run(s, a), b), c)
  {
    RunConcat(s, a, b);
    RunConcat(s, a + b, c);
  }

  lemma Reassociate(a: seq<Token>, b: seq<Token>, c: seq<Token>)
    ensures a + b + c == a + (b + c)
  {
  }

  /** Any writing with enough parentheses is translated to the postfix form of its expression. */
  lemma TranslationIsPostfix(i: Infix)
    requires WellParenthesized(i)
    ensures Translate(Tokens(i)) == Translated(Postfix(Meaning(i)))
  {
    ReadExpression(i, [], []);
    WrittenThenWaiting(i);
    UnwindPending([], Waiting(i));
    assert [] + Waiting(i) == Waiting(i);
    assert [] + Written(i) == Written(i);
  }

  lemma MinimalTranslation(e: Expr)
    ensures Translate(Tokens(Minimal(e))) == Translated(Postfix(e))
  {
    TranslationIsPostfix(Minimal(e));
  }

  // ------------------------------------------------------------------ when the translation fails

  /** The nesting depth after one token, or none when a parenthesis closes that was never opened. */
  function Nest(t: Token, d: nat): Option<nat> {
    match t
    case Open => Some(d + 1)
    case Close => if d == 0 then None else Some(d - 1)
    case _ => Some(d)
  }

  function Depth(tokens: seq<Token>, d: nat): Option<nat>
    decreases |tokens|
  {
    if tokens == [] then Some(d)
    else match Nest(tokens[0], d)
      case None => None
      case Some(e) => Depth(tokens[1..], e)
  }

  predicate Balanced(tokens: seq<Token>) {
    Depth(tokens, 0) == Some(0)
  }

  function Opens(ops: seq<Token>): nat {
    if ops == [] then 0 else Opens(ops[..|ops| - 1]) + if ops[|ops| - 1] == Open then 1 else 0
  }

  lemma {:induction false} UnwindKeepsOpens(ops: seq<Token>, op: Operator)
    ensures Opens(Unwind(ops, op).1) == Opens(ops)
    decreases |ops|
  {
    if ops != [] && ops[|ops| - 1].Op? && Yields(ops[|ops| - 1].op, op) { UnwindKeepsOpens(ops[..|ops| - 1], op); }
  }

  lemma {:induction false} UnwindToOpenKeepsOpens(ops: seq<Token>)
    ensures Opens(UnwindToOpen(ops).1) == Opens(ops)
    ensures UnwindToOpen(ops).1 == [] <==> Opens(ops) == 0
    decreases |ops|
  {
    if ops != [] && ops[|ops| - 1] != Open { UnwindToOpenKeepsOpens(ops[..|ops| - 1]); }
  }

  lemma OpensPush(ops: seq<Token>, t: Token)
    ensures Opens(ops + [t]) == Opens(ops) + if t == Open then 1 else 0
  {
    assert (ops + [t])[..|ops + [t]| - 1] == ops;
  }

  lemma StepTracksDepth(s: State, t: Token)
    requires s.Running?
    ensures Step(s, t).Running? <==> Nest(t, Opens(s.ops)).Some?
    ensures Step(s, t).Running? ==> Nest(t, Opens(s.ops)) == Some(Opens(Step(s, t).ops))
  {
    match t
    case Open => OpensPush(s.ops, Open);
    case Close => UnwindToOpenKeepsOpens(s.ops);
    case Op(op) =>
      UnwindKeepsOpens(s.ops, op);
      OpensPush(Unwind(s.ops, op).1, t);
    case Operand(_) => {}
  }

  lemma {:induction false} RunTracksDepth(s: State, tokens: seq<Token>)
    requires s.Running?
    ensures Run(s, tokens).Running? <==> Depth(tokens, Opens(s.ops)).Some?
    ensures Run(s, tokens).Running? ==> Depth(tokens, Opens(s.ops)) == Some(Opens(Run(s, tokens).ops))
    decreases |tokens|
  {
    if tokens != [] {
      StepTracksDepth(s, tokens[0]);
      if Step(s, tokens[0]).Running? {
        RunTracksDepth(Step(s, tokens[0]), tokens[1..]);
      } else {
        MismatchedStays(tokens[1..]);
      }
    }
  }

  /** On arbitrary tokens: the translation succeeds exactly when the parentheses balance. */
  lemma TranslatesIffBalanced(tokens: seq<Token>)
    ensures Translate(tokens).Translated? <==> Balanced(tokens)
  {
    var start := Running([], []);
    RunTracksDepth(start, tokens);
    if Run(start, tokens).Running? { UnwindToOpenKeepsOpens(Run(start, tokens).ops); }
  }

  function Count(tokens: seq<Token>, x: Token): nat {
    if tokens == [] then 0 else Count(tokens[..|tokens| - 1], x) + if tokens[|tokens| - 1] == x then 1 else 0
  }

  function Operands(tokens: seq<Token>): seq<Token> {
    if tokens == [] then []
    else Operands(tokens[..|tokens| - 1]) + (if tokens[|tokens| - 1].Operand? then [tokens[|tokens| - 1]] else [])
  }

  lemma {:induction false} CountConcat(a: seq<Token>, b: seq<Token>, x: Token)
    ensures Count(a + b, x) == Count(a, x) + Count(b, x)
    decreases |b|
  {
    if b == [] {
      assert a + b == a;
    } else {
      assert (a + b)[..|a + b| - 1] == a + b[..|b| - 1];
      CountConcat(a, b[..|b| - 1], x);
    }
  }

  lemma {:induction false} OperandsConcat(a: seq<Token>, b: seq<Token>)
    ensures Operands(a + b) == Operands(a) + Operands(b)
    decreases |b|
  {
    if b == [] {
      assert a + b == a;
    } else {
      assert (a + b)[..|a + b| - 1] == a + b[..|b| - 1];
      OperandsConcat(a, b[..|b| - 1]);
    }
  }

  lemma Single(t: Token, x: Token)
    ensures Count([t], x) == (if t == x then 1 else 0) && Operands([t]) == if t.Operand? then [t] else []
  {
    assert [t][..0] == [];
  }

  /** Only parentheses and operators ever stand on the stack. */
  predicate OpsOnly(ops: seq<Token>) {
    forall k :: 0 <= k < |ops| ==> ops[k] == Open || ops[k].Op?
  }

  lemma {:induction false} NoOperands(ops: seq<Token>)
    requires OpsOnly(ops)
    ensures Operands(ops) == []
  {
    if ops != [] { NoOperands(ops[..|ops| - 1]); }
  }

  lemma {:induction false} UnwindMoves(ops: seq<Token>, op: Operator, x: Token)
    requires OpsOnly(ops)
    ensures var u := Unwind(ops, op); OpsOnly(u.0) && OpsOnly(u.1) && Count(u.0, x) + Count(u.1, x) == Count(ops, x)
    decreases |ops|
  {
    if ops != [] && ops[|ops| - 1].Op? && Yields(ops[|ops| - 1].op, op) {
      UnwindMoves(ops[..|ops| - 1], op, x);
      CountConcat([ops[|ops| - 1]], Unwind(ops[..|ops| - 1], op).0, x);
      Single(ops[|ops| - 1], x);
    }
  }

  lemma {:induction false} UnwindToOpenMoves(ops: seq<Token>, x: Token)
    requires OpsOnly(ops)
    ensures var u := UnwindToOpen(ops); OpsOnly(u.0) && OpsOnly(u.1) && Count(u.0, x) + Count(u.1, x) == Count(ops, x)
    decreases |ops|
  {
    if ops != [] && ops[|ops| - 1] != Open {
      UnwindToOpenMoves(ops[..|ops| - 1], x);
      CountConcat([ops[|ops| - 1]], UnwindToOpen(ops[..|ops| - 1]).0, x);
      Single(ops[|ops| - 1], x);
    }
  }

  /** One token: no operator or operand is lost or invented, and operands come out in order. */
  lemma StepConserves(s: State, t: Token, x: Token)
    requires s.Running? && OpsOnly(s.ops) && Step(s, t).Running? && x != Open && x != Close
    ensures var s2 := Step(s, t);
            && OpsOnly(s2.ops)
            && Count(s2.output, x) + Count(s2.ops, x) == Count(s.output, x) + Count(s.ops, x) + Count([t], x)
            && Operands(s2.output) == Operands(s.output) + Operands([t])
  {
    Single(t, x);
    match t
    case Open => CountConcat(s.ops, [Open], x);
    case Close => CloseConserves(s, x);
    case Op(op) =>
      var u := Unwind(s.ops, op);
      UnwindMoves(s.ops, op, x);
      NoOperands(u.0);
      OperandsConcat(s.output, u.0);
      CountConcat(s.output, u.0, x);
      CountConcat(u.1, [t], x);
    case Operand(_) =>
      CountConcat(s.output, [t], x);
      OperandsConcat(s.output, [t]);
  }

  lemma CloseConserves(s: State, x: Token)
    requires s.Running? && OpsOnly(s.ops) && Step(s, Close).Running? && x != Open && x != Close
    ensures var s2 := Step(s, Close);
            && OpsOnly(s2.ops) && Count(s2.output, x) + Count(s2.ops, x) == Count(s.output, x) + Count(s.ops, x)
            && Operands(s2.output) == Operands(s.output)
  {
    var u := UnwindToOpen(s.ops);
    UnwindToOpenMoves(s.ops, x);
    NoOperands(u.0);
    OperandsConcat(s.output, u.0);
    CountConcat(s.output, u.0, x);
  }

  lemma {:induction false} RunConserves(s: State, tokens: seq<Token>, x: Token)
    requires s.Running? && OpsOnly(s.ops) && Run(s, tokens).Running? && x != Open && x != Close
    ensures var s2 := Run(s, tokens);
            && OpsOnly(s2.ops)
            && Count(s2.output, x) + Count(s2.ops, x) == Count(s.output, x) + Count(s.ops, x) + Count(tokens, x)
            && Operands(s2.output) == Operands(s.output) + Operands(tokens)
    decreases |tokens|
  {
    if tokens != [] {
      var s1 := Step(s, tokens[0]);
      StepRuns(s, tokens);
      StepConserves(s, tokens[0], x);
      RunConserves(s1, tokens[1..], x);
      assert tokens == [tokens[0]] + tokens[1..];
      CountConcat([tokens[0]], tokens[1..], x);
      OperandsConcat([tokens[0]], tokens[1..]);
      Reassociate(Operands(s.output), Operands([tokens[0]]), Operands(tokens[1..]));
    }
  }

  lemma StepRuns(s: State, tokens: seq<Token>)
    requires tokens != [] && Run(s, tokens).Running?
    ensures Step(s, tokens[0]).Running?
  {
    MismatchedStays(tokens[1..]);
  }

  /** A translation of arbitrary tokens keeps every operator and operand as often as it stood there,
      and the operands in their order. */
  lemma TranslationConserves(tokens: seq<Token>, x: Token)
    requires Translate(tokens).Translated? && x != Open && x != Close
    ensures var out := Translate(tokens).output; Count(out, x) == Count(tokens, x) && Operands(out) == Operands(tokens)
  {
    var start := Running([], []);
    RunConserves(start, tokens, x);
    var s := Run(start, tokens);
    FinishConserves(s, x);
  }

  lemma FinishConserves(s: State, x: Token)
    requires s.Running? && OpsOnly(s.ops) && Finish(s).Translated?
    ensures var out := Finish(s).output;
            Count(out, x) == Count(s.output, x) + Count(s.ops, x) && Operands(out) == Operands(s.output)
  {
    var u := UnwindToOpen(s.ops);
    UnwindToOpenMoves(s.ops, x);
    NoOperands(u.0);
    OperandsConcat(s.output, u.0);
    CountConcat(s.output, u.0, x);
  }

  // ------------------------------------------------------------------ the stack machine

  /** The values: what a literal or variable stands for, if anything, and what the operators do. */
  datatype Semantics<!V> = Semantics(value: string -> Option<V>, apply: (Operator, V, V) -> V)

  /** The stack after a run, or the error thrown for an unknown variable; an operator that finds fewer
      than two values is undefined behaviour. */
  datatype Machine<V> = Stack(values: seq<V>) | UnknownVariable(name: string) | Underflow

  datatype Outcome<V> = Value(value: V) | Unknown(name: string) | Undefined

  /** How a token that is no operator is looked up. */
  function Text(t: Token): string
    requires !t.Op?
  {
    match t
    case Open => "("
    case Close => ")"
    case Operand(name) => name
  }

  function Exec<V>(sem: Semantics<V>, values: seq<V>, t: Token): Machine<V> {
    if t.Op? then
      var n := |values|;
      if n < 2 then Underflow else Stack(values[..n - 2] + [sem.apply(t.op, values[n - 2], values[n - 1])])
    else
      match sem.value(Text(t))
      case None => UnknownVariable(Text(t))
      case Some(v) => Stack(values + [v])
  }

  function ExecAll<V>(sem: Semantics<V>, values: seq<V>, rpn: seq<Token>): Machine<V>
    decreases |rpn|
  {
    if rpn == [] then Stack(values)
    else match Exec(sem, values, rpn[0])
      case Stack(next) => ExecAll(sem, next, rpn[1..])
      case stopped => stopped
  }

  /** The result is the top of the stack at the end. */
  function Evaluate<V>(sem: Semantics<V>, rpn: seq<Token>): Outcome<V> {
    match ExecAll(sem, [], rpn)
    case Stack(values) => if values == [] then Undefined else Value(values[|values| - 1])
    case UnknownVariable(name) => Unknown(name)
    case Underflow => Undefined
  }

  /** The evaluation as it is run, with an explicit stack. */
  method EvalRpn<V>(sem: Semantics<V>, rpn: seq<Token>) returns (r: Outcome<V>)
    ensures r == Evaluate(sem, rpn)
  {
    var stk: seq<V> := [];
    var i := 0;
    while i < |rpn|
      invariant i <= |rpn| && ExecAll(sem, [], rpn) == ExecAll(sem, stk, rpn[i..])
    {
      var tok := rpn[i];
      assert rpn[i..][0] == tok && rpn[i..][1..] == rpn[i + 1..];
      if tok.Op? {
        if |stk| < 2 { return Undefined; }
        var b := stk[|stk| - 1];
        var a := stk[|stk| - 2];
        stk := stk[..|stk| - 2] + [sem.apply(tok.op, a, b)];
      } else {
        var v := sem.value(Text(tok));
        if v.None? { return Unknown(Text(tok)); }
        stk := stk + [v.value];
      }
      i := i + 1;
    }
    assert rpn[i..] == [];
    r := if stk == [] then Undefined else Value(stk[|stk| - 1]);
  }

  /** The value of an expression tree; the leftmost unknown variable decides. */
  function ValueOf<V>(sem: Semantics<V>, e: Expr): Outcome<V> {
    match e
    case Leaf(n) => (match sem.value(n) case None => Unknown(n) case Some(v) => Value(v))
    case Bin(op, l, r) =>
      match ValueOf(sem, l)
      case Value(a) => (match ValueOf(sem, r) case Value(b) => Value(sem.apply(op, a, b)) case other => other)
      case other => other
  }

  lemma {:induction false} ExecConcat<V>(sem: Semantics<V>, values: seq<V>, a: seq<Token>, b: seq<Token>)
    ensures ExecAll(sem, values, a + b) ==
            match ExecAll(sem, values, a)
            case Stack(next) => ExecAll(sem, next, b)
            case stopped => stopped
    decreases |a|
  {
    if a == [] {
      assert a + b == b;
    } else {
      assert (a + b)[1..] == a[1..] + b;
      match Exec(sem, values, a[0])
      case Stack(next) => ExecConcat(sem, next, a[1..], b);
      case _ => {}
    }
  }

  lemma ExecOne<V>(sem: Semantics<V>, values: seq<V>, t: Token)
    ensures ExecAll(sem, values, [t]) == Exec(sem, values, t)
  {
    assert [t][1..] == [];
    match Exec(sem, values, t)
    case Stack(next) => assert ExecAll(sem, next, []) == Stack(next);
    case _ => {}
  }

  function Pushed<V>(values: seq<V>, r: Outcome<V>): Machine<V> {
    match r
    case Value(v) => Stack(values + [v])
    case Unknown(n) => UnknownVariable(n)
    case Undefined => Underflow
  }

  /** Running the postfix form of an expression pushes its value and touches nothing else. */
  lemma {:induction false} PostfixPushesValue<V>(sem: Semantics<V>, values: seq<V>, e: Expr)
    ensures ExecAll(sem, values, Postfix(e)) == Pushed(values, ValueOf(sem, e)) && ValueOf(sem, e) != Undefined
    decreases e
  {
    match e
    case Leaf(n) => ExecOne(sem, values, Operand(n));
    case Bin(op, l, r) =>
      PostfixPushesValue(sem, values, l);
      ExecConcat(sem, values, Postfix(l), Postfix(r));
      ExecConcat(sem, values, Postfix(l) + Postfix(r), [Op(op)]);
      match ValueOf(sem, l) {
        case Value(a) =>
          PostfixPushesValue(sem, values + [a], r);
          match ValueOf(sem, r) {
            case Value(b) =>
              ExecOne(sem, values + [a] + [b], Op(op));
              assert (values + [a] + [b])[..|values|] == values;
            case _ =>
          }
        case _ =>
      }
  }

  /** Translating and then running the stack machine gives the value of the expression, and the stack
      ends with that value alone; the error is the one the expression itself has. */
  lemma PipelinePreservesMeaning<V>(sem: Semantics<V>, i: Infix)
    requires WellParenthesized(i)
    ensures Translate(Tokens(i)).Translated?
    ensures var rpn := Translate(Tokens(i)).output;
            && Evaluate(sem, rpn) == ValueOf(sem, Meaning(i))
            && (ValueOf(sem, Meaning(i)).Value? ==> ExecAll(sem, [], rpn) == Stack([ValueOf(sem, Meaning(i)).value]))
  {
    TranslationIsPostfix(i);
    PostfixPushesValue(sem, [], Meaning(i));
  }

  // ------------------------------------------------------------------ which postfix programs make sense

  /** The machine run on expressions themselves. */
  function Symbolic(): Semantics<Expr> {
    Semantics((name: string) => Some(Leaf(name)), (op, a, b) => Bin(op, a, b))
  }

  function Postfixes(es: seq<Expr>): seq<Token> {
    if es == [] then [] else Postfixes(es[..|es| - 1]) + Postfix(es[|es| - 1])
  }

  predicate NoParens(rpn: seq<Token>) {
    forall k :: 0 <= k < |rpn| ==> rpn[k].Op? || rpn[k].Operand?
  }

  /** The symbolic stack spells out the program that built it. */
  lemma {:induction false} StackSpellsProgram(values: seq<Expr>, rpn: seq<Token>)
    requires NoParens(rpn)
    ensures var m := ExecAll(Symbolic(), values, rpn); m.Stack? ==> Postfixes(m.values) == Postfixes(values) + rpn
    decreases |rpn|
  {
    if rpn == [] {
      assert Postfixes(values) + rpn == Postfixes(values);
    } else {
      var first := Exec(Symbolic(), values, rpn[0]);
      if first.Stack? {
        StackSpellsProgram(first.values, rpn[1..]);
        ExecSpells(values, rpn[0]);
        FirstThenRest(Postfixes(values), rpn);
      }
    }
  }

  lemma FirstThenRest(a: seq<Token>, rpn: seq<Token>)
    requires rpn != []
    ensures a + [rpn[0]] + rpn[1..] == a + rpn
  {
    assert rpn == [rpn[0]] + rpn[1..];
  }

  lemma ExecSpells(values: seq<Expr>, t: Token)
    requires (t.Op? || t.Operand?) && Exec(Symbolic(), values, t).Stack?
    ensures Postfixes(Exec(Symbolic(), values, t).values) == Postfixes(values) + [t]
  {
    if t.Op? {
      var n := |values|;
      var rest, a, b := values[..n - 2], values[n - 2], values[n - 1];
      assert values == rest + [a] + [b];
      PushSpells(rest, a);
      PushSpells(rest + [a], b);
      PushSpells(rest, Bin(t.op, a, b));
      assert Exec(Symbolic(), values, t).values == rest + [Bin(t.op, a, b)];
      SpellBin(Postfixes(rest), Postfix(a), Postfix(b), [t]);
    } else {
      PushSpells(values, Leaf(t.name));
    }
  }

  lemma PushSpells(values: seq<Expr>, e: Expr)
    ensures Postfixes(values + [e]) == Postfixes(values) + Postfix(e)
  {
    assert (values + [e])[..|values|] == values;
  }

  lemma SpellBin(rest: seq<Token>, a: seq<Token>, b: seq<Token>, op: seq<Token>)
    ensures rest + a + b + op == rest + (a + b + op)
  {
  }

  /** A program without parentheses leaves exactly one value, with no underflow, if and only if it is
      the postfix form of some expression. */
  lemma WellFormedIffPostfix(rpn: seq<Token>)
    requires NoParens(rpn)
    ensures (ExecAll(Symbolic(), [], rpn).Stack? && |ExecAll(Symbolic(), [], rpn).values| == 1)
        <==> exists e :: rpn == Postfix(e)
  {
    var m := ExecAll(Symbolic(), [], rpn);
    if m.Stack? && |m.values| == 1 {
      StackSpellsProgram([], rpn);
      var e := m.values[0];
      assert m.values[..0] == [];
      assert Postfixes(m.values) == Postfixes([]) + Postfix(e);
      assert Postfixes([]) == [] && [] + rpn == rpn && [] + Postfix(e) == Postfix(e);
      assert rpn == Postfix(e);
    }
    if exists e :: rpn == Postfix(e) {
      var e :| rpn == Postfix(e);
      PostfixPushesValue(Symbolic(), [], e);
      SymbolicValue(e);
    }
  }

  lemma {:induction false} SymbolicValue(e: Expr)
    ensures ValueOf(Symbolic(), e) == Value(e)
  {
    if e.Bin? {
      SymbolicValue(e.left);
      SymbolicValue(e.right);
    }
  }

  /** The grammar is unambiguous: two writings with the same tokens mean the same expression. */
  lemma WritingIsUnambiguous(i: Infix, j: Infix)
    requires WellParenthesized(i) && WellParenthesized(j) && Tokens(i) == Tokens(j)
    ensures Meaning(i) == Meaning(j)
  {
    PipelinePreservesMeaning(Symbolic(), i);
    PipelinePreservesMeaning(Symbolic(), j);
    SymbolicValue(Meaning(i));
    SymbolicValue(Meaning(j));
  }
}
