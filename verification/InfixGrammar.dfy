/** What the operators mean, said without the table of precedences: a grammar with one level for each
    group of operators, and ordinary arithmetic. */
module InfixGrammar {
  import opened ShuntingYard

  // ------------------------------------------------------------------ the grammar

  /** A name, or anything in parentheses. */
  predicate IsPrimary(w: Infix)
    decreases w, 0
  {
    match w
    case Atom(_) => true
    case Paren(j) => IsExpression(j)
    case Binary(_, _, _) => false
  }

  /** `a ^ b ^ c`, to the right. */
  predicate IsPower(w: Infix)
    decreases w, 1
  {
    if w.Binary? && w.op == Power then IsPrimary(w.left) && IsPower(w.right) else IsPrimary(w)
  }

  /** `a * b / c`, like all that follow to the left. */
  predicate IsProduct(w: Infix)
    decreases w, 2
  {
    if w.Binary? && (w.op == Times || w.op == Divide) then IsProduct(w.left) && IsPower(w.right) else IsPower(w)
  }

  predicate IsSum(w: Infix)
    decreases w, 3
  {
    if w.Binary? && (w.op == Plus || w.op == Minus) then IsSum(w.left) && IsProduct(w.right) else IsProduct(w)
  }

  predicate IsRelation(w: Infix)
    decreases w, 4
  {
    if w.Binary? && (w.op == Lt || w.op == Gt || w.op == Le || w.op == Ge) then IsRelation(w.left) && IsSum(w.right)
    else IsSum(w)
  }

  predicate IsEquality(w: Infix)
    decreases w, 5
  {
    if w.Binary? && (w.op == Eq || w.op == Ne) then IsEquality(w.left) && IsRelation(w.right) else IsRelation(w)
  }

  predicate IsConjunction(w: Infix)
    decreases w, 6
  {
    if w.Binary? && w.op == And then IsConjunction(w.left) && IsEquality(w.right) else IsEquality(w)
  }

  predicate IsExpression(w: Infix)
    decreases w, 7
  {
    if w.Binary? && w.op == Or then IsExpression(w.left) && IsConjunction(w.right) else IsConjunction(w)
  }

  /** The level an operator stands on, counted from the loosest. */
  function Level(w: Infix): nat {
    if !w.Binary? then 8
    else match w.op
      case Or => 1
      case And => 2
      case Eq => 3 case Ne => 3
      case Lt => 4 case Gt => 4 case Le => 4 case Ge => 4
      case Plus => 5 case Minus => 5
      case Times => 6 case Divide => 6
      case Power => 7
  }

  /** What the grammar admits where at least level `n` is called for. */
  predicate IsLevel(n: nat, w: Infix) {
    if n <= 1 then IsExpression(w) else if n == 2 then IsConjunction(w) else if n == 3 then IsEquality(w)
    else if n == 4 then IsRelation(w) else if n == 5 then IsSum(w) else if n == 6 then IsProduct(w)
    else if n == 7 then IsPower(w) else IsPrimary(w)
  }

  /** One production of the grammar. */
  lemma LevelStep(n: nat, w: Infix)
    requires 1 <= n <= 7
    ensures IsLevel(n, w) <==>
      if w.Binary? && Level(w) == n then
        if n == 7 then IsLevel(8, w.left) && IsLevel(7, w.right) else IsLevel(n, w.left) && IsLevel(n + 1, w.right)
      else IsLevel(n + 1, w)
  {
  }

  /** Where a level is called for, exactly the writings of that level and tighter ones may stand. */
  lemma {:induction false} LevelIff(n: nat, w: Infix)
    requires 1 <= n <= 8
    ensures IsLevel(n, w) <==> WellParenthesized(w) && Level(w) >= n
    decreases w, 8 - n
  {
    if n == 8 {
      if w.Paren? { LevelIff(1, w.inner); }
    } else {
      LevelStep(n, w);
      if w.Binary? && Level(w) == n {
        LevelIff(if n == 7 then 8 else n, w.left);
        LevelIff(if n == 7 then 7 else n + 1, w.right);
      } else {
        LevelIff(n + 1, w);
      }
    }
  }

  /** The grammar admits exactly the writings with parentheses wherever the table requires them. */
  lemma GrammarIffParenthesized(w: Infix)
    ensures IsExpression(w) <==> WellParenthesized(w)
  {
    LevelIff(1, w);
  }

  /** Every writing of the grammar is translated to the postfix form of the tree it stands for. */
  lemma GrammarTranslates(w: Infix)
    requires IsExpression(w)
    ensures Translate(Tokens(w)) == Translated(Postfix(Meaning(w)))
  {
    GrammarIffParenthesized(w);
    TranslationIsPostfix(w);
  }

  // ------------------------------------------------------------------ arithmetic

  /** What names stand for, and what the model leaves open of floating point: powers and quotients by zero. */
  datatype Env = Env(value: string -> Option<real>, power: (real, real) -> real, byZero: real -> real)

  function Truth(b: bool): real {
    if b then 1.0 else 0.0
  }

  /** The cases of the evaluator. */
  function ApplyOp(env: Env, op: Operator, a: real, b: real): real {
    match op
    case Plus => a + b
    case Minus => a - b
    case Times => a * b
    case Divide => if b == 0.0 then env.byZero(a) else a / b
    case Power => env.power(a, b)
    case Lt => Truth(a < b)
    case Gt => Truth(a > b)
    case Le => Truth(a <= b)
    case Ge => Truth(a >= b)
    case Eq => Truth(a == b)
    case Ne => Truth(a != b)
    case And => Truth(a != 0.0 && b != 0.0)
    case Or => Truth(a != 0.0 || b != 0.0)
  }

  function Arithmetic(env: Env): Semantics<real> {
    Semantics(env.value, (op, a, b) => ApplyOp(env, op, a, b))
  }

  /** All names are known. */
  predicate Known(env: Env, w: Infix) {
    match w
    case Atom(n) => env.value(n).Some?
    case Paren(j) => Known(env, j)
    case Binary(_, l, r) => Known(env, l) && Known(env, r)
  }

  /** `x` is what the operator makes of `a` and `b`: sums and quotients by what undoes them, comparisons by the
      order of the numbers, with 1 for true and 0 for false; what is not zero counts as true. */
  ghost predicate Operation(env: Env, op: Operator, a: real, b: real, x: real) {
    match op
    case Plus => x - b == a
    case Minus => x + b == a
    case Times => x == b * a
    case Divide => if b == 0.0 then x == env.byZero(a) else x * b == a
    case Power => x == env.power(a, b)
    case Lt => if b - a > 0.0 then x == 1.0 else x == 0.0
    case Gt => if a - b > 0.0 then x == 1.0 else x == 0.0
    case Le => if a - b > 0.0 then x == 0.0 else x == 1.0
    case Ge => if b - a > 0.0 then x == 0.0 else x == 1.0
    case Eq => if a - b == 0.0 then x == 1.0 else x == 0.0
    case Ne => if a - b == 0.0 then x == 0.0 else x == 1.0
    case And => if a == 0.0 || b == 0.0 then x == 0.0 else x == 1.0
    case Or => if a == 0.0 && b == 0.0 then x == 0.0 else x == 1.0
  }

  /** The number a writing stands for. */
  ghost predicate Denotes(env: Env, w: Infix, x: real) {
    match w
    case Atom(n) => env.value(n) == Some(x)
    case Paren(j) => Denotes(env, j, x)
    case Binary(op, l, r) => exists a, b :: Operation(env, op, a, b, x) && Denotes(env, l, a) && Denotes(env, r, b)
  }

  /** Evaluating the translation of a writing gives the one number it stands for. */
  lemma {:induction false} ValueIsDenoted(env: Env, w: Infix)
    requires Known(env, w)
    ensures var r := ValueOf(Arithmetic(env), Meaning(w)); r.Value? && Denotes(env, w, r.value)
  {
    match w
    case Atom(_) => {}
    case Paren(j) => ValueIsDenoted(env, j);
    case Binary(op, l, r) =>
      ValueIsDenoted(env, l);
      ValueIsDenoted(env, r);
      var sem := Arithmetic(env);
      OperatorIsDenoted(env, w, ValueOf(sem, Meaning(l)).value, ValueOf(sem, Meaning(r)).value);
  }

  lemma OperatorIsDenoted(env: Env, w: Infix, a: real, b: real)
    requires w.Binary? && Denotes(env, w.left, a) && Denotes(env, w.right, b)
    ensures Denotes(env, w, ApplyOp(env, w.op, a, b))
  {
    ApplyIsOperation(env, w.op, a, b);
    OperandsDenote(env, w, a, b, ApplyOp(env, w.op, a, b));
  }

  lemma ApplyIsOperation(env: Env, op: Operator, a: real, b: real)
    ensures Operation(env, op, a, b, ApplyOp(env, op, a, b))
  {
    if op == Divide {
      QuotientIsOperation(env, a, b, if b == 0.0 then 0.0 else a / b);
    }
  }

  lemma QuotientIsOperation(env: Env, a: real, b: real, q: real)
    requires b != 0.0 ==> q == a / b
    ensures Operation(env, Divide, a, b, if b == 0.0 then env.byZero(a) else q)
  {
    if b != 0.0 { QuotientTimes(a, b); }
  }

  lemma QuotientTimes(a: real, b: real)
    requires b != 0.0
    ensures (a / b) * b == a
  {
  }

  lemma OperandsDenote(env: Env, w: Infix, a: real, b: real, x: real)
    requires w.Binary? && Denotes(env, w.left, a) && Denotes(env, w.right, b) && Operation(env, w.op, a, b, x)
    ensures Denotes(env, w, x)
  {
  }

  lemma OneResult(env: Env, op: Operator, a: real, b: real, x: real, y: real)
    requires Operation(env, op, a, b, x) && Operation(env, op, a, b, y)
    ensures x == y
  {
    if op == Divide && b != 0.0 { OneQuotient(a, b, x, y); }
  }

  lemma OneQuotient(a: real, b: real, x: real, y: real)
    requires b != 0.0 && x * b == a && y * b == a
    ensures x == y
  {
    assert (x - y) * b == 0.0;
  }

  lemma {:induction false} OneNumber(env: Env, w: Infix, x: real, y: real)
    requires Denotes(env, w, x) && Denotes(env, w, y)
    ensures x == y
  {
    match w
    case Atom(_) => {}
    case Paren(j) => OneNumber(env, j, x, y);
    case Binary(op, l, r) =>
      var a, b :| Operation(env, op, a, b, x) && Denotes(env, l, a) && Denotes(env, r, b);
      var c, d :| Operation(env, op, c, d, y) && Denotes(env, l, c) && Denotes(env, r, d);
      OneNumber(env, l, a, c);
      OneNumber(env, r, b, d);
      OneResult(env, op, a, b, x, y);
  }

  /** Every writing of the grammar with known names is evaluated, through its translation, to the number it
      stands for. */
  lemma EvaluatesToItsNumber(env: Env, w: Infix, x: real)
    requires IsExpression(w) && Known(env, w)
    ensures Translate(Tokens(w)).Translated?
    ensures Evaluate(Arithmetic(env), Translate(Tokens(w)).output) == Value(x) <==> Denotes(env, w, x)
  {
    GrammarIffParenthesized(w);
    PipelinePreservesMeaning(Arithmetic(env), w);
    ValueIsDenoted(env, w);
    var r := ValueOf(Arithmetic(env), Meaning(w));
    if Denotes(env, w, x) { OneNumber(env, w, x, r.value); }
  }
}
