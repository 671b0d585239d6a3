/** The recursive-descent parser for WHERE expressions: it accepts exactly the writings of an
    expression in which OR binds weaker than AND and both associate to the left, and it undoes printing. */
module WhereParser {

  datatype Op = EQ | NE | LT | LE | GT | GE
  datatype Value = IntValue(i: int) | TextValue(s: string)
  datatype Expr = Cmp(col: string, op: Op, val: Value) | And(left: Expr, right: Expr) | Or(left: Expr, right: Expr)

  datatype Token = Ident(text: string) | Literal(val: Value) | Compare(op: Op) | LParen | RParen | Dot
                 | AndToken | OrToken | End | Other(text: string)

  const MAX_DEPTH := 500

  /** The token vector of the lexer: the end marker comes last, and only there. */
  predicate Terminated(toks: seq<Token>) {
    |toks| > 0 && forall i :: 0 <= i < |toks| ==> (toks[i] == End <==> i == |toks| - 1)
  }

  datatype Error = NestedTooDeeply | Expected(what: string)

  /** A parsed piece and the position behind it. */
  datatype Parsed<T> = Ok(value: T, next: nat) | Failed(error: Error)

  // ------------------------------------------------------------------ the grammar the code implements

  function PColRef(toks: seq<Token>, pos: nat): (r: Parsed<string>)
    requires Terminated(toks) && pos < |toks|
    ensures r.Ok? ==> pos < r.next < |toks|
  {
    if !toks[pos].Ident? then Failed(Expected("column name"))
    else if !toks[pos + 1].Dot? then Ok(toks[pos].text, pos + 1)
    else if !toks[pos + 2].Ident? then Failed(Expected("column name after '.'"))
    else Ok(toks[pos].text + "." + toks[pos + 2].text, pos + 3)
  }

  function PComparison(toks: seq<Token>, pos: nat): (r: Parsed<Expr>)
    requires Terminated(toks) && pos < |toks|
    ensures r.Ok? ==> pos < r.next < |toks|
  {
    match PColRef(toks, pos)
    case Failed(e) => Failed(e)
    case Ok(col, p) =>
      if !toks[p].Compare? then Failed(Expected("a comparison operator"))
      else if !toks[p + 1].Literal? then Failed(Expected("a literal value"))
      else Ok(Cmp(col, toks[p].op, toks[p + 1].val), p + 2)
  }

  function PCmp(toks: seq<Token>, pos: nat, depth: nat): (r: Parsed<Expr>)
    requires Terminated(toks) && pos < |toks|
    ensures r.Ok? ==> pos < r.next < |toks|
    decreases |toks| - pos, 0
  {
    if depth + 1 > MAX_DEPTH then Failed(NestedTooDeeply)
    else if toks[pos].LParen? then
      match PExpr(toks, pos + 1, depth + 1) {
        case Failed(e) => Failed(e)
        case Ok(e, p) => if toks[p].RParen? then Ok(e, p + 1) else Failed(Expected(")"))
      }
    else PComparison(toks, pos)
  }

  function PAnd(toks: seq<Token>, pos: nat, depth: nat): (r: Parsed<Expr>)
    requires Terminated(toks) && pos < |toks|
    ensures r.Ok? ==> pos < r.next < |toks|
    decreases |toks| - pos, 1
  {
    match PCmp(toks, pos, depth)
    case Failed(e) => Failed(e)
    case Ok(left, p) => PAndRest(toks, left, p, depth)
  }

  function PAndRest(toks: seq<Token>, left: Expr, pos: nat, depth: nat): (r: Parsed<Expr>)
    requires Terminated(toks) && pos < |toks|
    ensures r.Ok? ==> pos <= r.next < |toks|
    decreases |toks| - pos, 1
  {
    if !toks[pos].AndToken? then Ok(left, pos)
    else match PCmp(toks, pos + 1, depth)
      case Failed(e) => Failed(e)
      case Ok(right, p) => PAndRest(toks, And(left, right), p, depth)
  }

  function PExpr(toks: seq<Token>, pos: nat, depth: nat): (r: Parsed<Expr>)
    requires Terminated(toks) && pos < |toks|
    ensures r.Ok? ==> pos < r.next < |toks|
    decreases |toks| - pos, 2
  {
    match PAnd(toks, pos, depth)
    case Failed(e) => Failed(e)
    case Ok(left, p) => POrRest(toks, left, p, depth)
  }

  function POrRest(toks: seq<Token>, left: Expr, pos: nat, depth: nat): (r: Parsed<Expr>)
    requires Terminated(toks) && pos < |toks|
    ensures r.Ok? ==> pos <= r.next < |toks|
    decreases |toks| - pos, 2
  {
    if !toks[pos].OrToken? then Ok(left, pos)
    else match PAnd(toks, pos + 1, depth)
      case Failed(e) => Failed(e)
      case Ok(right, p) => POrRest(toks, Or(left, right), p, depth)
  }

  // ------------------------------------------------------------------ the parser

  datatype Result<T> = Success(value: T) | Failure(error: Error)

  /** What a parsing method returns and where it leaves the parser, given the grammar's answer. The depth
      is restored however parsing ends; the guard that finds it too large alone is never undone. */
  ghost predicate Follows<T>(r: Result<T>, pos: nat, depth: nat, p: Parsed<T>, depth0: nat) {
    match p
    case Ok(v, next) => r == Success(v) && pos == next && depth == depth0
    case Failed(e) => r == Failure(e) && depth == depth0 + if e.NestedTooDeeply? then 1 else 0
  }

  class Parser {
    const toks: seq<Token>
    var pos: nat
    var depth: nat

    ghost predicate Valid()
      reads this
    {
      Terminated(toks) && pos < |toks|
    }

    constructor (tokens: seq<Token>)
      requires Terminated(tokens)
      ensures Valid() && toks == tokens && pos == 0 && depth == 0
    {
      toks, pos, depth := tokens, 0, 0;
    }

    method ParseColRef() returns (r: Result<string>)
      requires Valid()
      modifies this
      ensures Valid() && Follows(r, pos, depth, PColRef(toks, old(pos)), old(depth))
    {
      if !toks[pos].Ident? { return Failure(Expected("column name")); }
      var name := toks[pos].text;
      pos := pos + 1;
      if toks[pos].Dot? {
        pos := pos + 1;
        if !toks[pos].Ident? { return Failure(Expected("column name after '.'")); }
        name := name + "." + toks[pos].text;
        pos := pos + 1;
      }
      r := Success(name);
    }

    method ParseExpr() returns (r: Result<Expr>)
      requires Valid()
      modifies this
      ensures Valid() && Follows(r, pos, depth, PExpr(toks, old(pos), old(depth)), old(depth))
      decreases |toks| - pos, 2
    {
      ghost var p0, d := pos, depth;
      r := ParseAnd();
      if r.Failure? { return; }
      var left := r.value;
      while toks[pos].OrToken?
        invariant Valid() && depth == d && p0 < pos && PExpr(toks, p0, d) == POrRest(toks, left, pos, d)
        decreases |toks| - pos
      {
        pos := pos + 1;
        r := ParseAnd();
        if r.Failure? { return; }
        left := Or(left, r.value);
      }
      r := Success(left);
    }

    method ParseAnd() returns (r: Result<Expr>)
      requires Valid()
      modifies this
      ensures Valid() && Follows(r, pos, depth, PAnd(toks, old(pos), old(depth)), old(depth))
      decreases |toks| - pos, 1
    {
      ghost var p0, d := pos, depth;
      r := ParseCmp();
      if r.Failure? { return; }
      var left := r.value;
      while toks[pos].AndToken?
        invariant Valid() && depth == d && p0 < pos && PAnd(toks, p0, d) == PAndRest(toks, left, pos, d)
        decreases |toks| - pos
      {
        pos := pos + 1;
        r := ParseCmp();
        if r.Failure? { return; }
        left := And(left, r.value);
      }
      r := Success(left);
    }

    /** The depth guard: an exception leaves through its destructor, unless its own constructor threw. */
    method ParseCmp() returns (r: Result<Expr>)
      requires Valid()
      modifies this
      ensures Valid() && Follows(r, pos, depth, PCmp(toks, old(pos), old(depth)), old(depth))
      decreases |toks| - pos, 0
    {
      depth := depth + 1;
      if depth > MAX_DEPTH { return Failure(NestedTooDeeply); }
      if toks[pos].LParen? {
        pos := pos + 1;
        r := ParseExpr();
        if r.Success? {
          if toks[pos].RParen? { pos := pos + 1; } else { r := Failure(Expected(")")); }
        }
      } else {
        r := ParseComparison();
      }
      depth := depth - 1;
    }

    method ParseComparison() returns (r: Result<Expr>)
      requires Valid()
      modifies this
      ensures Valid() && Follows(r, pos, depth, PComparison(toks, old(pos)), old(depth))
    {
      var c := ParseColRef();
      if c.Failure? { return Failure(c.error); }
      if !toks[pos].Compare? { return Failure(Expected("a comparison operator")); }
      var op := toks[pos].op;
      pos := pos + 1;
      if !toks[pos].Literal? { return Failure(Expected("a literal value")); }
      r := Success(Cmp(c.value, op, toks[pos].val));
      pos := pos + 1;
    }
  }

  // ------------------------------------------------------------------ writings

  datatype ColRef = Plain(name: string) | Qualified(table: string, name: string)

  /** An expression as written, with its parentheses. */
  datatype Writing = Comparison(col: ColRef, op: Op, val: Value) | Parens(inner: Writing)
                   | Both(left: Writing, right: Writing) | Either(left: Writing, right: Writing)

  predicate IsCmp(w: Writing)
    decreases w, 0
  {
    match w
    case Comparison(_, _, _) => true
    case Parens(i) => IsOr(i)
    case _ => false
  }

  /** A chain of ANDs associates to the left and holds no bare OR. */
  predicate IsAnd(w: Writing)
    decreases w, 1
  {
    if w.Both? then IsAnd(w.left) && IsCmp(w.right) else IsCmp(w)
  }

  predicate IsOr(w: Writing)
    decreases w, 2
  {
    if w.Either? then IsOr(w.left) && IsAnd(w.right) else IsAnd(w)
  }

  function ColText(c: ColRef): string {
    match c case Plain(n) => n case Qualified(t, n) => t + "." + n
  }

  function Meaning(w: Writing): Expr {
    match w
    case Comparison(c, op, v) => Cmp(ColText(c), op, v)
    case Parens(i) => Meaning(i)
    case Both(l, r) => And(Meaning(l), Meaning(r))
    case Either(l, r) => Or(Meaning(l), Meaning(r))
  }

  function ColTokens(c: ColRef): seq<Token> {
    match c case Plain(n) => [Ident(n)] case Qualified(t, n) => [Ident(t), Dot, Ident(n)]
  }

  function Tokens(w: Writing): (s: seq<Token>)
    ensures |s| > 0
  {
    match w
    case Comparison(c, op, v) => ColTokens(c) + [Compare(op), Literal(v)]
    case Parens(i) => [LParen] + Tokens(i) + [RParen]
    case Both(l, r) => Tokens(l) + [AndToken] + Tokens(r)
    case Either(l, r) => Tokens(l) + [OrToken] + Tokens(r)
  }

  /** How deep parentheses nest. */
  function Nesting(w: Writing): nat {
    match w
    case Comparison(_, _, _) => 0
    case Parens(i) => Nesting(i) + 1
    case Both(l, r) => if Nesting(l) > Nesting(r) then Nesting(l) else Nesting(r)
    case Either(l, r) => if Nesting(l) > Nesting(r) then Nesting(l) else Nesting(r)
  }

  /** The tokens of `w` stand from `pos` up to `next`. */
  ghost predicate Stands(toks: seq<Token>, pos: nat, next: nat, w: Writing) {
    pos <= next < |toks| && toks[pos..next] == Tokens(w)
  }

  // ------------------------------------------------------------------ every writing is accepted

  /** A writing of two parts around a connective, taken apart. */
  lemma SplitPair(toks: seq<Token>, pos: nat, next: nat, w: Writing) returns (mid: nat)
    requires Stands(toks, pos, next, w) && (w.Both? || w.Either?)
    ensures Stands(toks, pos, mid, w.left) && mid < next && Stands(toks, mid + 1, next, w.right)
    ensures toks[mid] == if w.Both? then AndToken else OrToken
  {
    var a, b := Tokens(w.left), Tokens(w.right);
    var s := toks[pos..next];
    mid := pos + |a|;
    AroundOne(a, if w.Both? then AndToken else OrToken, b);
    assert toks[pos..mid] == s[..|a|];
    assert toks[mid] == s[|a|];
    assert toks[mid + 1..next] == s[|a| + 1..];
  }

  lemma AroundOne(a: seq<Token>, t: Token, b: seq<Token>)
    ensures var s := a + [t] + b; s[..|a|] == a && s[|a|] == t && s[|a| + 1..] == b
  {
  }

  lemma ColumnAccepted(toks: seq<Token>, pos: nat, c: ColRef, op: Op, val: Value, next: nat)
    requires Terminated(toks) && Stands(toks, pos, next, Comparison(c, op, val))
    ensures PComparison(toks, pos) == Ok(Cmp(ColText(c), op, val), next)
  {
    var s := toks[pos..next];
    assert forall k :: 0 <= k < |s| ==> toks[pos + k] == s[k];
    assert toks[pos] == s[0] && toks[pos + 1] == s[1] && toks[pos + 2] == s[2];
    if c.Qualified? { assert toks[pos + 3] == s[3] && toks[pos + 4] == s[4]; }
  }

  lemma ParensInside(toks: seq<Token>, pos: nat, next: nat, i: Writing)
    requires Stands(toks, pos, next, Parens(i))
    ensures pos + 1 < next && toks[pos] == LParen && toks[next - 1] == RParen && Stands(toks, pos + 1, next - 1, i)
  {
    var s := toks[pos..next];
    assert s[0] == LParen && s[|s| - 1] == RParen && s[1..|s| - 1] == Tokens(i);
    assert toks[pos] == s[0] && toks[next - 1] == s[|s| - 1];
    assert |s| == next - pos;
    forall k | 0 <= k < |Tokens(i)|
      ensures toks[pos + 1..next - 1][k] == Tokens(i)[k]
    {
      assert toks[pos + 1 + k] == s[1 + k];
    }
  }

  lemma {:induction false} CmpAccepted(toks: seq<Token>, pos: nat, next: nat, w: Writing, depth: nat)
    requires Terminated(toks) && Stands(toks, pos, next, w) && IsCmp(w) && depth + Nesting(w) < MAX_DEPTH
    ensures pos < |toks| && PCmp(toks, pos, depth) == Ok(Meaning(w), next)
    decreases w, 0
  {
    match w
    case Comparison(c, op, v) =>
      assert toks[pos] == toks[pos..next][0];
      ColumnAccepted(toks, pos, c, op, v, next);
    case Parens(i) =>
      var s := toks[pos..next];
      ParensInside(toks, pos, next, i);
      OrAccepted(toks, pos + 1, next - 1, i, depth + 1);
  }

  /** A chain of ANDs read so far: the loop stands behind it with its tree. */
  lemma {:induction false} AndAccepted(toks: seq<Token>, pos: nat, next: nat, w: Writing, depth: nat)
    requires Terminated(toks) && Stands(toks, pos, next, w) && IsAnd(w) && depth + Nesting(w) < MAX_DEPTH
    ensures pos < |toks| && PAnd(toks, pos, depth) == PAndRest(toks, Meaning(w), next, depth)
    decreases w, 1
  {
    if w.Both? {
      var mid := SplitPair(toks, pos, next, w);
      AndAccepted(toks, pos, mid, w.left, depth);
      CmpAccepted(toks, mid + 1, next, w.right, depth);
    } else {
      CmpAccepted(toks, pos, next, w, depth);
    }
  }

  lemma {:induction false} OrChainAccepted(toks: seq<Token>, pos: nat, next: nat, w: Writing, depth: nat)
    requires Terminated(toks) && Stands(toks, pos, next, w) && IsOr(w) && depth + Nesting(w) < MAX_DEPTH
    requires !toks[next].AndToken?
    ensures pos < |toks| && PExpr(toks, pos, depth) == POrRest(toks, Meaning(w), next, depth)
    decreases w, 2
  {
    if w.Either? {
      var mid := SplitPair(toks, pos, next, w);
      OrChainAccepted(toks, pos, mid, w.left, depth);
      AndAccepted(toks, mid + 1, next, w.right, depth);
    } else {
      AndAccepted(toks, pos, next, w, depth);
    }
  }

  lemma {:induction false} OrAccepted(toks: seq<Token>, pos: nat, next: nat, w: Writing, depth: nat)
    requires Terminated(toks) && Stands(toks, pos, next, w) && IsOr(w) && depth + Nesting(w) < MAX_DEPTH
    requires !toks[next].AndToken? && !toks[next].OrToken?
    ensures pos < |toks| && PExpr(toks, pos, depth) == Ok(Meaning(w), next)
    decreases w, 3
  {
    OrChainAccepted(toks, pos, next, w, depth);
  }

  // ------------------------------------------------------------------ the depth guard

  lemma {:induction false} CmpTooDeep(toks: seq<Token>, pos: nat, next: nat, w: Writing, depth: nat)
    requires Terminated(toks) && Stands(toks, pos, next, w) && IsCmp(w) && depth + Nesting(w) >= MAX_DEPTH
    ensures PCmp(toks, pos, depth) == Failed(NestedTooDeeply)
    decreases w, 0
  {
    if depth < MAX_DEPTH {
      ParensInside(toks, pos, next, w.inner);
      OrTooDeep(toks, pos + 1, next - 1, w.inner, depth + 1);
    }
  }

  lemma {:induction false} AndTooDeep(toks: seq<Token>, pos: nat, next: nat, w: Writing, depth: nat)
    requires Terminated(toks) && Stands(toks, pos, next, w) && IsAnd(w) && depth + Nesting(w) >= MAX_DEPTH
    ensures PAnd(toks, pos, depth) == Failed(NestedTooDeeply)
    decreases w, 1
  {
    if w.Both? {
      var mid := SplitPair(toks, pos, next, w);
      if depth + Nesting(w.left) >= MAX_DEPTH {
        AndTooDeep(toks, pos, mid, w.left, depth);
      } else {
        AndAccepted(toks, pos, mid, w.left, depth);
        CmpTooDeep(toks, mid + 1, next, w.right, depth);
      }
    } else {
      CmpTooDeep(toks, pos, next, w, depth);
    }
  }

  /** Parentheses nested too deeply are reported as such, wherever they stand in the expression. */
  lemma {:induction false} OrTooDeep(toks: seq<Token>, pos: nat, next: nat, w: Writing, depth: nat)
    requires Terminated(toks) && Stands(toks, pos, next, w) && IsOr(w) && depth + Nesting(w) >= MAX_DEPTH
    ensures PExpr(toks, pos, depth) == Failed(NestedTooDeeply)
    decreases w, 2
  {
    if w.Either? {
      var mid := SplitPair(toks, pos, next, w);
      if depth + Nesting(w.left) >= MAX_DEPTH {
        OrTooDeep(toks, pos, mid, w.left, depth);
      } else {
        OrChainAccepted(toks, pos, mid, w.left, depth);
        AndTooDeep(toks, mid + 1, next, w.right, depth);
      }
    } else {
      AndTooDeep(toks, pos, next, w, depth);
    }
  }

  // ------------------------------------------------------------------ and nothing else

  lemma ComparisonIsWritten(toks: seq<Token>, pos: nat) returns (w: Writing)
    requires Terminated(toks) && pos < |toks| && PComparison(toks, pos).Ok?
    ensures w.Comparison? && Meaning(w) == PComparison(toks, pos).value
    ensures Stands(toks, pos, PComparison(toks, pos).next, w)
  {
    var p := PComparison(toks, pos).next;
    w := Comparison(if toks[pos + 1].Dot? then Qualified(toks[pos].text, toks[pos + 2].text) else Plain(toks[pos].text),
                    toks[p - 2].op, toks[p - 1].val);
    if toks[pos + 1].Dot? {
      assert toks[pos..p] == [toks[pos], toks[pos + 1], toks[pos + 2], toks[pos + 3], toks[pos + 4]];
    } else {
      assert toks[pos..p] == [toks[pos], toks[pos + 1], toks[pos + 2]];
    }
  }

  lemma {:induction false} CmpIsWritten(toks: seq<Token>, pos: nat, depth: nat) returns (w: Writing)
    requires Terminated(toks) && pos < |toks| && PCmp(toks, pos, depth).Ok?
    ensures IsCmp(w) && Meaning(w) == PCmp(toks, pos, depth).value && depth + Nesting(w) < MAX_DEPTH
    ensures Stands(toks, pos, PCmp(toks, pos, depth).next, w)
    decreases |toks| - pos, 0
  {
    if toks[pos].LParen? {
      var i := OrIsWritten(toks, pos + 1, depth + 1);
      var p := PExpr(toks, pos + 1, depth + 1).next;
      w := Parens(i);
      assert toks[pos..p + 1] == [LParen] + toks[pos + 1..p] + [RParen];
    } else {
      w := ComparisonIsWritten(toks, pos);
    }
  }

  lemma JoinPair(toks: seq<Token>, pos: nat, mid: nat, next: nat, l: Writing, r: Writing)
    requires Stands(toks, pos, mid, l) && Stands(toks, mid + 1, next, r)
    ensures toks[mid] == AndToken ==> Stands(toks, pos, next, Both(l, r))
    ensures toks[mid] == OrToken ==> Stands(toks, pos, next, Either(l, r))
  {
    assert toks[pos..next] == toks[pos..mid] + [toks[mid]] + toks[mid + 1..next];
  }

  lemma {:induction false} AndIsWritten(toks: seq<Token>, pos: nat, depth: nat) returns (w: Writing)
    requires Terminated(toks) && pos < |toks| && PAnd(toks, pos, depth).Ok?
    ensures var r := PAnd(toks, pos, depth);
            IsAnd(w) && Meaning(w) == r.value && depth + Nesting(w) < MAX_DEPTH
            && Stands(toks, pos, r.next, w) && !toks[r.next].AndToken?
    decreases |toks| - pos, 2
  {
    var first := CmpIsWritten(toks, pos, depth);
    w := AndRestIsWritten(toks, pos, PCmp(toks, pos, depth).next, first, depth);
  }

  lemma {:induction false} AndRestIsWritten(toks: seq<Token>, pos: nat, p: nat, left: Writing, depth: nat)
    returns (w: Writing)
    requires Terminated(toks) && pos < p < |toks| && Stands(toks, pos, p, left) && IsAnd(left)
    requires depth + Nesting(left) < MAX_DEPTH && PAndRest(toks, Meaning(left), p, depth).Ok?
    ensures var r := PAndRest(toks, Meaning(left), p, depth);
            IsAnd(w) && Meaning(w) == r.value && depth + Nesting(w) < MAX_DEPTH
            && Stands(toks, pos, r.next, w) && !toks[r.next].AndToken?
    decreases |toks| - p, 1
  {
    if toks[p].AndToken? {
      var right := CmpIsWritten(toks, p + 1, depth);
      var q := PCmp(toks, p + 1, depth).next;
      JoinPair(toks, pos, p, q, left, right);
      w := AndRestIsWritten(toks, pos, q, Both(left, right), depth);
    } else {
      w := left;
    }
  }

  lemma {:induction false} OrIsWritten(toks: seq<Token>, pos: nat, depth: nat) returns (w: Writing)
    requires Terminated(toks) && pos < |toks| && PExpr(toks, pos, depth).Ok?
    ensures var r := PExpr(toks, pos, depth);
            IsOr(w) && Meaning(w) == r.value && depth + Nesting(w) < MAX_DEPTH
            && Stands(toks, pos, r.next, w) && !toks[r.next].AndToken? && !toks[r.next].OrToken?
    decreases |toks| - pos, 4
  {
    var first := AndIsWritten(toks, pos, depth);
    w := OrRestIsWritten(toks, pos, PAnd(toks, pos, depth).next, first, depth);
  }

  lemma {:induction false} OrRestIsWritten(toks: seq<Token>, pos: nat, p: nat, left: Writing, depth: nat)
    returns (w: Writing)
    requires Terminated(toks) && pos < p < |toks| && Stands(toks, pos, p, left) && IsOr(left) && !toks[p].AndToken?
    requires depth + Nesting(left) < MAX_DEPTH && POrRest(toks, Meaning(left), p, depth).Ok?
    ensures var r := POrRest(toks, Meaning(left), p, depth);
            IsOr(w) && Meaning(w) == r.value && depth + Nesting(w) < MAX_DEPTH
            && Stands(toks, pos, r.next, w) && !toks[r.next].AndToken? && !toks[r.next].OrToken?
    decreases |toks| - p, 3
  {
    if toks[p].OrToken? {
      var right := AndIsWritten(toks, p + 1, depth);
      var q := PAnd(toks, p + 1, depth).next;
      JoinPair(toks, pos, p, q, left, right);
      w := OrRestIsWritten(toks, pos, q, Either(left, right), depth);
    } else {
      w := left;
    }
  }

  /** `w` is a writing of `e` from `pos` up to `next`, not nested too deeply, and not continued there. */
  ghost predicate Writes(toks: seq<Token>, pos: nat, depth: nat, e: Expr, next: nat, w: Writing) {
    && IsOr(w) && Meaning(w) == e && Stands(toks, pos, next, w) && depth + Nesting(w) < 500
    && !toks[next].AndToken? && !toks[next].OrToken?
  }

  /** The parser succeeds with a tree and a position if and only if the tokens up to there are a
      writing of the tree. */
  lemma ParsesExactlyWritings(toks: seq<Token>, pos: nat, depth: nat, e: Expr, next: nat)
    requires Terminated(toks) && pos < |toks|
    ensures PExpr(toks, pos, depth) == Ok(e, next) <==> exists w :: Writes(toks, pos, depth, e, next, w)
  {
    if PExpr(toks, pos, depth) == Ok(e, next) {
      var w := OrIsWritten(toks, pos, depth);
      assert Writes(toks, pos, depth, e, next, w);
    }
    if exists w :: Writes(toks, pos, depth, e, next, w) {
      var w :| Writes(toks, pos, depth, e, next, w);
      OrAccepted(toks, pos, next, w, depth);
    }
  }

  // ------------------------------------------------------------------ printing

  predicate HasDot(s: string) {
    '.' in s
  }

  /** The column reference behind a column name: split at the first dot. */
  function SplitColumn(s: string): (c: ColRef)
    ensures ColText(c) == s
    ensures c.Plain? <==> !HasDot(s)
  {
    if s == "" then Plain("")
    else if s[0] == '.' then Qualified("", s[1..])
    else match SplitColumn(s[1..])
      case Plain(n) => Plain(s)
      case Qualified(t, n) => assert [s[0]] + t + "." + n == s; Qualified([s[0]] + t, n)
  }

  /** The writing with the fewest parentheses: around an OR below an AND, and around any connective
      that stands to the right of its own kind. */
  function Print(e: Expr): (w: Writing)
    ensures IsOr(w) && Meaning(w) == e
    ensures !e.Or? ==> IsAnd(w)
    ensures e.Cmp? ==> IsCmp(w)
  {
    match e
    case Cmp(col, op, val) => Comparison(SplitColumn(col), op, val)
    case And(l, r) =>
      var w := Both(if l.Or? then Parens(Print(l)) else Print(l), if r.Cmp? then Print(r) else Parens(Print(r)));
      assert IsAnd(w.left) && IsCmp(w.right) && IsAnd(w);
      w
    case Or(l, r) =>
      var w := Either(Print(l), if r.Or? then Parens(Print(r)) else Print(r));
      assert IsAnd(w.right);
      w
  }

  /** Parsing undoes printing: whatever follows, as long as it does not continue the expression, the
      parser returns the printed tree and consumes exactly its tokens, or, from 500 nested parentheses
      on, reports the nesting. */
  lemma ParseUndoesPrint(e: Expr, rest: seq<Token>)
    requires rest != [] && Terminated(Tokens(Print(e)) + rest) && !rest[0].AndToken? && !rest[0].OrToken?
    ensures PExpr(Tokens(Print(e)) + rest, 0, 0)
         == if Nesting(Print(e)) < 500 then Ok(e, |Tokens(Print(e))|) else Failed(NestedTooDeeply)
  {
    var w := Print(e);
    var toks := Tokens(w) + rest;
    assert toks[0..|Tokens(w)|] == Tokens(w);
    assert toks[|Tokens(w)|] == rest[0];
    if Nesting(w) < MAX_DEPTH {
      OrAccepted(toks, 0, |Tokens(w)|, w, 0);
    } else {
      OrTooDeep(toks, 0, |Tokens(w)|, w, 0);
    }
  }

  /** A tree that fits has one reading only, so a writing is never accepted as another tree. */
  lemma WritingsAreUnambiguous(v: Writing, w: Writing)
    requires IsOr(v) && IsOr(w) && Tokens(v) == Tokens(w) && Nesting(v) < MAX_DEPTH && Nesting(w) < MAX_DEPTH
    requires Terminated(Tokens(v) + [End])
    ensures Meaning(v) == Meaning(w)
  {
    var toks := Tokens(v) + [End];
    assert toks[0..|Tokens(v)|] == Tokens(v);
    OrAccepted(toks, 0, |Tokens(v)|, v, 0);
    OrAccepted(toks, 0, |Tokens(w)|, w, 0);
  }
}
