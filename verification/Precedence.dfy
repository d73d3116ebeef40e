/**
 How operators group. The ten classes of binary operators are listed here by token,
 loosest first, on their own; what the parser makes of two operators, or of an operator
 beside a prefix, a cast or a postfix form, is stated by that list alone, for any operands.
 */
module Precedence {
  import opened Syntax
  import opened Grammar
  import opened Printer

  /** Token `t` stands for `op`, which is in class `i` of the ten. */
  predicate InClass(i: nat, t: Token, op: BinOp) {
    match op
    case OrOp => i == 0 && t == OrOr
    case AndOp => i == 1 && t == AndAnd
    case EqOp => i == 2 && t == EqEq
    case NeOp => i == 2 && t == Ne
    case LtOp => i == 3 && t == Lt
    case LeOp => i == 3 && t == Le
    case GtOp => i == 3 && t == Gt
    case GeOp => i == 3 && t == Ge
    case BitOr => i == 4 && t == Pipe
    case BitXor => i == 5 && t == Caret
    case BitAnd => i == 6 && t == Ampersand
    case ShlOp => i == 7 && t == Shl
    case ShrOp => i == 7 && t == Shr
    case Add => i == 8 && t == Plus
    case Sub => i == 8 && t == Minus
    case Mul => i == 9 && t == Star
    case Div => i == 9 && t == Slash
    case Mod => i == 9 && t == Percent
  }

  lemma ClassSpells(i: nat, t: Token, op: BinOp)
    requires InClass(i, t, op)
    ensures Infix(t) == Op(op) && LevelOf(op) == i
  {}

  /** The loop of level `i`, and of no tighter level, takes token `t` for `op`. */
  ghost predicate LoopTakes(i: nat, t: Token, op: BinOp) {
    i < UNARY && OpAt(i, t) == Op(op) && Stops(i + 1, t)
  }

  /** A level's loop takes exactly the operators of its class. */
  lemma ClassIsLevel(i: nat, t: Token, op: BinOp)
    requires InClass(i, t, op)
    ensures LoopTakes(i, t, op) && forall l: nat {:trigger StopsAt(l, t)} :: l != i ==> StopsAt(l, t)
  {
    ClassSpells(i, t, op);
    SpelledIsLevel(t, op);
  }

  lemma SpelledIsLevel(t: Token, op: BinOp)
    requires Infix(t) == Op(op)
    ensures LoopTakes(LevelOf(op), t, op) && forall l: nat {:trigger StopsAt(l, t)} :: l != LevelOf(op) ==> StopsAt(l, t)
  {
    forall l: nat | l != LevelOf(op) ensures StopsAt(l, t) {}
  }

  /** An operand read as a primary expression is read so at every level, and the loop of
      that level goes on from it. */
  lemma FromPrimary(l: nat, ts: Tokens, e: Expr, rest: Tokens)
    requires l < PRIMARY && ParsePrimary(ts) == Ok(e, rest) && Stops(l + 1, Peek(rest))
    ensures ParseLevel(l, ts) == Continue(l, e, rest)
  {
    assert ParseLevel(PRIMARY, ts) == ParsePrimary(ts);
    ClimbTo(ts, PRIMARY, l, e, rest);
  }

  /** An operand whole: no loop goes on from it. */
  lemma WholeFromPrimary(l: nat, ts: Tokens, e: Expr, rest: Tokens)
    requires l < PRIMARY && ParsePrimary(ts) == Ok(e, rest) && Stops(l, Peek(rest))
    ensures ParseLevel(l, ts) == Ok(e, rest)
  {
    StopsTighter(l, l + 1, Peek(rest));
    FromPrimary(l, ts, e, rest);
    StopsHere(l, e, rest);
  }

  /** One operator and its right operand, where that is read whole. */
  lemma TakesOne(i: nat, left: Expr, t: Token, op: BinOp, ts: Tokens, right: Expr, rest: Tokens)
    requires LoopTakes(i, t, op) && ParseLevel(i + 1, ts) == Ok(right, rest)
    ensures Continue(i, left, Cons(t, ts)) == Continue(i, Binary(op, left, right), rest)
  {
    assert ContinueBinary(i, left, Cons(t, ts)) == Continue(i, Binary(op, left, right), rest);
  }

  lemma PrimaryHasNoPrefix(ts: Tokens)
    requires ParsePrimary(ts).Ok?
    ensures Peek(ts) !in {Not, Minus, Tilde}
  {}

  /** `a p b` with p in class i, read at that level. */
  lemma OneOperator(i: nat, p: Token, op: BinOp, ts: Tokens, a: Expr, ts': Tokens, b: Expr, rest: Tokens)
    requires LoopTakes(i, p, op) && ParsePrimary(ts) == Ok(a, Cons(p, ts')) && ParsePrimary(ts') == Ok(b, rest)
    requires Stops(i + 1, Peek(rest))
    ensures ParseLevel(i, ts) == Continue(i, Binary(op, a, b), rest)
  {
    FromPrimary(i, ts, a, Cons(p, ts'));
    WholeFromPrimary(i + 1, ts', b, rest);
    TakesOne(i, a, p, op, ts', b, rest);
  }

  lemma ThenOperator(i: nat, p: Token, op: BinOp, all: Tokens, left: Expr, ts': Tokens, b: Expr, rest: Tokens)
    requires LoopTakes(i, p, op) && Stops(0, Peek(rest))
    requires ParseLevel(i, all) == Continue(i, left, Cons(p, ts')) && ParsePrimary(ts') == Ok(b, rest)
    ensures ParseExpr(all) == Ok(Binary(op, left, b), rest)
  {
    StopsTighter(0, i + 1, Peek(rest));
    WholeFromPrimary(i + 1, ts', b, rest);
    ThenOperand(i, p, op, all, left, ts', b, rest);
  }

  lemma ThenOperand(i: nat, p: Token, op: BinOp, all: Tokens, left: Expr, ts': Tokens, right: Expr, rest: Tokens)
    requires LoopTakes(i, p, op) && Stops(0, Peek(rest))
    requires ParseLevel(i, all) == Continue(i, left, Cons(p, ts')) && ParseLevel(i + 1, ts') == Ok(right, rest)
    ensures ParseExpr(all) == Ok(Binary(op, left, right), rest)
  {
    TakesOne(i, left, p, op, ts', right, rest);
    StopsTighter(0, i, Peek(rest));
    StopsHere(i, Binary(op, left, right), rest);
    Climb(all, i, 0, 0, Binary(op, left, right), rest);
  }

  /** `b q c` as an operand of a looser level. */
  lemma PairWhole(l: nat, j: nat, q: Token, op: BinOp, ts: Tokens, b: Expr, ts': Tokens, c: Expr, rest: Tokens)
    requires LoopTakes(j, q, op) && l <= j && Stops(0, Peek(rest))
    requires ParsePrimary(ts) == Ok(b, Cons(q, ts')) && ParsePrimary(ts') == Ok(c, rest)
    ensures ParseLevel(l, ts) == Ok(Binary(op, b, c), rest)
  {
    StopsTighter(0, j + 1, Peek(rest));
    StopsTighter(0, j, Peek(rest));
    OneOperator(j, q, op, ts, b, ts', c, rest);
    StopsHere(j, Binary(op, b, c), rest);
    PrimaryHasNoPrefix(ts);
    Climb(ts, j, 0, l, Binary(op, b, c), rest);
  }

  lemma GroupsRight(i: nat, p: Token, opP: BinOp, j: nat, q: Token, opQ: BinOp,
                    ts: Tokens, a: Expr, ts': Tokens, b: Expr, ts'': Tokens, c: Expr, rest: Tokens)
    requires LoopTakes(i, p, opP) && LoopTakes(j, q, opQ) && i < j && Stops(0, Peek(rest))
    requires ParsePrimary(ts) == Ok(a, Cons(p, ts')) && ParsePrimary(ts') == Ok(b, Cons(q, ts'')) && ParsePrimary(ts'') == Ok(c, rest)
    ensures ParseExpr(ts) == Ok(Binary(opP, a, Binary(opQ, b, c)), rest)
  {
    PairWhole(i + 1, j, q, opQ, ts', b, ts'', c, rest);
    FirstOperand(i, p, opP, ts, a, ts', Binary(opQ, b, c), rest);
  }

  /** `a p b` where an operator of a looser or the same class follows. */
  lemma PairBefore(i: nat, p: Token, op: BinOp, j: nat, q: Token, ts: Tokens, a: Expr, ts': Tokens, b: Expr, ts'': Tokens)
    requires LoopTakes(i, p, op) && j <= i && Stops(j + 1, q)
    requires ParsePrimary(ts) == Ok(a, Cons(p, ts')) && ParsePrimary(ts') == Ok(b, Cons(q, ts''))
    ensures ParseLevel(j, ts) == Continue(j, Binary(op, a, b), Cons(q, ts''))
  {
    StopsTighter(j + 1, i + 1, q);
    OneOperator(i, p, op, ts, a, ts', b, Cons(q, ts''));
    if j < i {
      StopsTighter(j + 1, i, q);
      StopsHere(i, Binary(op, a, b), Cons(q, ts''));
      PrimaryHasNoPrefix(ts);
      ClimbTo(ts, i, j, Binary(op, a, b), Cons(q, ts''));
    }
  }

  lemma GroupsLeft(i: nat, p: Token, opP: BinOp, j: nat, q: Token, opQ: BinOp,
                   ts: Tokens, a: Expr, ts': Tokens, b: Expr, ts'': Tokens, c: Expr, rest: Tokens)
    requires LoopTakes(i, p, opP) && LoopTakes(j, q, opQ) && j <= i && Stops(0, Peek(rest))
    requires ParsePrimary(ts) == Ok(a, Cons(p, ts')) && ParsePrimary(ts') == Ok(b, Cons(q, ts'')) && ParsePrimary(ts'') == Ok(c, rest)
    ensures ParseExpr(ts) == Ok(Binary(opQ, Binary(opP, a, b), c), rest)
  {
    PairBefore(i, p, opP, j, q, ts, a, ts', b, ts'');
    ThenOperator(j, q, opQ, ts, Binary(opP, a, b), ts'', c, rest);
  }

  /** Whatever the operands are: `a p b q c` groups to the right exactly if q is in a
      tighter class than p, and to the left otherwise, so operators of one class group
      to the left. */
  lemma TwoOperators(i: nat, p: Token, opP: BinOp, j: nat, q: Token, opQ: BinOp,
                     ts: Tokens, a: Expr, ts': Tokens, b: Expr, ts'': Tokens, c: Expr, rest: Tokens)
    requires InClass(i, p, opP) && InClass(j, q, opQ) && Stops(0, Peek(rest))
    requires ParsePrimary(ts) == Ok(a, Cons(p, ts')) && ParsePrimary(ts') == Ok(b, Cons(q, ts'')) && ParsePrimary(ts'') == Ok(c, rest)
    ensures ParseExpr(ts) == Ok(if j > i then Binary(opP, a, Binary(opQ, b, c)) else Binary(opQ, Binary(opP, a, b), c), rest)
  {
    ClassIsLevel(i, p, opP);
    ClassIsLevel(j, q, opQ);
    if j > i {
      GroupsRight(i, p, opP, j, q, opQ, ts, a, ts', b, ts'', c, rest);
    } else {
      GroupsLeft(i, p, opP, j, q, opQ, ts, a, ts', b, ts'', c, rest);
    }
  }

  // ------------------------------------------------ prefix, cast and postfix

  predicate IsPrefix(t: Token, op: UnOp) {
    (t == Not && op == LogNot) || (t == Minus && op == Neg) || (t == Tilde && op == BitNot)
  }

  /** A prefix operator takes its operand before any binary operator: `- a p b` is
      `(- a) p b`. */
  lemma PrefixThenBinary(t: Token, u: UnOp, i: nat, p: Token, op: BinOp, ts: Tokens, a: Expr, ts': Tokens, b: Expr, rest: Tokens)
    requires IsPrefix(t, u) && InClass(i, p, op) && Stops(0, Peek(rest))
    requires ParsePrimary(ts) == Ok(a, Cons(p, ts')) && ParsePrimary(ts') == Ok(b, rest)
    ensures ParseExpr(Cons(t, ts)) == Ok(Binary(op, Unary(u, a), b), rest)
  {
    var all := Cons(t, ts);
    ClassIsLevel(i, p, op);
    StopsTighter(i + 1, UNARY, p);
    WholeFromPrimary(UNARY, ts, a, Cons(p, ts'));
    PrefixRead(t, u, ts, a, Cons(p, ts'));
    ClimbFromUnary(all, i, Unary(u, a), Cons(p, ts'));
    ThenOperator(i, p, op, all, Unary(u, a), ts', b, rest);
  }

  lemma PrefixRead(t: Token, u: UnOp, ts: Tokens, a: Expr, rest: Tokens)
    requires IsPrefix(t, u) && ParseLevel(UNARY, ts) == Ok(a, rest)
    ensures ParseLevel(UNARY, Cons(t, ts)) == Ok(Unary(u, a), rest)
  {
    assert ParsePrefixed(Cons(t, ts)) == Ok(Unary(u, a), rest);
  }

  /** The prefix operators stand at a level of their own. */
  lemma ClimbFromUnary(ts: Tokens, l: nat, e: Expr, rest: Tokens)
    requires l < UNARY && ParseLevel(UNARY, ts) == Ok(e, rest) && Stops(l + 1, Peek(rest))
    ensures ParseLevel(l, ts) == Continue(l, e, rest)
  {
    ClimbTo(ts, UNARY, l, e, rest);
  }

  /** A cast binds tighter than a prefix operator: `- a as T` is `- (a as T)`. */
  lemma PrefixThenCast(t: Token, u: UnOp, ts: Tokens, a: Expr, ts': Tokens, ty: Type, rest: Tokens)
    requires IsPrefix(t, u) && Stops(0, Peek(rest))
    requires ParsePrimary(ts) == Ok(a, Cons(As, ts')) && ParseType(ts') == Ok(ty, rest)
    ensures ParseExpr(Cons(t, ts)) == Ok(Unary(u, Cast(a, ty)), rest)
  {
    var all := Cons(t, ts);
    CastRead(ts, a, ts', ty, rest);
    StopsTighter(0, UNARY, Peek(rest));
    PrimaryHasNoPrefix(ts);
    Climb(ts, CAST, UNARY, UNARY, Cast(a, ty), rest);
    PrefixRead(t, u, ts, Cast(a, ty), rest);
    Climb(all, UNARY, 0, 0, Unary(u, Cast(a, ty)), rest);
  }

  lemma CastRead(ts: Tokens, a: Expr, ts': Tokens, ty: Type, rest: Tokens)
    requires ParsePrimary(ts) == Ok(a, Cons(As, ts')) && ParseType(ts') == Ok(ty, rest) && Stops(0, Peek(rest))
    ensures ParseLevel(CAST, ts) == Ok(Cast(a, ty), rest)
  {
    ClosersAndAs();
    FromPrimary(CAST, ts, a, Cons(As, ts'));
    assert ContinueCast(a, Cons(As, ts')) == Continue(CAST, Cast(a, ty), rest);
    StopsTighter(0, CAST, Peek(rest));
    StopsHere(CAST, Cast(a, ty), rest);
  }

  lemma ClosersAndAs()
    ensures Stops(CAST + 1, As) && Stops(POSTFIX + 1, Dot)
  {}

  /** And tighter than any binary operator: `a p b as T` is `a p (b as T)`. */
  lemma BinaryThenCast(i: nat, p: Token, op: BinOp, ts: Tokens, a: Expr, ts': Tokens, b: Expr, ts'': Tokens, ty: Type, rest: Tokens)
    requires InClass(i, p, op) && Stops(0, Peek(rest))
    requires ParsePrimary(ts) == Ok(a, Cons(p, ts')) && ParsePrimary(ts') == Ok(b, Cons(As, ts'')) && ParseType(ts'') == Ok(ty, rest)
    ensures ParseExpr(ts) == Ok(Binary(op, a, Cast(b, ty)), rest)
  {
    ClassIsLevel(i, p, op);
    CastWhole(i + 1, ts', b, ts'', ty, rest);
    FirstOperand(i, p, op, ts, a, ts', Cast(b, ty), rest);
  }

  lemma FirstOperand(i: nat, p: Token, op: BinOp, ts: Tokens, a: Expr, ts': Tokens, right: Expr, rest: Tokens)
    requires LoopTakes(i, p, op) && Stops(0, Peek(rest))
    requires ParsePrimary(ts) == Ok(a, Cons(p, ts')) && ParseLevel(i + 1, ts') == Ok(right, rest)
    ensures ParseExpr(ts) == Ok(Binary(op, a, right), rest)
  {
    FromPrimary(i, ts, a, Cons(p, ts'));
    ThenOperand(i, p, op, ts, a, ts', right, rest);
  }

  lemma CastWhole(l: nat, ts: Tokens, b: Expr, ts': Tokens, ty: Type, rest: Tokens)
    requires l <= CAST && ParsePrimary(ts) == Ok(b, Cons(As, ts')) && ParseType(ts') == Ok(ty, rest) && Stops(0, Peek(rest))
    ensures ParseLevel(l, ts) == Ok(Cast(b, ty), rest)
  {
    CastRead(ts, b, ts', ty, rest);
    PrimaryHasNoPrefix(ts);
    Climb(ts, CAST, 0, l, Cast(b, ty), rest);
  }

  /** A field is taken before a cast: `a.f as T` is `(a.f) as T`. */
  lemma FieldThenCast(ts: Tokens, a: Expr, f: string, ts': Tokens, ty: Type, rest: Tokens)
    requires ParsePrimary(ts) == Ok(a, Cons(Dot, Cons(Ident(f), Cons(As, ts')))) && ParseType(ts') == Ok(ty, rest)
    requires Stops(0, Peek(rest))
    ensures ParseExpr(ts) == Ok(Cast(Field(a, f), ty), rest)
  {
    var after := Cons(As, ts');
    ClosersAndAs();
    FromPrimary(POSTFIX, ts, a, Cons(Dot, Cons(Ident(f), after)));
    FieldStep(a, f, after);
    StopsHere(POSTFIX, Field(a, f), after);
    PrimaryHasNoPrefix(ts);
    ClimbTo(ts, POSTFIX, CAST, Field(a, f), after);
    assert ContinueCast(Field(a, f), after) == Continue(CAST, Cast(Field(a, f), ty), rest);
    StopsTighter(0, CAST, Peek(rest));
    StopsHere(CAST, Cast(Field(a, f), ty), rest);
    Climb(ts, CAST, 0, 0, Cast(Field(a, f), ty), rest);
  }
}
