/**
 Printing an expression with parentheses only where the ladder needs them, and
 the proof that the parser reads back the same tree. Printing puts the tokens of
 an expression in front of those that follow.
 */
module Printer {
  import opened Syntax
  import opened Grammar

  /** The tightest level whose operand an expression can be without parentheses. */
  function Prec(e: Expr): (l: nat)
    ensures l <= PRIMARY
  {
    match e
    case Binary(op, _, _) => LevelOf(op)
    case Unary(_, _) => UNARY
    case Cast(_, _) => CAST
    case MethodCall(_, _, _) => POSTFIX
    case Field(_, _) => POSTFIX
    case Index(_, _) => POSTFIX
    case _ => PRIMARY
  }

  function PrintType(t: Type, rest: Tokens): Tokens {
    match t
    case Primitive(p) => Cons(PrimType(p), rest)
    case UnitType => Cons(LParen, Cons(RParen, rest))
    case ArrayOf(elem, size) => Cons(LBracket, PrintType(elem, Cons(Semicolon, Cons(IntLit(size), Cons(RBracket, rest)))))
    case ResultOf(ok, err) => Cons(Ident("Result"), Cons(Lt, PrintType(ok, Cons(Comma, PrintType(err, Cons(Gt, rest))))))
    case OptionOf(inner) => Cons(Ident("Option"), Cons(Lt, PrintType(inner, Cons(Gt, rest))))
    case Named(name) => Cons(Ident(name), rest)
  }

  /** As an operand of level `l`. */
  function Print(e: Expr, l: nat, rest: Tokens): Tokens
    decreases e, 2
  {
    if Prec(e) < l then Cons(LParen, Body(e, Cons(RParen, rest))) else Body(e, rest)
  }

  function Body(e: Expr, rest: Tokens): Tokens
    decreases e, 1
  {
    match e
    case IntE(n) => Cons(IntLit(n), rest)
    case FixedE(n) => Cons(FixedLit(n), rest)
    case StringE(s) => Cons(StringLit(s), rest)
    case BoolE(b) => Cons(if b then True else False, rest)
    case UnitE => Cons(LParen, Cons(RParen, rest))
    case Var(name) => Cons(Ident(name), rest)
    case Binary(op, x, y) => Print(x, LevelOf(op), Cons(Spell(op), Print(y, LevelOf(op) + 1, rest)))
    case Unary(op, x) => Cons(SpellUnary(op), Print(x, UNARY, rest))
    case Cast(x, t) => Print(x, CAST, Cons(As, PrintType(t, rest)))
    case Call(f, args) => Cons(Ident(f), Cons(LParen, PrintArgs(args, Cons(RParen, rest))))
    case MethodCall(x, m, args) =>
      Print(x, POSTFIX, Cons(Dot, Cons(Ident(m), Cons(LParen, PrintArgs(args, Cons(RParen, rest))))))
    case Field(x, f) => Print(x, POSTFIX, Cons(Dot, Cons(Ident(f), rest)))
    case Index(x, i) => Print(x, POSTFIX, Cons(LBracket, Print(i, 0, Cons(RBracket, rest))))
    case ArrayInit(es) => Cons(LBracket, PrintArgs(es, Cons(RBracket, rest)))
  }

  function PrintArgs(es: seq<Expr>, rest: Tokens): Tokens
    decreases es, 0
  {
    if es == [] then rest
    else if |es| == 1 then Print(es[0], 0, rest)
    else Print(es[0], 0, Cons(Comma, PrintArgs(es[1..], rest)))
  }

  /** No cast to a bare named type is directly followed by `<`, which would be read as
      the start of generic arguments; `lt` says whether `<` follows the whole. */
  predicate Fits(e: Expr, l: nat, lt: bool)
    decreases e, 1
  {
    FitsBody(e, lt && l <= Prec(e))
  }

  predicate FitsBody(e: Expr, lt: bool)
    decreases e, 0
  {
    match e
    case Binary(op, x, y) => Fits(x, LevelOf(op), op == LtOp) && Fits(y, LevelOf(op) + 1, lt)
    case Unary(_, x) => Fits(x, UNARY, lt)
    case Cast(x, t) => Fits(x, CAST, false) && !(t.Named? && lt)
    case Call(_, args) => forall a :: a in args ==> Fits(a, 0, false)
    case MethodCall(x, _, args) => Fits(x, POSTFIX, false) && forall a :: a in args ==> Fits(a, 0, false)
    case Field(x, _) => Fits(x, POSTFIX, false)
    case Index(x, i) => Fits(x, POSTFIX, false) && Fits(i, 0, false)
    case ArrayInit(es) => forall a :: a in es ==> Fits(a, 0, false)
    case _ => true
  }

  predicate StopsAt(k: nat, t: Token) {
    OpAt(k, t) == NoOp
  }

  /** No loop from level `l` up takes this token, nor does a name followed by it. */
  predicate Stops(l: nat, t: Token) {
    && (forall k {:trigger StopsAt(k, t)} :: l <= k < UNARY ==> StopsAt(k, t))
    && (l <= CAST ==> t != As)
    && (l <= POSTFIX ==> t != Dot && t != LBracket)
    && t != LParen && t != ColonColon
  }

  lemma ClosersStop(t: Token)
    requires t in {RParen, RBracket, Comma, Eof}
    ensures Stops(0, t)
  {}

  lemma {:induction false} StopsTighter(l: nat, k: nat, t: Token)
    requires Stops(l, t) && l <= k
    ensures Stops(k, t)
  {}

  /** Where every level stops, no loop goes on. */
  lemma {:induction false} StopsHere(l: nat, e: Expr, rest: Tokens)
    requires l <= PRIMARY && Stops(l, Peek(rest))
    ensures Continue(l, e, rest) == Ok(e, rest)
  {
    if l < UNARY { assert StopsAt(l, Peek(rest)); }
  }

  lemma InfixStops(op: BinOp)
    ensures Stops(LevelOf(op) + 1, Spell(op))
  {
    forall k: nat | LevelOf(op) + 1 <= k < UNARY ensures StopsAt(k, Spell(op)) {
      SpellingsAreUnambiguous(op, k);
    }
  }

  lemma {:induction false} ArrayTypeStep(elem: Type, inside: Tokens, size: int, rest: Tokens)
    requires ParseType(inside) == Ok(elem, Cons(Semicolon, Cons(IntLit(size), Cons(RBracket, rest))))
    ensures ParseType(Cons(LBracket, inside)) == Ok(ArrayOf(elem, size), rest)
  {
    assert ParseArrayType(inside) == Ok(ArrayOf(elem, size), rest);
  }

  lemma {:induction false} ResultTypeStep(ok: Type, err: Type, inside: Tokens, second: Tokens, rest: Tokens)
    requires ParseType(inside) == Ok(ok, Cons(Comma, second)) && ParseType(second) == Ok(err, Cons(Gt, rest))
    ensures ParseType(Cons(Ident("Result"), Cons(Lt, inside))) == Ok(ResultOf(ok, err), rest)
  {
    assert ParseGeneric("Result", inside) == Ok(ResultOf(ok, err), rest);
    assert ParseNamedType("Result", Cons(Lt, inside)) == Ok(ResultOf(ok, err), rest);
  }

  lemma {:induction false} OptionTypeStep(inner: Type, inside: Tokens, rest: Tokens)
    requires ParseType(inside) == Ok(inner, Cons(Gt, rest))
    ensures ParseType(Cons(Ident("Option"), Cons(Lt, inside))) == Ok(OptionOf(inner), rest)
  {
    assert "Option" != "Result";
    assert ParseGeneric("Option", inside) == Ok(OptionOf(inner), rest);
    assert ParseNamedType("Option", Cons(Lt, inside)) == Ok(OptionOf(inner), rest);
  }

  lemma {:induction false} TypeRoundTrip(t: Type, rest: Tokens)
    requires !(t.Named? && Peek(rest) == Lt)
    ensures ParseType(PrintType(t, rest)) == Ok(t, rest)
    decreases t
  {
    match t
    case ArrayOf(elem, size) =>
      var after := Cons(Semicolon, Cons(IntLit(size), Cons(RBracket, rest)));
      TypeRoundTrip(elem, after);
      ArrayTypeStep(elem, PrintType(elem, after), size, rest);
    case ResultOf(ok, err) =>
      var second := PrintType(err, Cons(Gt, rest));
      TypeRoundTrip(ok, Cons(Comma, second));
      TypeRoundTrip(err, Cons(Gt, rest));
      ResultTypeStep(ok, err, PrintType(ok, Cons(Comma, second)), second, rest);
    case OptionOf(inner) =>
      TypeRoundTrip(inner, Cons(Gt, rest));
      OptionTypeStep(inner, PrintType(inner, Cons(Gt, rest)), rest);
    case Named(name) => assert ParseNamedType(name, rest) == Ok(t, rest);
    case _ =>
  }

  /** What a printed operand can begin with. */
  lemma {:induction false} FirstToken(e: Expr, l: nat, rest: Tokens)
    requires l <= PRIMARY
    ensures Peek(Print(e, l, rest)) !in {RParen, RBracket, Eof}
    ensures l > UNARY ==> Peek(Print(e, l, rest)) !in {Not, Minus, Tilde}
    decreases e
  {
    if l <= Prec(e) {
      match e
      case Binary(op, x, y) => FirstToken(x, LevelOf(op), Cons(Spell(op), Print(y, LevelOf(op) + 1, rest)));
      case Cast(x, t) => FirstToken(x, CAST, Cons(As, PrintType(t, rest)));
      case MethodCall(x, m, args) =>
        FirstToken(x, POSTFIX, Cons(Dot, Cons(Ident(m), Cons(LParen, PrintArgs(args, Cons(RParen, rest))))));
      case Field(x, f) => FirstToken(x, POSTFIX, Cons(Dot, Cons(Ident(f), rest)));
      case Index(x, i) => FirstToken(x, POSTFIX, Cons(LBracket, Print(i, 0, Cons(RBracket, rest))));
      case _ =>
    }
  }

  lemma {:induction false} LadderStep(l: nat, ts: Tokens, x: Expr, rest: Tokens)
    requires l < PRIMARY && (l == UNARY ==> Peek(ts) !in {Not, Minus, Tilde})
    requires ParseLevel(l + 1, ts) == Ok(x, rest)
    ensures ParseLevel(l, ts) == Continue(l, x, rest)
  {}

  /** From a tight level of the ladder down to a looser one, no loop going on from
      level `low` up. */
  lemma {:induction false} Climb(ts: Tokens, from: nat, low: nat, l: nat, e: Expr, rest: Tokens)
    requires low <= l <= from <= PRIMARY && ParseLevel(from, ts) == Ok(e, rest)
    requires Stops(low, Peek(rest)) && (from > UNARY ==> Peek(ts) !in {Not, Minus, Tilde})
    ensures ParseLevel(l, ts) == Ok(e, rest)
    decreases from - l
  {
    if l < from {
      Climb(ts, from, low, l + 1, e, rest);
      StopStep(low, l, ts, e, rest);
    }
  }

  lemma {:induction false} StopStep(low: nat, l: nat, ts: Tokens, e: Expr, rest: Tokens)
    requires low <= l < PRIMARY && (l == UNARY ==> Peek(ts) !in {Not, Minus, Tilde})
    requires ParseLevel(l + 1, ts) == Ok(e, rest) && Stops(low, Peek(rest))
    ensures ParseLevel(l, ts) == Ok(e, rest)
  {
    StopsTighter(low, l, Peek(rest));
    LadderStep(l, ts, e, rest);
    StopsHere(l, e, rest);
  }

  /** The last level may have its loop go on. */
  lemma {:induction false} ClimbTo(ts: Tokens, from: nat, l: nat, e: Expr, rest: Tokens)
    requires l < from <= PRIMARY && ParseLevel(from, ts) == Ok(e, rest)
    requires Stops(l + 1, Peek(rest)) && (from > UNARY ==> Peek(ts) !in {Not, Minus, Tilde})
    ensures ParseLevel(l, ts) == Continue(l, e, rest)
  {
    Climb(ts, from, l + 1, l + 1, e, rest);
    LadderStep(l, ts, e, rest);
  }

  /** The heart of the round trip. Read at level `l`, a printed expression leaves
      that level's loop to go on from it, whatever follows that tighter levels
      would not take. */
  lemma {:induction false} ReadsBack(e: Expr, l: nat, rest: Tokens)
    requires Fits(e, l, Peek(rest) == Lt) && l <= PRIMARY && Stops(l + 1, Peek(rest))
    ensures ParseLevel(l, Print(e, l, rest)) == Continue(l, e, rest)
    decreases e, if Prec(e) < l then 1 else 0, 3
  {
    if l <= Prec(e) {
      StopsTighter(l + 1, Prec(e) + 1, Peek(rest));
      ReadsBackHere(e, rest);
      ClimbFromHere(e, l, rest);
    } else {
      ClosersStop(RParen);
      ReadsBackWhole(e, 0, Cons(RParen, rest));
      ClimbFromParens(e, l, rest);
    }
  }

  lemma ClimbFromHere(e: Expr, l: nat, rest: Tokens)
    requires l <= Prec(e) && Stops(l + 1, Peek(rest))
    requires ParseLevel(Prec(e), Body(e, rest)) == Continue(Prec(e), e, rest)
    ensures ParseLevel(l, Print(e, l, rest)) == Continue(l, e, rest)
  {
    FirstToken(e, Prec(e), rest);
    assert Print(e, l, rest) == Print(e, Prec(e), rest) == Body(e, rest);
    if l < Prec(e) {
      StopsTighter(l + 1, Prec(e), Peek(rest));
      StopsHere(Prec(e), e, rest);
      ClimbTo(Print(e, l, rest), Prec(e), l, e, rest);
    }
  }

  lemma ClimbFromParens(e: Expr, l: nat, rest: Tokens)
    requires Prec(e) < l <= PRIMARY && Stops(l + 1, Peek(rest))
    requires ParseLevel(0, Print(e, 0, Cons(RParen, rest))) == Ok(e, Cons(RParen, rest))
    ensures ParseLevel(l, Print(e, l, rest)) == Continue(l, e, rest)
  {
    Parenthesised(e, rest);
    assert Print(e, l, rest) == Print(e, PRIMARY, rest);
    if l < PRIMARY { ClimbTo(Print(e, l, rest), PRIMARY, l, e, rest); }
  }

  lemma Parenthesised(e: Expr, rest: Tokens)
    requires Prec(e) < PRIMARY
    requires ParseLevel(0, Print(e, 0, Cons(RParen, rest))) == Ok(e, Cons(RParen, rest))
    ensures ParseLevel(PRIMARY, Print(e, PRIMARY, rest)) == Continue(PRIMARY, e, rest)
  {
    FirstToken(e, 0, Cons(RParen, rest));
    ParenStep(Print(e, 0, Cons(RParen, rest)), e, rest);
  }

  lemma {:induction false} ParenStep(inside: Tokens, e: Expr, rest: Tokens)
    requires ParseLevel(0, inside) == Ok(e, Cons(RParen, rest)) && Peek(inside) != RParen
    ensures ParsePrimary(Cons(LParen, inside)) == Ok(e, rest)
  {
    assert ParseParenthesised(inside) == Ok(e, rest);
  }

  /** The same where this level's loop stops as well. */
  lemma {:induction false} ReadsBackWhole(e: Expr, l: nat, rest: Tokens)
    requires Fits(e, l, Peek(rest) == Lt) && l <= PRIMARY && Stops(l, Peek(rest))
    ensures ParseLevel(l, Print(e, l, rest)) == Ok(e, rest)
    decreases e, if Prec(e) < l then 1 else 0, 4
  {
    StopsTighter(l, l + 1, Peek(rest));
    ReadsBack(e, l, rest);
    StopsHere(l, e, rest);
  }

  /** At its own level, by the kind of expression. */
  lemma {:induction false} ReadsBackHere(e: Expr, rest: Tokens)
    requires FitsBody(e, Peek(rest) == Lt) && Stops(Prec(e) + 1, Peek(rest))
    ensures ParseLevel(Prec(e), Body(e, rest)) == Continue(Prec(e), e, rest)
    decreases e, 0, 2
  {
    if Prec(e) < UNARY || Prec(e) == CAST {
      LooseReadsBack(e, rest);
    } else if Prec(e) == POSTFIX {
      PostfixReadsBack(e, rest);
    } else {
      TightReadsBack(e, rest);
    }
  }

  lemma {:induction false} LooseReadsBack(e: Expr, rest: Tokens)
    requires FitsBody(e, Peek(rest) == Lt) && (e.Binary? || e.Cast?) && Stops(Prec(e) + 1, Peek(rest))
    ensures ParseLevel(Prec(e), Body(e, rest)) == Continue(Prec(e), e, rest)
    decreases e, 0, 1
  {
    match e
    case Binary(op, x, y) => BinaryReadsBack(op, x, y, rest);
    case Cast(x, t) => CastReadsBack(x, t, rest);
  }

  lemma {:induction false} PostfixReadsBack(e: Expr, rest: Tokens)
    requires FitsBody(e, Peek(rest) == Lt) && Prec(e) == POSTFIX && Peek(rest) != LParen
    ensures ParseLevel(POSTFIX, Body(e, rest)) == Continue(POSTFIX, e, rest)
    decreases e, 0, 1
  {
    match e
    case MethodCall(x, m, args) => MethodReadsBack(x, m, args, rest);
    case Field(x, f) => FieldReadsBack(x, f, rest);
    case Index(x, i) => IndexReadsBack(x, i, rest);
  }

  lemma {:induction false} TightReadsBack(e: Expr, rest: Tokens)
    requires FitsBody(e, Peek(rest) == Lt) && (Prec(e) == UNARY || Prec(e) == PRIMARY) && Stops(Prec(e) + 1, Peek(rest))
    requires e.Unary? ==> Stops(UNARY, Peek(rest))
    ensures ParseLevel(Prec(e), Body(e, rest)) == Continue(Prec(e), e, rest)
    decreases e, 0, 1
  {
    match e
    case Unary(op, x) =>
      ReadsBackWhole(x, UNARY, rest);
      UnaryStep(op, Print(x, UNARY, rest), x, rest);
    case Call(f, args) =>
      ArgsReadBack(args, RParen, rest);
      CallStep(f, PrintArgs(args, Cons(RParen, rest)), args, rest);
    case ArrayInit(es) =>
      ArgsReadBack(es, RBracket, rest);
      ArrayStep(PrintArgs(es, Cons(RBracket, rest)), es, rest);
    case _ => AtomStep(e, rest);
  }

  lemma {:induction false} UnaryStep(op: UnOp, inside: Tokens, x: Expr, rest: Tokens)
    requires ParseLevel(UNARY, inside) == Ok(x, rest)
    ensures ParseLevel(UNARY, Cons(SpellUnary(op), inside)) == Continue(UNARY, Unary(op, x), rest)
  {}

  lemma {:induction false} BinaryReadsBack(op: BinOp, x: Expr, y: Expr, rest: Tokens)
    requires FitsBody(Binary(op, x, y), Peek(rest) == Lt) && Stops(LevelOf(op) + 1, Peek(rest))
    ensures ParseLevel(LevelOf(op), Print(x, LevelOf(op), Cons(Spell(op), Print(y, LevelOf(op) + 1, rest))))
            == Continue(LevelOf(op), Binary(op, x, y), rest)
    decreases Binary(op, x, y), 0, 0
  {
    var right := Print(y, LevelOf(op) + 1, rest);
    InfixStops(op);
    ReadsBack(x, LevelOf(op), Cons(Spell(op), right));
    ReadsBackWhole(y, LevelOf(op) + 1, rest);
    BinaryStep(op, x, y, right, rest);
  }

  lemma {:induction false} BinaryStep(op: BinOp, x: Expr, y: Expr, right: Tokens, rest: Tokens)
    requires ParseLevel(LevelOf(op) + 1, right) == Ok(y, rest)
    ensures Continue(LevelOf(op), x, Cons(Spell(op), right)) == Continue(LevelOf(op), Binary(op, x, y), rest)
  {
    SpellingsAreUnambiguous(op, LevelOf(op));
  }

  lemma {:induction false} CastReadsBack(x: Expr, t: Type, rest: Tokens)
    requires FitsBody(Cast(x, t), Peek(rest) == Lt) && Stops(CAST + 1, Peek(rest))
    ensures ParseLevel(CAST, Print(x, CAST, Cons(As, PrintType(t, rest)))) == Continue(CAST, Cast(x, t), rest)
    decreases Cast(x, t), 0, 0
  {
    var after := Cons(As, PrintType(t, rest));
    ReadsBack(x, CAST, after);
    TypeRoundTrip(t, rest);
    CastLoop(x, PrintType(t, rest), t, rest);
  }

  lemma {:induction false} CastLoop(x: Expr, inside: Tokens, t: Type, rest: Tokens)
    requires ParseType(inside) == Ok(t, rest)
    ensures Continue(CAST, x, Cons(As, inside)) == Continue(CAST, Cast(x, t), rest)
  {}

  lemma {:induction false} CallStep(f: string, inside: Tokens, args: seq<Expr>, rest: Tokens)
    requires ParseArgs(inside, RParen) == Ok(args, Cons(RParen, rest))
    ensures ParsePrimary(Cons(Ident(f), Cons(LParen, inside))) == Ok(Call(f, args), rest)
  {
    assert ParseNamed(f, Cons(LParen, inside)) == Ok(Call(f, args), rest);
  }

  lemma {:induction false} ArrayStep(inside: Tokens, es: seq<Expr>, rest: Tokens)
    requires ParseArgs(inside, RBracket) == Ok(es, Cons(RBracket, rest))
    ensures ParsePrimary(Cons(LBracket, inside)) == Ok(ArrayInit(es), rest)
  {
    assert ParseArray(inside) == Ok(ArrayInit(es), rest);
  }

  /** Names and literals, where no call or path follows. */
  lemma {:induction false} AtomStep(e: Expr, rest: Tokens)
    requires e.IntE? || e.FixedE? || e.StringE? || e.BoolE? || e.UnitE? || e.Var?
    requires Peek(rest) != LParen && Peek(rest) != ColonColon
    ensures ParsePrimary(Body(e, rest)) == Ok(e, rest)
  {
    if e.Var? { assert ParseNamed(e.name, rest) == Ok(e, rest); }
    if e.UnitE? { assert ParseParenthesised(Cons(RParen, rest)) == Ok(e, rest); }
  }

  lemma {:induction false} FieldReadsBack(x: Expr, f: string, rest: Tokens)
    requires Fits(x, POSTFIX, false) && Peek(rest) != LParen
    ensures ParseLevel(POSTFIX, Print(x, POSTFIX, Cons(Dot, Cons(Ident(f), rest)))) == Continue(POSTFIX, Field(x, f), rest)
    decreases Field(x, f), 0, 0
  {
    var after := Cons(Dot, Cons(Ident(f), rest));
    ReadsBack(x, POSTFIX, after);
    FieldStep(x, f, rest);
  }

  lemma {:induction false} MethodReadsBack(x: Expr, m: string, args: seq<Expr>, rest: Tokens)
    requires FitsBody(MethodCall(x, m, args), false)
    ensures ParseLevel(POSTFIX, Print(x, POSTFIX, Cons(Dot, Cons(Ident(m), Cons(LParen, PrintArgs(args, Cons(RParen, rest)))))))
            == Continue(POSTFIX, MethodCall(x, m, args), rest)
    decreases MethodCall(x, m, args), 0, 0
  {
    var inside := PrintArgs(args, Cons(RParen, rest));
    var after := Cons(Dot, Cons(Ident(m), Cons(LParen, inside)));
    ReadsBack(x, POSTFIX, after);
    ArgsReadBack(args, RParen, rest);
    MethodStep(x, m, args, inside, rest);
  }

  lemma {:induction false} IndexReadsBack(x: Expr, i: Expr, rest: Tokens)
    requires FitsBody(Index(x, i), false)
    ensures ParseLevel(POSTFIX, Print(x, POSTFIX, Cons(LBracket, Print(i, 0, Cons(RBracket, rest))))) == Continue(POSTFIX, Index(x, i), rest)
    decreases Index(x, i), 0, 0
  {
    var inside := Print(i, 0, Cons(RBracket, rest));
    ReadsBack(x, POSTFIX, Cons(LBracket, inside));
    ClosersStop(RBracket);
    ReadsBackWhole(i, 0, Cons(RBracket, rest));
    IndexStep(x, i, inside, rest);
  }

  lemma {:induction false} FieldStep(x: Expr, f: string, rest: Tokens)
    requires Peek(rest) != LParen
    ensures Continue(POSTFIX, x, Cons(Dot, Cons(Ident(f), rest))) == Continue(POSTFIX, Field(x, f), rest)
  {
    assert ParseMember(x, Cons(Dot, Cons(Ident(f), rest))) == Ok(Field(x, f), rest);
  }

  lemma {:induction false} MethodStep(x: Expr, m: string, args: seq<Expr>, inside: Tokens, rest: Tokens)
    requires ParseArgs(inside, RParen) == Ok(args, Cons(RParen, rest))
    ensures Continue(POSTFIX, x, Cons(Dot, Cons(Ident(m), Cons(LParen, inside)))) == Continue(POSTFIX, MethodCall(x, m, args), rest)
  {
    assert ParseMember(x, Cons(Dot, Cons(Ident(m), Cons(LParen, inside)))) == Ok(MethodCall(x, m, args), rest);
  }

  lemma {:induction false} IndexStep(x: Expr, i: Expr, inside: Tokens, rest: Tokens)
    requires ParseLevel(0, inside) == Ok(i, Cons(RBracket, rest))
    ensures Continue(POSTFIX, x, Cons(LBracket, inside)) == Continue(POSTFIX, Index(x, i), rest)
  {
    assert ParseSubscript(x, Cons(LBracket, inside)) == Ok(Index(x, i), rest);
  }

  ghost predicate AllFit(es: seq<Expr>) {
    forall e :: e in es ==> Fits(e, 0, false)
  }

  lemma FirstAndRest(es: seq<Expr>)
    requires es != [] && AllFit(es)
    ensures Fits(es[0], 0, false) && AllFit(es[1..])
    ensures es == [es[0]] + es[1..] && (|es| == 1 ==> es == [es[0]])
  {}

  lemma {:induction false} ArgsReadBack(es: seq<Expr>, close: Token, rest: Tokens)
    requires close in {RParen, RBracket} && AllFit(es)
    ensures ParseArgs(PrintArgs(es, Cons(close, rest)), close) == Ok(es, Cons(close, rest))
    decreases es, 1
  {
    if es != [] {
      FirstAndRest(es);
      if |es| == 1 { OneArgReadsBack(es[0], close, rest); } else { MoreArgsReadBack(es, close, rest); }
    }
  }

  lemma {:induction false} OneArgReadsBack(e: Expr, close: Token, rest: Tokens)
    requires close in {RParen, RBracket} && Fits(e, 0, false)
    ensures ParseArgs(Print(e, 0, Cons(close, rest)), close) == Ok([e], Cons(close, rest))
    decreases e, 4
  {
    ClosersStop(close);
    ReadsBackWhole(e, 0, Cons(close, rest));
    FirstToken(e, 0, Cons(close, rest));
  }

  lemma {:induction false} MoreArgsReadBack(es: seq<Expr>, close: Token, rest: Tokens)
    requires close in {RParen, RBracket} && |es| > 1 && Fits(es[0], 0, false) && AllFit(es[1..])
    ensures ParseArgs(PrintArgs(es, Cons(close, rest)), close) == Ok([es[0]] + es[1..], Cons(close, rest))
    decreases es, 0
  {
    var more := PrintArgs(es[1..], Cons(close, rest));
    ClosersStop(Comma);
    ReadsBackWhole(es[0], 0, Cons(Comma, more));
    FirstToken(es[0], 0, Cons(Comma, more));
    ArgsReadBack(es[1..], close, rest);
    ArgsStep(es[0], es[1..], Print(es[0], 0, Cons(Comma, more)), more, close, Cons(close, rest));
  }

  lemma ArgsStep(e: Expr, es: seq<Expr>, first: Tokens, more: Tokens, close: Token, tail: Tokens)
    requires close in {RParen, RBracket} && Peek(first) != close
    requires ParseLevel(0, first) == Ok(e, Cons(Comma, more)) && ParseArgs(more, close) == Ok(es, tail)
    ensures ParseArgs(first, close) == Ok([e] + es, tail)
  {
    assert Expect(Cons(Comma, more), Comma) == Ok((), more);
  }

  /** Every expression that fits, printed and parsed, is the same expression, with all
      its tokens read. */
  lemma RoundTrip(e: Expr)
    requires Fits(e, 0, false)
    ensures ParseExpr(Print(e, 0, Nil)) == Ok(e, Nil)
  {
    ClosersStop(Eof);
    ReadsBackWhole(e, 0, Nil);
  }
}
