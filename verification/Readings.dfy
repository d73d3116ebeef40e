/**
 What a successful parse says about the tokens it read: they are at least as many
 as the minimal print of the result, and if they are exactly as many, they are that
 print, and no cast in it to a bare named type is followed by `<`. So printing and
 parsing give back exactly the expressions that fit.
 */
module Readings {
  import opened Syntax
  import opened Grammar
  import opened Printer

  // ------------------------------------------------------------------- widths

  function WidthType(t: Type): nat {
    match t
    case ArrayOf(elem, _) => WidthType(elem) + 4
    case ResultOf(ok, err) => WidthType(ok) + WidthType(err) + 4
    case OptionOf(inner) => WidthType(inner) + 3
    case UnitType => 2
    case _ => 1
  }

  /** How many tokens an expression prints to, as an operand of level `l`. */
  function Width(e: Expr, l: nat): nat
    decreases e, 2
  {
    WidthBody(e) + if Prec(e) < l then 2 else 0
  }

  function WidthBody(e: Expr): nat
    decreases e, 1
  {
    match e
    case UnitE => 2
    case Binary(op, x, y) => Width(x, LevelOf(op)) + 1 + Width(y, LevelOf(op) + 1)
    case Unary(_, x) => 1 + Width(x, UNARY)
    case Cast(x, t) => Width(x, CAST) + 1 + WidthType(t)
    case Call(_, args) => WidthArgs(args) + 3
    case MethodCall(x, _, args) => Width(x, POSTFIX) + WidthArgs(args) + 4
    case Field(x, _) => Width(x, POSTFIX) + 2
    case Index(x, i) => Width(x, POSTFIX) + Width(i, 0) + 2
    case ArrayInit(es) => WidthArgs(es) + 2
    case _ => 1
  }

  function WidthArgs(es: seq<Expr>): nat
    decreases es, 0
  {
    if es == [] then 0
    else if |es| == 1 then Width(es[0], 0)
    else Width(es[0], 0) + 1 + WidthArgs(es[1..])
  }

  lemma LenOf2(a: Token, b: Token, rest: Tokens)
    ensures Len(Cons(a, Cons(b, rest))) == 2 + Len(rest)
  {
    assert Len(Cons(b, rest)) == 1 + Len(rest);
  }

  lemma LenOf3(a: Token, b: Token, c: Token, rest: Tokens)
    ensures Len(Cons(a, Cons(b, Cons(c, rest)))) == 3 + Len(rest)
  {
    LenOf2(b, c, rest);
  }

  lemma {:induction false} PrintTypeLen(t: Type, rest: Tokens)
    ensures Len(PrintType(t, rest)) == WidthType(t) + Len(rest)
    decreases t
  {
    match t
    case ArrayOf(elem, size) =>
      LenOf3(Semicolon, IntLit(size), RBracket, rest);
      PrintTypeLen(elem, Cons(Semicolon, Cons(IntLit(size), Cons(RBracket, rest))));
    case ResultOf(ok, err) =>
      PrintTypeLen(err, Cons(Gt, rest));
      PrintTypeLen(ok, Cons(Comma, PrintType(err, Cons(Gt, rest))));
    case OptionOf(inner) => PrintTypeLen(inner, Cons(Gt, rest));
    case _ =>
  }

  lemma {:induction false} PrintLen(e: Expr, l: nat, rest: Tokens)
    ensures Len(Print(e, l, rest)) == Width(e, l) + Len(rest)
    decreases e, 2
  {
    BodyLen(e, if Prec(e) < l then Cons(RParen, rest) else rest);
  }

  lemma {:induction false} BodyLen(e: Expr, rest: Tokens)
    ensures Len(Body(e, rest)) == WidthBody(e) + Len(rest)
    decreases e, 1
  {
    if Prec(e) <= CAST { LooseLen(e, rest); } else if Prec(e) == POSTFIX { PostfixLen(e, rest); } else { PrimaryLen(e, rest); }
  }

  lemma {:induction false} LooseLen(e: Expr, rest: Tokens)
    requires Prec(e) <= CAST
    ensures Len(Body(e, rest)) == WidthBody(e) + Len(rest)
    decreases e, 0
  {
    match e
    case Binary(op, x, y) =>
      PrintLen(y, LevelOf(op) + 1, rest);
      PrintLen(x, LevelOf(op), Cons(Spell(op), Print(y, LevelOf(op) + 1, rest)));
    case Unary(_, x) => PrintLen(x, UNARY, rest);
    case Cast(x, t) =>
      PrintTypeLen(t, rest);
      PrintLen(x, CAST, Cons(As, PrintType(t, rest)));
  }

  lemma {:induction false} PostfixLen(e: Expr, rest: Tokens)
    requires Prec(e) == POSTFIX
    ensures Len(Body(e, rest)) == WidthBody(e) + Len(rest)
    decreases e, 0
  {
    match e
    case MethodCall(x, m, args) =>
      var inside := PrintArgs(args, Cons(RParen, rest));
      ArgsLen(args, Cons(RParen, rest));
      LenOf3(Dot, Ident(m), LParen, inside);
      PrintLen(x, POSTFIX, Cons(Dot, Cons(Ident(m), Cons(LParen, inside))));
    case Field(x, f) =>
      LenOf2(Dot, Ident(f), rest);
      PrintLen(x, POSTFIX, Cons(Dot, Cons(Ident(f), rest)));
    case Index(x, i) =>
      PrintLen(i, 0, Cons(RBracket, rest));
      PrintLen(x, POSTFIX, Cons(LBracket, Print(i, 0, Cons(RBracket, rest))));
  }

  lemma {:induction false} PrimaryLen(e: Expr, rest: Tokens)
    requires Prec(e) == PRIMARY
    ensures Len(Body(e, rest)) == WidthBody(e) + Len(rest)
    decreases e, 0
  {
    match e
    case Call(f, args) =>
      ArgsLen(args, Cons(RParen, rest));
      LenOf2(Ident(f), LParen, PrintArgs(args, Cons(RParen, rest)));
    case ArrayInit(es) => ArgsLen(es, Cons(RBracket, rest));
    case UnitE => LenOf2(LParen, RParen, rest);
    case _ =>
  }

  lemma {:induction false} ArgsLen(es: seq<Expr>, rest: Tokens)
    ensures Len(PrintArgs(es, rest)) == WidthArgs(es) + Len(rest)
    decreases es, 0
  {
    if |es| == 1 {
      PrintLen(es[0], 0, rest);
    } else if es != [] {
      ArgsLen(es[1..], rest);
      PrintLen(es[0], 0, Cons(Comma, PrintArgs(es[1..], rest)));
    }
  }

  // -------------------------------------------------------------------- types

  /** `t` was read from `ts` up to `rest`: from more tokens than it prints to, or from
      its print. */
  ghost predicate ReadsType(t: Type, ts: Tokens, rest: Tokens) {
    && Len(ts) >= Len(rest) + WidthType(t)
    && (Len(ts) == Len(rest) + WidthType(t) ==> ts == PrintType(t, rest) && !(t.Named? && Peek(rest) == Lt))
  }

  lemma {:induction false} TypeReads(ts: Tokens)
    requires ParseType(ts).Ok?
    ensures ReadsType(ParseType(ts).value, ts, ParseType(ts).rest)
    decreases Len(ts), 1
  {
    match Peek(ts)
    case LBracket =>
      Headed(ts, LBracket);
      ArrayReads(Tail(ts));
    case Ident(name) =>
      Headed(ts, Ident(name));
      NameReads(name, Tail(ts));
    case _ => PlainReads(ts);
  }

  lemma PlainReads(ts: Tokens)
    requires Peek(ts) != LBracket && !Peek(ts).Ident? && ParseType(ts).Ok?
    ensures ReadsType(ParseType(ts).value, ts, ParseType(ts).rest)
  {}

  lemma {:induction false} NameReads(name: string, ts: Tokens)
    requires ParseNamedType(name, ts).Ok?
    ensures ReadsType(ParseNamedType(name, ts).value, Cons(Ident(name), ts), ParseNamedType(name, ts).rest)
    decreases Len(ts), 2
  {
    if Peek(ts) == Lt {
      Headed(ts, Lt);
      GenericReads(name, Tail(ts));
    }
  }

  lemma {:induction false} ArrayReads(ts: Tokens)
    requires ParseArrayType(ts).Ok?
    ensures ReadsType(ParseArrayType(ts).value, Cons(LBracket, ts), ParseArrayType(ts).rest)
    decreases Len(ts), 2
  {
    var elem := ParseType(ts);
    var whole := ParseArrayType(ts);
    TypeReads(ts);
    Headed(elem.rest, Semicolon);
    Headed(Tail(elem.rest), IntLit(whole.value.size));
    Headed(Tail(Tail(elem.rest)), RBracket);
    ArrayRead(elem.value, whole.value.size, ts, whole.rest);
  }

  lemma ArrayRead(elem: Type, size: int, inside: Tokens, rest: Tokens)
    requires ReadsType(elem, inside, Cons(Semicolon, Cons(IntLit(size), Cons(RBracket, rest))))
    ensures ReadsType(ArrayOf(elem, size), Cons(LBracket, inside), rest)
  {
    LenOf3(Semicolon, IntLit(size), RBracket, rest);
  }

  lemma {:induction false} GenericReads(name: string, ts: Tokens)
    requires ParseGeneric(name, ts).Ok?
    ensures ReadsType(ParseGeneric(name, ts).value, Cons(Ident(name), Cons(Lt, ts)), ParseGeneric(name, ts).rest)
    decreases Len(ts), 2
  {
    TypeReads(ts);
    LenOf2(Ident(name), Lt, ts);
    var first := ParseType(ts);
    if name == "Result" {
      TypeReads(Tail(first.rest));
      assert first.rest == Cons(Comma, Tail(first.rest));
      var second := ParseType(Tail(first.rest));
      assert second.rest == Cons(Gt, Tail(second.rest));
    } else if name == "Option" {
      assert first.rest == Cons(Gt, Tail(first.rest));
    }
  }

  // -------------------------------------------------------------- expressions

  /** The same for an expression read at level `l`. */
  ghost predicate Reads(e: Expr, l: nat, ts: Tokens, rest: Tokens) {
    && Len(ts) >= Len(rest) + Width(e, l)
    && (Len(ts) == Len(rest) + Width(e, l) ==> ts == Print(e, l, rest) && Fits(e, l, Peek(rest) == Lt))
  }

  ghost predicate ReadsArgs(es: seq<Expr>, ts: Tokens, rest: Tokens) {
    && Len(ts) >= Len(rest) + WidthArgs(es)
    && (Len(ts) == Len(rest) + WidthArgs(es) ==> ts == PrintArgs(es, rest) && forall a :: a in es ==> Fits(a, 0, false))
  }

  /** Read at a level, it is read at the next looser one. */
  lemma Looser(e: Expr, l: nat, ts: Tokens, rest: Tokens)
    requires Reads(e, l + 1, ts, rest)
    ensures Reads(e, l, ts, rest)
  {}

  lemma BinaryRead(op: BinOp, x: Expr, y: Expr, ts: Tokens, after: Tokens, rest: Tokens)
    requires Reads(x, LevelOf(op), ts, Cons(Spell(op), after)) && Reads(y, LevelOf(op) + 1, after, rest)
    ensures Reads(Binary(op, x, y), LevelOf(op), ts, rest)
  {
    assert Spell(op) == Lt <==> op == LtOp;
  }

  lemma UnaryRead(op: UnOp, x: Expr, after: Tokens, rest: Tokens)
    requires Reads(x, UNARY, after, rest)
    ensures Reads(Unary(op, x), UNARY, Cons(SpellUnary(op), after), rest)
  {}

  lemma CastRead(x: Expr, t: Type, ts: Tokens, after: Tokens, rest: Tokens)
    requires Reads(x, CAST, ts, Cons(As, after)) && ReadsType(t, after, rest)
    ensures Reads(Cast(x, t), CAST, ts, rest)
  {}

  lemma FieldRead(x: Expr, f: string, ts: Tokens, rest: Tokens)
    requires Reads(x, POSTFIX, ts, Cons(Dot, Cons(Ident(f), rest)))
    ensures Reads(Field(x, f), POSTFIX, ts, rest)
  {
    LenOf2(Dot, Ident(f), rest);
  }

  lemma MethodRead(x: Expr, m: string, args: seq<Expr>, ts: Tokens, inside: Tokens, rest: Tokens)
    requires Reads(x, POSTFIX, ts, Cons(Dot, Cons(Ident(m), Cons(LParen, inside)))) && ReadsArgs(args, inside, Cons(RParen, rest))
    ensures Reads(MethodCall(x, m, args), POSTFIX, ts, rest)
  {
    LenOf3(Dot, Ident(m), LParen, inside);
  }

  lemma IndexRead(x: Expr, i: Expr, ts: Tokens, inside: Tokens, rest: Tokens)
    requires Reads(x, POSTFIX, ts, Cons(LBracket, inside)) && Reads(i, 0, inside, Cons(RBracket, rest))
    ensures Reads(Index(x, i), POSTFIX, ts, rest)
  {}

  lemma CallRead(f: string, args: seq<Expr>, inside: Tokens, rest: Tokens)
    requires ReadsArgs(args, inside, Cons(RParen, rest))
    ensures Reads(Call(f, args), PRIMARY, Cons(Ident(f), Cons(LParen, inside)), rest)
  {
    LenOf2(Ident(f), LParen, inside);
  }

  lemma ArrayInitRead(es: seq<Expr>, inside: Tokens, rest: Tokens)
    requires ReadsArgs(es, inside, Cons(RBracket, rest))
    ensures Reads(ArrayInit(es), PRIMARY, Cons(LBracket, inside), rest)
  {}

  /** Parentheses: those the printer would put, or more. */
  lemma ParenRead(e: Expr, inside: Tokens, rest: Tokens)
    requires Reads(e, 0, inside, Cons(RParen, rest))
    ensures Reads(e, PRIMARY, Cons(LParen, inside), rest)
  {}

  lemma Headed(ts: Tokens, t: Token)
    requires Peek(ts) == t && t != Eof
    ensures ts == Cons(t, Tail(ts))
  {}

  lemma {:induction false} LevelReads(l: nat, ts: Tokens)
    requires l <= PRIMARY && ParseLevel(l, ts).Ok?
    ensures Reads(ParseLevel(l, ts).value, l, ts, ParseLevel(l, ts).rest)
    decreases Len(ts), 2 + PRIMARY - l
  {
    if l == PRIMARY {
      PrimaryReads(ts);
    } else if l == UNARY && Peek(ts) in {Not, Minus, Tilde} {
      LevelReads(UNARY, Tail(ts));
      var x := ParseLevel(UNARY, Tail(ts));
      Headed(ts, Peek(ts));
      UnaryRead(if Peek(ts) == Not then LogNot else if Peek(ts) == Minus then Neg else BitNot, x.value, Tail(ts), x.rest);
    } else {
      LevelReads(l + 1, ts);
      var x := ParseLevel(l + 1, ts);
      Looser(x.value, l, ts, x.rest);
      ContinueReads(l, x.value, ts, x.rest);
    }
  }

  /** A loop goes on from what it has read so far, which began at `from`. */
  lemma {:induction false} ContinueReads(l: nat, left: Expr, from: Tokens, ts: Tokens)
    requires l <= PRIMARY && Reads(left, l, from, ts) && Continue(l, left, ts).Ok?
    ensures Reads(Continue(l, left, ts).value, l, from, Continue(l, left, ts).rest)
    decreases Len(ts), 2
  {
    if l < UNARY {
      if OpAt(l, Peek(ts)).Op? { OperatorReads(l, left, from, ts); }
    } else if l == CAST && Peek(ts) == As {
      CastReads(left, from, ts);
    } else if l == POSTFIX && Peek(ts) in {Dot, LBracket} {
      PostfixReads(left, from, ts);
    }
  }

  lemma {:induction false} OperatorReads(l: nat, left: Expr, from: Tokens, ts: Tokens)
    requires l < UNARY && OpAt(l, Peek(ts)).Op? && Reads(left, l, from, ts) && Continue(l, left, ts).Ok?
    ensures Reads(Continue(l, left, ts).value, l, from, Continue(l, left, ts).rest)
    decreases Len(ts), 0
  {
    var op := OpAt(l, Peek(ts)).op;
    SpelledAt(l, Peek(ts));
    Headed(ts, Spell(op));
    LevelReads(l + 1, Tail(ts));
    var right := ParseLevel(l + 1, Tail(ts));
    BinaryRead(op, left, right.value, from, Tail(ts), right.rest);
    ContinueReads(l, Binary(op, left, right.value), from, right.rest);
  }

  lemma {:induction false} CastReads(left: Expr, from: Tokens, ts: Tokens)
    requires Peek(ts) == As && Reads(left, CAST, from, ts) && Continue(CAST, left, ts).Ok?
    ensures Reads(Continue(CAST, left, ts).value, CAST, from, Continue(CAST, left, ts).rest)
    decreases Len(ts), 0
  {
    Headed(ts, As);
    TypeReads(Tail(ts));
    var ty := ParseType(Tail(ts));
    CastRead(left, ty.value, from, Tail(ts), ty.rest);
    ContinueReads(CAST, Cast(left, ty.value), from, ty.rest);
  }

  lemma {:induction false} PostfixReads(left: Expr, from: Tokens, ts: Tokens)
    requires Peek(ts) in {Dot, LBracket} && Reads(left, POSTFIX, from, ts) && Continue(POSTFIX, left, ts).Ok?
    ensures Reads(Continue(POSTFIX, left, ts).value, POSTFIX, from, Continue(POSTFIX, left, ts).rest)
    decreases Len(ts), 1
  {
    if Peek(ts) == Dot {
      MemberReads(left, from, ts);
      var next := ParseMember(left, ts);
      ContinueReads(POSTFIX, next.value, from, next.rest);
    } else {
      SubscriptReads(left, from, ts);
      var next := ParseSubscript(left, ts);
      ContinueReads(POSTFIX, next.value, from, next.rest);
    }
  }

  lemma SpelledAt(l: nat, t: Token)
    requires OpAt(l, t).Op?
    ensures Spell(OpAt(l, t).op) == t && LevelOf(OpAt(l, t).op) == l
  {}

  lemma {:induction false} MemberReads(left: Expr, from: Tokens, ts: Tokens)
    requires Reads(left, POSTFIX, from, ts) && Peek(ts) == Dot && ParseMember(left, ts).Ok?
    ensures Reads(ParseMember(left, ts).value, POSTFIX, from, ParseMember(left, ts).rest)
    decreases Len(ts), 0
  {
    var name := Peek(Tail(ts)).name;
    Headed(ts, Dot);
    Headed(Tail(ts), Ident(name));
    if Peek(Tail(Tail(ts))) == LParen {
      Headed(Tail(Tail(ts)), LParen);
      var inside := Tail(Tail(Tail(ts)));
      ArgsRead(inside, RParen);
      var args := ParseArgs(inside, RParen);
      Headed(args.rest, RParen);
      MethodRead(left, name, args.value, from, inside, Tail(args.rest));
    } else {
      FieldRead(left, name, from, Tail(Tail(ts)));
    }
  }

  lemma {:induction false} SubscriptReads(left: Expr, from: Tokens, ts: Tokens)
    requires Reads(left, POSTFIX, from, ts) && Peek(ts) == LBracket && ParseSubscript(left, ts).Ok?
    ensures Reads(ParseSubscript(left, ts).value, POSTFIX, from, ParseSubscript(left, ts).rest)
    decreases Len(ts), 0
  {
    Headed(ts, LBracket);
    LevelReads(0, Tail(ts));
    var index := ParseLevel(0, Tail(ts));
    Headed(index.rest, RBracket);
    IndexRead(left, index.value, from, Tail(ts), Tail(index.rest));
  }

  lemma {:induction false} PrimaryReads(ts: Tokens)
    requires ParsePrimary(ts).Ok?
    ensures Reads(ParsePrimary(ts).value, PRIMARY, ts, ParsePrimary(ts).rest)
    decreases Len(ts), 1
  {
    match Peek(ts)
    case Ident(_) => VarOrCallReads(ts);
    case LParen => ParenthesisReads(ts);
    case LBracket =>
      ArgsRead(Tail(ts), RBracket);
      var es := ParseArgs(Tail(ts), RBracket);
      Headed(ts, LBracket);
      Headed(es.rest, RBracket);
      ArrayInitRead(es.value, Tail(ts), Tail(es.rest));
    case _ => LiteralReads(ts);
  }

  lemma LiteralReads(ts: Tokens)
    requires !Peek(ts).Ident? && Peek(ts) !in {LParen, LBracket} && ParsePrimary(ts).Ok?
    ensures Reads(ParsePrimary(ts).value, PRIMARY, ts, ParsePrimary(ts).rest)
  {}

  lemma {:induction false} VarOrCallReads(ts: Tokens)
    requires Peek(ts).Ident? && ParsePrimary(ts).Ok?
    ensures Reads(ParsePrimary(ts).value, PRIMARY, ts, ParsePrimary(ts).rest)
    decreases Len(ts), 0
  {
    var name := Peek(ts).name;
    Headed(ts, Ident(name));
    if Peek(Tail(ts)) == LParen {
      Headed(Tail(ts), LParen);
      var inside := Tail(Tail(ts));
      ArgsRead(inside, RParen);
      var args := ParseArgs(inside, RParen);
      Headed(args.rest, RParen);
      CallRead(name, args.value, inside, Tail(args.rest));
    }
  }

  lemma {:induction false} ParenthesisReads(ts: Tokens)
    requires Peek(ts) == LParen && ParsePrimary(ts).Ok?
    ensures Reads(ParsePrimary(ts).value, PRIMARY, ts, ParsePrimary(ts).rest)
    decreases Len(ts), 0
  {
    Headed(ts, LParen);
    if Peek(Tail(ts)) == RParen {
      Headed(Tail(ts), RParen);
    } else {
      LevelReads(0, Tail(ts));
      var e := ParseLevel(0, Tail(ts));
      Headed(e.rest, RParen);
      ParenRead(e.value, Tail(ts), Tail(e.rest));
    }
  }

  lemma {:induction false} ArgsRead(ts: Tokens, close: Token)
    requires close in {RParen, RBracket} && ParseArgs(ts, close).Ok?
    ensures ReadsArgs(ParseArgs(ts, close).value, ts, ParseArgs(ts, close).rest)
    decreases Len(ts), 20
  {
    if Peek(ts) != close {
      LevelReads(0, ts);
      var e := ParseLevel(0, ts);
      if Peek(e.rest) == close {
        OnlyArgument(e.value, ts, e.rest);
      } else {
        Headed(e.rest, Comma);
        ArgsRead(Tail(e.rest), close);
        var more := ParseArgs(Tail(e.rest), close);
        ArgsJoin(e.value, more.value, ts, Tail(e.rest), more.rest);
      }
    }
  }

  lemma OnlyArgument(e: Expr, ts: Tokens, rest: Tokens)
    requires Reads(e, 0, ts, rest) && Peek(rest) != Lt
    ensures ReadsArgs([e], ts, rest)
  {}

  lemma ArgsJoin(e: Expr, more: seq<Expr>, ts: Tokens, after: Tokens, rest: Tokens)
    requires Reads(e, 0, ts, Cons(Comma, after)) && ReadsArgs(more, after, rest)
    ensures ReadsArgs([e] + more, ts, rest)
  {
    assert ([e] + more)[1..] == more;
  }

  // ------------------------------------------------------------- the round trip

  /** An expression printed with minimal parentheses parses back to itself, all its
      tokens read, if and only if no cast to a bare named type in it is directly
      followed by `<`. */
  lemma RoundTripIff(e: Expr)
    ensures ParseExpr(Print(e, 0, Nil)) == Ok(e, Nil) <==> Fits(e, 0, false)
  {
    if Fits(e, 0, false) {
      RoundTrip(e);
    } else if ParseExpr(Print(e, 0, Nil)) == Ok(e, Nil) {
      LevelReads(0, Print(e, 0, Nil));
      PrintLen(e, 0, Nil);
    }
  }

  /** So no two expressions that fit print alike. */
  lemma PrintIsInjective(e: Expr, e': Expr)
    requires Fits(e, 0, false) && Fits(e', 0, false) && Print(e, 0, Nil) == Print(e', 0, Nil)
    ensures e == e'
  {
    RoundTrip(e);
    RoundTrip(e');
  }

  /** In particular no comparison `x as T < y` with a bare named type reads back,
      whatever x and y are. */
  lemma NamedTypeSwallowsLess(x: Expr, name: string, y: Expr)
    ensures var e := Binary(LtOp, Cast(x, Named(name)), y); ParseExpr(Print(e, 0, Nil)) != Ok(e, Nil)
  {
    var e := Binary(LtOp, Cast(x, Named(name)), y);
    RoundTripIff(e);
    assert !Fits(Cast(x, Named(name)), LevelOf(LtOp), true);
  }
}
