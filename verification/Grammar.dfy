/**
 What the recursive-descent parser computes, on the tokens still to read: the
 expression ladder from `||` down to primary expressions, call arguments and
 types. `Parser` moves a position over the token vector and is proved to compute
 exactly these functions.
 */
module Grammar {
  import opened Syntax

  datatype Parse<+T> = Err | Ok(value: T, rest: Tokens)

  /** The end of the input reads as Eof, and reading past it stays there. */
  function Peek(ts: Tokens): Token {
    if ts.Nil? then Eof else ts.head
  }

  function Tail(ts: Tokens): (r: Tokens)
    ensures ts.Cons? ==> Len(r) + 1 == Len(ts)
  {
    if ts.Nil? then ts else ts.tail
  }

  /** Consuming an expected token. */
  function Expect(ts: Tokens, t: Token): (r: Parse<()>)
    requires t != Eof
    ensures r.Ok? ==> Len(r.rest) < Len(ts) && r.rest == Tail(ts)
    ensures r.Ok? <==> Peek(ts) == t
  {
    if Peek(ts) == t then Ok((), Tail(ts)) else Err
  }

  function ParseType(ts: Tokens): (r: Parse<Type>)
    ensures r.Ok? ==> Len(r.rest) < Len(ts)
    decreases Len(ts), 1
  {
    match Peek(ts)
    case PrimType(p) => Ok(Primitive(p), Tail(ts))
    case LParen =>
      var close := Expect(Tail(ts), RParen);
      if close.Err? then Err else Ok(UnitType, close.rest)
    case LBracket => ParseArrayType(Tail(ts))
    case Ident(name) => ParseNamedType(name, Tail(ts))
    case _ => Err
  }

  /** After a name. */
  function ParseNamedType(name: string, ts: Tokens): (r: Parse<Type>)
    ensures r.Ok? ==> Len(r.rest) <= Len(ts)
    decreases Len(ts), 2
  {
    if Peek(ts) != Lt then Ok(Named(name), ts) else ParseGeneric(name, Tail(ts))
  }

  /** After `[`. */
  function ParseArrayType(ts: Tokens): (r: Parse<Type>)
    ensures r.Ok? ==> Len(r.rest) < Len(ts)
    decreases Len(ts), 2
  {
    var elem := ParseType(ts);
    if elem.Err? then Err else
    var semi := Expect(elem.rest, Semicolon);
    if semi.Err? || !Peek(semi.rest).IntLit? then Err else
    var close := Expect(Tail(semi.rest), RBracket);
    if close.Err? then Err else Ok(ArrayOf(elem.value, Peek(semi.rest).n), close.rest)
  }

  /** What follows `name <`. */
  function ParseGeneric(name: string, ts: Tokens): (r: Parse<Type>)
    ensures r.Ok? ==> Len(r.rest) < Len(ts)
    decreases Len(ts), 2
  {
    var first := ParseType(ts);
    if first.Err? then Err
    else if name == "Result" then
      var comma := Expect(first.rest, Comma);
      if comma.Err? then Err else
      var second := ParseType(comma.rest);
      if second.Err? then Err else
      var close := Expect(second.rest, Gt);
      if close.Err? then Err else Ok(ResultOf(first.value, second.value), close.rest)
    else if name == "Option" then
      var close := Expect(first.rest, Gt);
      if close.Err? then Err else Ok(OptionOf(first.value), close.rest)
    else
      var more := SkipTypes(first.rest);
      if more.Err? then Err else
      var close := Expect(more.rest, Gt);
      if close.Err? then Err else Ok(Named(name), close.rest)
  }

  /** Further generic arguments of a named type, which are read and dropped. */
  function SkipTypes(ts: Tokens): (r: Parse<()>)
    ensures r.Ok? ==> Len(r.rest) <= Len(ts)
    decreases Len(ts), 0
  {
    if Peek(ts) != Comma then Ok((), ts) else
    var t := ParseType(Tail(ts));
    if t.Err? then Err else SkipTypes(t.rest)
  }

  /** Level `l` of the ladder: the next tighter level, then this level's loop. */
  function ParseLevel(l: nat, ts: Tokens): (r: Parse<Expr>)
    requires l <= PRIMARY
    ensures r.Ok? ==> Len(r.rest) < Len(ts)
    decreases Len(ts), 2 + PRIMARY - l
  {
    if l == PRIMARY then ParsePrimary(ts)
    else if l == UNARY && Peek(ts) in {Not, Minus, Tilde} then ParsePrefixed(ts)
    else
      var x := ParseLevel(l + 1, ts);
      if x.Err? then Err else Continue(l, x.value, x.rest)
  }

  /** From a prefix operator. */
  function ParsePrefixed(ts: Tokens): (r: Parse<Expr>)
    requires Peek(ts) in {Not, Minus, Tilde}
    ensures r.Ok? ==> Len(r.rest) < Len(ts)
    decreases Len(ts), 1
  {
    var x := ParseLevel(UNARY, Tail(ts));
    if x.Err? then Err
    else Ok(Unary(if Peek(ts) == Not then LogNot else if Peek(ts) == Minus then Neg else BitNot, x.value), x.rest)
  }

  /** The loop of a level, with what it has read so far on the left. */
  function Continue(l: nat, left: Expr, ts: Tokens): (r: Parse<Expr>)
    requires l <= PRIMARY
    ensures r.Ok? ==> Len(r.rest) <= Len(ts)
    decreases Len(ts), 1, left
  {
    if l < UNARY then (if OpAt(l, Peek(ts)) == NoOp then Ok(left, ts) else ContinueBinary(l, left, ts))
    else if l == CAST && Peek(ts) == As then ContinueCast(left, ts)
    else if l == POSTFIX && Peek(ts) in {Dot, LBracket} then ContinuePostfix(left, ts)
    else Ok(left, ts)
  }

  function ContinueBinary(l: nat, left: Expr, ts: Tokens): (r: Parse<Expr>)
    requires l < UNARY && OpAt(l, Peek(ts)) != NoOp
    ensures r.Ok? ==> Len(r.rest) <= Len(ts)
    decreases Len(ts), 0, left
  {
    var right := ParseLevel(l + 1, Tail(ts));
    if right.Err? then Err else Continue(l, Binary(OpAt(l, Peek(ts)).op, left, right.value), right.rest)
  }

  function ContinueCast(left: Expr, ts: Tokens): (r: Parse<Expr>)
    requires Peek(ts) == As
    ensures r.Ok? ==> Len(r.rest) <= Len(ts)
    decreases Len(ts), 0, left
  {
    var ty := ParseType(Tail(ts));
    if ty.Err? then Err else Continue(CAST, Cast(left, ty.value), ty.rest)
  }

  function ContinuePostfix(left: Expr, ts: Tokens): (r: Parse<Expr>)
    requires Peek(ts) in {Dot, LBracket}
    ensures r.Ok? ==> Len(r.rest) <= Len(ts)
    decreases Len(ts), 0, 1, left
  {
    var next := if Peek(ts) == Dot then ParseMember(left, ts) else ParseSubscript(left, ts);
    if next.Err? then Err else Continue(POSTFIX, next.value, next.rest)
  }

  /** `.field` or `.method(args)` after an expression. */
  function ParseMember(left: Expr, ts: Tokens): (r: Parse<Expr>)
    requires ts.Cons?
    ensures r.Ok? ==> Len(r.rest) < Len(ts)
    decreases Len(ts), 0, 0, left
  {
    if !Peek(Tail(ts)).Ident? then Err else
    var name := Peek(Tail(ts)).name;
    if Peek(Tail(Tail(ts))) == LParen then
      var args := ParseArgs(Tail(Tail(Tail(ts))), RParen);
      if args.Err? then Err else
      var close := Expect(args.rest, RParen);
      if close.Err? then Err else Ok(MethodCall(left, name, args.value), close.rest)
    else Ok(Field(left, name), Tail(Tail(ts)))
  }

  /** `[index]` after an expression. */
  function ParseSubscript(left: Expr, ts: Tokens): (r: Parse<Expr>)
    requires ts.Cons?
    ensures r.Ok? ==> Len(r.rest) < Len(ts)
    decreases Len(ts), 0, 0, left
  {
    var index := ParseLevel(0, Tail(ts));
    if index.Err? then Err else
    var close := Expect(index.rest, RBracket);
    if close.Err? then Err else Ok(Index(left, index.value), close.rest)
  }

  function ParsePrimary(ts: Tokens): (r: Parse<Expr>)
    ensures r.Ok? ==> Len(r.rest) < Len(ts)
    decreases Len(ts), 1
  {
    match Peek(ts)
    case True => Ok(BoolE(true), Tail(ts))
    case False => Ok(BoolE(false), Tail(ts))
    case IntLit(n) => Ok(IntE(n), Tail(ts))
    case FixedLit(n) => Ok(FixedE(n), Tail(ts))
    case StringLit(s) => Ok(StringE(s), Tail(ts))
    case Ident(name) => ParseNamed(name, Tail(ts))
    case LParen => ParseParenthesised(Tail(ts))
    case LBracket => ParseArray(Tail(ts))
    case _ => Err
  }

  /** After a name: a call, a path with one `::`, or the name alone. */
  function ParseNamed(name: string, ts: Tokens): (r: Parse<Expr>)
    ensures r.Ok? ==> Len(r.rest) <= Len(ts)
    decreases Len(ts), 21
  {
    if Peek(ts) == LParen then
      var args := ParseArgs(Tail(ts), RParen);
      if args.Err? then Err else
      var close := Expect(args.rest, RParen);
      if close.Err? then Err else Ok(Call(name, args.value), close.rest)
    else if Peek(ts) == ColonColon then
      if Peek(Tail(ts)).Ident? then Ok(Var(name + "::" + Peek(Tail(ts)).name), Tail(Tail(ts))) else Err
    else Ok(Var(name), ts)
  }

  /** After `(`. */
  function ParseParenthesised(ts: Tokens): (r: Parse<Expr>)
    ensures r.Ok? ==> Len(r.rest) <= Len(ts)
    decreases Len(ts), 21
  {
    if Peek(ts) == RParen then Ok(UnitE, Tail(ts)) else
    var e := ParseLevel(0, ts);
    if e.Err? then Err else
    var close := Expect(e.rest, RParen);
    if close.Err? then Err else Ok(e.value, close.rest)
  }

  /** After `[`. */
  function ParseArray(ts: Tokens): (r: Parse<Expr>)
    ensures r.Ok? ==> Len(r.rest) <= Len(ts)
    decreases Len(ts), 21
  {
    var es := ParseArgs(ts, RBracket);
    if es.Err? then Err else
    var close := Expect(es.rest, RBracket);
    if close.Err? then Err else Ok(ArrayInit(es.value), close.rest)
  }

  /** Comma-separated expressions up to the closing token, which is left; a
      trailing comma is allowed. */
  function ParseArgs(ts: Tokens, close: Token): (r: Parse<seq<Expr>>)
    requires close in {RParen, RBracket}
    ensures r.Ok? ==> Len(r.rest) <= Len(ts)
    decreases Len(ts), 20
  {
    if Peek(ts) == close then Ok([], ts) else
    var e := ParseLevel(0, ts);
    if e.Err? then Err
    else if Peek(e.rest) == close then Ok([e.value], e.rest)
    else
      var comma := Expect(e.rest, Comma);
      if comma.Err? then Err else
      var more := ParseArgs(comma.rest, close);
      if more.Err? then Err else Ok([e.value] + more.value, more.rest)
  }

  /** Arguments already read, in front of those a parse still yields. */
  function Prepend(done: seq<Expr>, p: Parse<seq<Expr>>): Parse<seq<Expr>> {
    if p.Err? then Err else Ok(done + p.value, p.rest)
  }

  /** One turn of the argument loop: an expression, and the comma unless the
      closing token follows. */
  lemma {:induction false} ArgsTurn(done: seq<Expr>, ts: Tokens, close: Token)
    requires close in {RParen, RBracket} && Peek(ts) != close
    ensures var e := ParseLevel(0, ts);
            var whole := Prepend(done, ParseArgs(ts, close));
            if e.Err? then whole.Err?
            else if Peek(e.rest) == close then whole == Prepend(done + [e.value], ParseArgs(e.rest, close))
            else if Peek(e.rest) != Comma then whole.Err?
            else whole == Prepend(done + [e.value], ParseArgs(Tail(e.rest), close))
  {
    var e := ParseLevel(0, ts);
    if e.Ok? {
      assert done + [e.value] + [] == done + [e.value];
    }
    if e.Ok? && Peek(e.rest) == Comma {
      var more := ParseArgs(Tail(e.rest), close);
      if more.Ok? {
        assert done + ([e.value] + more.value) == (done + [e.value]) + more.value;
      }
    }
  }

  function ParseExpr(ts: Tokens): (r: Parse<Expr>)
    ensures r.Ok? ==> Len(r.rest) < Len(ts)
  {
    ParseLevel(0, ts)
  }
}
