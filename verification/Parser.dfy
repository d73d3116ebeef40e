/**
 The parser object: a token vector closed by `Eof` and a position in it. Every
 method advances the position exactly as the grammar functions consume tokens.
 */
module Parser {
  import opened Syntax
  import G = Grammar

  datatype Outcome<+T> = Failed | Parsed(value: T)

  /** The tokens of a vector from a position up to its closing Eof. */
  ghost function From(tokens: seq<Token>, pos: nat): Tokens
    requires pos < |tokens|
    decreases |tokens| - pos
  {
    if pos == |tokens| - 1 then Nil else Cons(tokens[pos], From(tokens, pos + 1))
  }

  class ExprParser {
    const tokens: seq<Token>
    var pos: nat

    ghost predicate Valid()
      reads this
    {
      && pos < |tokens| && tokens[|tokens| - 1] == Eof
      && forall i :: 0 <= i < |tokens| - 1 ==> tokens[i] != Eof
    }

    /** What is still to read, without the closing Eof. */
    ghost function Rest(): (ts: Tokens)
      requires Valid()
      reads this
      ensures tokens[pos] == G.Peek(ts)
    {
      From(tokens, pos)
    }

    /** The object did what the grammar says. */
    ghost predicate Did<T>(r: Outcome<T>, p: G.Parse<T>)
      requires Valid()
      reads this
    {
      match p
      case Err => r == Failed
      case Ok(v, rest) => r == Parsed(v) && Rest() == rest
    }

    constructor (ts: seq<Token>)
      requires ts != [] && ts[|ts| - 1] == Eof && forall i :: 0 <= i < |ts| - 1 ==> ts[i] != Eof
      ensures Valid() && tokens == ts && pos == 0 && Rest() == From(ts, 0)
    {
      tokens, pos := ts, 0;
    }

    method Advance()
      requires Valid()
      modifies this
      ensures Valid() && Rest() == G.Tail(old(Rest()))
    {
      if tokens[pos] != Eof { pos := pos + 1; }
    }

    method Consume(t: Token) returns (r: Outcome<()>)
      requires Valid() && t != Eof
      modifies this
      ensures Valid() && Did(r, G.Expect(old(Rest()), t))
      ensures r == Failed ==> Rest() == old(Rest())
    {
      if tokens[pos] == t {
        Advance();
        return Parsed(());
      }
      return Failed;
    }

    method ParseType() returns (r: Outcome<Type>)
      requires Valid()
      modifies this
      ensures Valid() && Did(r, G.ParseType(old(Rest())))
      decreases Len(Rest()), 1
    {
      ghost var ts := Rest();
      match tokens[pos] {
        case LBracket =>
          assert G.ParseType(ts) == G.ParseArrayType(G.Tail(ts));
          r := ParseArrayType();
        case Ident(name) =>
          assert G.ParseType(ts) == G.ParseNamedType(name, G.Tail(ts));
          r := ParseNamedType(name);
        case _ => r := ParseSimpleType();
      }
    }

    /** A primitive type or `()`. */
    method ParseSimpleType() returns (r: Outcome<Type>)
      requires Valid() && tokens[pos] != LBracket && !tokens[pos].Ident?
      modifies this
      ensures Valid() && Did(r, G.ParseType(old(Rest())))
    {
      match tokens[pos] {
        case PrimType(p) =>
          Advance();
          return Parsed(Primitive(p));
        case LParen =>
          Advance();
          var close := Consume(RParen);
          return if close.Failed? then Failed else Parsed(UnitType);
        case _ => return Failed;
      }
    }

    /** From a name. */
    method ParseNamedType(name: string) returns (r: Outcome<Type>)
      requires Valid() && tokens[pos] == Ident(name)
      modifies this
      ensures Valid() && Did(r, G.ParseNamedType(name, G.Tail(old(Rest()))))
      decreases Len(Rest()), 0
    {
      Advance();
      if tokens[pos] != Lt { return Parsed(Named(name)); }
      Advance();
      r := ParseGeneric(name);
    }

    /** From `[`. */
    method ParseArrayType() returns (r: Outcome<Type>)
      requires Valid() && tokens[pos] == LBracket
      modifies this
      ensures Valid() && Did(r, G.ParseArrayType(G.Tail(old(Rest()))))
      decreases Len(Rest()), 0
    {
      Advance();
      var elem := ParseType();
      if elem.Failed? { return Failed; }
      var semi := Consume(Semicolon);
      if semi.Failed? || !tokens[pos].IntLit? { return Failed; }
      var size := tokens[pos].n;
      Advance();
      var close := Consume(RBracket);
      return if close.Failed? then Failed else Parsed(ArrayOf(elem.value, size));
    }

    /** After `name <`. */
    method ParseGeneric(name: string) returns (r: Outcome<Type>)
      requires Valid()
      modifies this
      ensures Valid() && Did(r, G.ParseGeneric(name, old(Rest())))
      decreases Len(Rest()), 2
    {
      var first := ParseType();
      if first.Failed? { return Failed; }
      if name == "Result" {
        var comma := Consume(Comma);
        if comma.Failed? { return Failed; }
        var second := ParseType();
        if second.Failed? { return Failed; }
        var close := Consume(Gt);
        return if close.Failed? then Failed else Parsed(ResultOf(first.value, second.value));
      } else if name == "Option" {
        var close := Consume(Gt);
        return if close.Failed? then Failed else Parsed(OptionOf(first.value));
      }
      ghost var more := G.SkipTypes(Rest());
      while tokens[pos] == Comma
        invariant Valid() && Len(Rest()) < Len(old(Rest())) && G.SkipTypes(Rest()) == more
        decreases Len(Rest())
      {
        Advance();
        var t := ParseType();
        if t.Failed? { return Failed; }
      }
      var close := Consume(Gt);
      return if close.Failed? then Failed else Parsed(Named(name));
    }

    /** One of the ten binary levels: the next tighter level, then a loop that
        rebinds `left` as long as this level's operators follow. */
    method ParseBinary(l: nat) returns (r: Outcome<Expr>)
      requires Valid() && l < UNARY
      modifies this
      ensures Valid() && Did(r, G.ParseLevel(l, old(Rest())))
      decreases Len(Rest()), 2 + PRIMARY - l, 0
    {
      ghost var whole := G.ParseLevel(l, Rest());
      r := ParseLevel(l + 1);
      if r.Failed? { return; }
      var left := r.value;
      while OpAt(l, tokens[pos]) != NoOp
        invariant Valid() && Len(Rest()) < Len(old(Rest())) && G.Continue(l, left, Rest()) == whole
        decreases Len(Rest())
      {
        var op := OpAt(l, tokens[pos]).op;
        assert whole == G.ContinueBinary(l, left, Rest());
        Advance();
        var right := ParseLevel(l + 1);
        if right.Failed? { return Failed; }
        left := Binary(op, left, right.value);
      }
      return Parsed(left);
    }

    method ParseUnary() returns (r: Outcome<Expr>)
      requires Valid()
      modifies this
      ensures Valid() && Did(r, G.ParseLevel(UNARY, old(Rest())))
      decreases Len(Rest()), 2 + PRIMARY - UNARY, 0
    {
      if tokens[pos] !in {Not, Minus, Tilde} {
        r := ParseCast();
        assert r.Parsed? ==> G.Continue(UNARY, r.value, Rest()) == G.Ok(r.value, Rest());
        return;
      }
      assert G.ParseLevel(UNARY, Rest()) == G.ParsePrefixed(Rest());
      var op := if tokens[pos] == Not then LogNot else if tokens[pos] == Minus then Neg else BitNot;
      Advance();
      r := ParseUnary();
      if r.Parsed? { r := Parsed(Unary(op, r.value)); }
    }

    method ParseCast() returns (r: Outcome<Expr>)
      requires Valid()
      modifies this
      ensures Valid() && Did(r, G.ParseLevel(CAST, old(Rest())))
      decreases Len(Rest()), 2 + PRIMARY - CAST
    {
      ghost var whole := G.ParseLevel(CAST, Rest());
      r := ParsePostfix();
      if r.Failed? { return; }
      var expr := r.value;
      while tokens[pos] == As
        invariant Valid() && Len(Rest()) < Len(old(Rest())) && G.Continue(CAST, expr, Rest()) == whole
        decreases Len(Rest())
      {
        assert whole == G.ContinueCast(expr, Rest());
        Advance();
        var ty := ParseType();
        if ty.Failed? { return Failed; }
        expr := Cast(expr, ty.value);
      }
      return Parsed(expr);
    }

    method ParsePostfix() returns (r: Outcome<Expr>)
      requires Valid()
      modifies this
      ensures Valid() && Did(r, G.ParseLevel(POSTFIX, old(Rest())))
      decreases Len(Rest()), 2 + PRIMARY - POSTFIX
    {
      ghost var whole := G.ParseLevel(POSTFIX, Rest());
      assert G.ParseLevel(PRIMARY, Rest()) == G.ParsePrimary(Rest());
      r := ParsePrimary();
      if r.Failed? { return; }
      var expr := r.value;
      while tokens[pos] == Dot || tokens[pos] == LBracket
        invariant Valid() && Len(Rest()) < Len(old(Rest())) && G.Continue(POSTFIX, expr, Rest()) == whole
        decreases Len(Rest())
      {
        assert whole == G.ContinuePostfix(expr, Rest());
        var next;
        if tokens[pos] == Dot { next := ParseMember(expr); } else { next := ParseSubscript(expr); }
        if next.Failed? { return Failed; }
        expr := next.value;
      }
      return Parsed(expr);
    }

    /** `.field` or `.method(args)`. */
    method ParseMember(expr: Expr) returns (r: Outcome<Expr>)
      requires Valid() && tokens[pos] == Dot
      modifies this
      ensures Valid() && Did(r, G.ParseMember(expr, old(Rest())))
      decreases Len(Rest()), 1
    {
      Advance();
      if !tokens[pos].Ident? { return Failed; }
      var name := tokens[pos].name;
      Advance();
      if tokens[pos] != LParen { return Parsed(Field(expr, name)); }
      Advance();
      var args := ParseArgs(RParen);
      if args.Failed? { return Failed; }
      var close := Consume(RParen);
      return if close.Failed? then Failed else Parsed(MethodCall(expr, name, args.value));
    }

    /** `[index]`. */
    method ParseSubscript(expr: Expr) returns (r: Outcome<Expr>)
      requires Valid() && tokens[pos] == LBracket
      modifies this
      ensures Valid() && Did(r, G.ParseSubscript(expr, old(Rest())))
      decreases Len(Rest()), 1
    {
      Advance();
      var index := ParseLevel(0);
      if index.Failed? { return Failed; }
      var close := Consume(RBracket);
      return if close.Failed? then Failed else Parsed(Index(expr, index.value));
    }

    method ParsePrimary() returns (r: Outcome<Expr>)
      requires Valid()
      modifies this
      ensures Valid() && Did(r, G.ParsePrimary(old(Rest())))
      decreases Len(Rest()), 1
    {
      ghost var ts := Rest();
      match tokens[pos] {
        case Ident(name) =>
          assert G.ParsePrimary(ts) == G.ParseNamed(name, G.Tail(ts));
          r := ParseNamed(name);
        case LParen =>
          assert G.ParsePrimary(ts) == G.ParseParenthesised(G.Tail(ts));
          r := ParseParenthesised();
        case LBracket =>
          assert G.ParsePrimary(ts) == G.ParseArray(G.Tail(ts));
          r := ParseArray();
        case _ => r := ParseLiteral();
      }
    }

    method ParseLiteral() returns (r: Outcome<Expr>)
      requires Valid() && !tokens[pos].Ident? && tokens[pos] != LParen && tokens[pos] != LBracket
      modifies this
      ensures Valid() && Did(r, G.ParsePrimary(old(Rest())))
    {
      var literal;
      match tokens[pos] {
        case True => literal := BoolE(true);
        case False => literal := BoolE(false);
        case IntLit(n) => literal := IntE(n);
        case FixedLit(n) => literal := FixedE(n);
        case StringLit(s) => literal := StringE(s);
        case _ => return Failed;
      }
      Advance();
      return Parsed(literal);
    }

    /** From `(`. */
    method ParseParenthesised() returns (r: Outcome<Expr>)
      requires Valid() && tokens[pos] == LParen
      modifies this
      ensures Valid() && Did(r, G.ParseParenthesised(G.Tail(old(Rest()))))
      decreases Len(Rest()), 0
    {
      Advance();
      if tokens[pos] == RParen {
        Advance();
        return Parsed(UnitE);
      }
      var e := ParseLevel(0);
      if e.Failed? { return Failed; }
      var close := Consume(RParen);
      return if close.Failed? then Failed else e;
    }

    /** From `[`. */
    method ParseArray() returns (r: Outcome<Expr>)
      requires Valid() && tokens[pos] == LBracket
      modifies this
      ensures Valid() && Did(r, G.ParseArray(G.Tail(old(Rest()))))
      decreases Len(Rest()), 0
    {
      Advance();
      var es := ParseArgs(RBracket);
      if es.Failed? { return Failed; }
      var close := Consume(RBracket);
      return if close.Failed? then Failed else Parsed(ArrayInit(es.value));
    }

    /** From a name: a call, a path with one `::`, or the name alone. */
    method ParseNamed(name: string) returns (r: Outcome<Expr>)
      requires Valid() && tokens[pos] == Ident(name)
      modifies this
      ensures Valid() && Did(r, G.ParseNamed(name, G.Tail(old(Rest()))))
      decreases Len(Rest()), 0
    {
      Advance();
      if tokens[pos] == LParen {
        Advance();
        var args := ParseArgs(RParen);
        if args.Failed? { return Failed; }
        var close := Consume(RParen);
        return if close.Failed? then Failed else Parsed(Call(name, args.value));
      } else if tokens[pos] == ColonColon {
        Advance();
        if !tokens[pos].Ident? { return Failed; }
        var variant := tokens[pos].name;
        Advance();
        return Parsed(Var(name + "::" + variant));
      }
      return Parsed(Var(name));
    }

    method ParseArgs(close: Token) returns (r: Outcome<seq<Expr>>)
      requires Valid() && close in {RParen, RBracket}
      modifies this
      ensures Valid() && Did(r, G.ParseArgs(old(Rest()), close))
      decreases Len(Rest()), 20
    {
      ghost var whole := G.ParseArgs(Rest(), close);
      var args := [];
      assert whole.Ok? ==> [] + whole.value == whole.value;
      while tokens[pos] != close
        invariant Valid() && Len(Rest()) <= Len(old(Rest()))
        invariant whole == G.Prepend(args, G.ParseArgs(Rest(), close))
        decreases Len(Rest())
      {
        G.ArgsTurn(args, Rest(), close);
        var e := ParseLevel(0);
        if e.Failed? { return Failed; }
        args := args + [e.value];
        if tokens[pos] != close {
          var comma := Consume(Comma);
          if comma.Failed? { return Failed; }
        }
      }
      assert args + [] == args;
      return Parsed(args);
    }

    method ParseLevel(l: nat) returns (r: Outcome<Expr>)
      requires Valid() && l <= UNARY
      modifies this
      ensures Valid() && Did(r, G.ParseLevel(l, old(Rest())))
      decreases Len(Rest()), 2 + PRIMARY - l, 1
    {
      if l < UNARY { r := ParseBinary(l); } else { r := ParseUnary(); }
    }
  }
}
