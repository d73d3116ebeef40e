/** Tokens and expressions of EKKL, without source spans. */
module Syntax {

  datatype BinOp = Add | Sub | Mul | Div | Mod | EqOp | NeOp | LtOp | LeOp | GtOp | GeOp
                 | AndOp | OrOp | BitAnd | BitOr | BitXor | ShlOp | ShrOp

  datatype UnOp = LogNot | Neg | BitNot

  datatype Prim = I8 | I16 | I32 | I64 | U8 | U16 | U32 | U64 | BoolT | Q16

  /** `Other` stands for the tokens that no expression can hold; `{` and `if` are
      not part of this alphabet. */
  datatype Token =
    | IntLit(n: int) | FixedLit(raw: int) | StringLit(s: string) | True | False | Ident(name: string)
    | OrOr | AndAnd | EqEq | Ne | Lt | Le | Gt | Ge | Pipe | Caret | Ampersand | Shl | Shr
    | Plus | Minus | Star | Slash | Percent | Not | Tilde
    | LParen | RParen | LBracket | RBracket | Comma | Dot | Semicolon | As | ColonColon
    | PrimType(prim: Prim) | Other | Eof

  /** Tokens still to read. */
  datatype Tokens = Nil | Cons(head: Token, tail: Tokens)

  function Len(ts: Tokens): nat {
    if ts.Nil? then 0 else 1 + Len(ts.tail)
  }

  datatype Type =
    | Primitive(prim: Prim)
    | UnitType
    | ArrayOf(elem: Type, size: int)
    | ResultOf(ok: Type, err: Type)
    | OptionOf(inner: Type)
    | Named(typeName: string)

  datatype Expr =
    | IntE(n: int) | FixedE(raw: int) | StringE(s: string) | BoolE(b: bool) | UnitE
    | Var(name: string)
    | Binary(op: BinOp, left: Expr, right: Expr)
    | Unary(uop: UnOp, operand: Expr)
    | Call(func: string, args: seq<Expr>)
    | MethodCall(receiver: Expr, method_: string, margs: seq<Expr>)
    | Field(of: Expr, field: string)
    | Index(base: Expr, index: Expr)
    | ArrayInit(elements: seq<Expr>)
    | Cast(inner: Expr, ty: Type)

  // ---------------------------------------------------------------- spelling

  function Spell(op: BinOp): Token {
    match op
    case Add => Plus case Sub => Minus case Mul => Star case Div => Slash case Mod => Percent
    case EqOp => EqEq case NeOp => Ne case LtOp => Lt case LeOp => Le case GtOp => Gt case GeOp => Ge
    case AndOp => AndAnd case OrOp => OrOr
    case BitAnd => Ampersand case BitOr => Pipe case BitXor => Caret case ShlOp => Shl case ShrOp => Shr
  }

  function SpellUnary(op: UnOp): Token {
    match op case LogNot => Not case Neg => Minus case BitNot => Tilde
  }

  // ------------------------------------------------------------ the ladder

  /** Binary levels 0 (or) to 9 (multiplicative), then the tighter ones. */
  const UNARY: nat := 10
  const CAST: nat := 11
  const POSTFIX: nat := 12
  const PRIMARY: nat := 13

  function LevelOf(op: BinOp): (l: nat)
    ensures l < UNARY
  {
    match op
    case OrOp => 0 case AndOp => 1
    case EqOp => 2 case NeOp => 2
    case LtOp => 3 case LeOp => 3 case GtOp => 3 case GeOp => 3
    case BitOr => 4 case BitXor => 5 case BitAnd => 6
    case ShlOp => 7 case ShrOp => 7
    case Add => 8 case Sub => 8
    case Mul => 9 case Div => 9 case Mod => 9
  }

  datatype MaybeOp = NoOp | Op(op: BinOp)

  /** The operator a token stands for between two operands. */
  function Infix(t: Token): MaybeOp {
    match t
    case Plus => Op(Add) case Minus => Op(Sub) case Star => Op(Mul) case Slash => Op(Div) case Percent => Op(Mod)
    case EqEq => Op(EqOp) case Ne => Op(NeOp) case Lt => Op(LtOp) case Le => Op(LeOp) case Gt => Op(GtOp) case Ge => Op(GeOp)
    case AndAnd => Op(AndOp) case OrOr => Op(OrOp)
    case Ampersand => Op(BitAnd) case Pipe => Op(BitOr) case Caret => Op(BitXor) case Shl => Op(ShlOp) case Shr => Op(ShrOp)
    case _ => NoOp
  }

  /** The operator a level's loop accepts at a token. */
  function OpAt(level: nat, t: Token): MaybeOp {
    match Infix(t)
    case NoOp => NoOp
    case Op(op) => if LevelOf(op) == level then Op(op) else NoOp
  }

  /** Each spelling is read back at its own level and at no other. */
  lemma SpellingsAreUnambiguous(op: BinOp, level: nat)
    ensures OpAt(level, Spell(op)) == if level == LevelOf(op) then Op(op) else NoOp
  {}
}
