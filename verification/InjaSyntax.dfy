/** Tokens and expression trees of inja templates (inja.hpp). Bracket and brace literals are not part of the model. */
module InjaSyntax {
  import opened Sequences

  datatype Symbol =
    | EqualSign | NotEqualSign | GreaterThan | GreaterEqualSign | LessThan | LessEqualSign
    | Plus | Minus | Times | Slash | PowerSign | Percent | Dot

  datatype Token =
    | Text(text: string)
    | ExpressionOpen | ExpressionClose
    | LineStatementOpen | LineStatementClose
    | StatementOpen | StatementClose
    | CommentOpen | CommentClose
    | Id(name: string) | Number(text: string) | String(text: string)
    | Sign(symbol: Symbol)
    | Comma | Colon | LeftParen | RightParen | Pipe
    | Unknown(text: string)
    | Eof

  datatype Op =
    | And | Or | In | Not
    | Equal | NotEqual | Greater | GreaterEqual | Less | LessEqual
    | Add | Subtract | Multiplication | Division | Modulo | Power | AtId

  /** The precedence table of FunctionNode. */
  function Precedence(op: Op): nat {
    match op
    case And | Or => 1
    case In | Equal | NotEqual | Greater | GreaterEqual | Less | LessEqual => 2
    case Add | Subtract => 3
    case Not | Multiplication | Division | Modulo => 4
    case Power => 5
    case AtId => 8
  }

  predicate LeftAssociative(op: Op) {
    op != Power
  }

  function Arity(op: Op): nat {
    if op == Not then 1 else 2
  }

  /** An operator on the stack is applied before `next` is pushed. */
  predicate Pops(top: Op, next: Op) {
    Precedence(top) > Precedence(next) || (Precedence(top) == Precedence(next) && LeftAssociative(next))
  }

  predicate LiteralWord(name: string) {
    name == "true" || name == "false" || name == "null"
  }

  function WordOperator(name: string): Option<Op> {
    if name == "and" then Some(And)
    else if name == "or" then Some(Or)
    else if name == "in" then Some(In)
    else if name == "not" then Some(Not)
    else None
  }

  function SignOperator(symbol: Symbol): Op {
    match symbol
    case EqualSign => Equal
    case NotEqualSign => NotEqual
    case GreaterThan => Greater
    case GreaterEqualSign => GreaterEqual
    case LessThan => Less
    case LessEqualSign => LessEqual
    case Plus => Add
    case Minus => Subtract
    case Times => Multiplication
    case Slash => Division
    case PowerSign => Power
    case Percent => Modulo
    case Dot => AtId
  }

  function OperatorToken(op: Op): Token {
    match op
    case And => Id("and")
    case Or => Id("or")
    case In => Id("in")
    case Not => Id("not")
    case Equal => Sign(EqualSign)
    case NotEqual => Sign(NotEqualSign)
    case Greater => Sign(GreaterThan)
    case GreaterEqual => Sign(GreaterEqualSign)
    case Less => Sign(LessThan)
    case LessEqual => Sign(LessEqualSign)
    case Add => Sign(Plus)
    case Subtract => Sign(Minus)
    case Multiplication => Sign(Times)
    case Division => Sign(Slash)
    case Power => Sign(PowerSign)
    case Modulo => Sign(Percent)
    case AtId => Sign(Dot)
  }

  /** The operator that a token denotes, if any. */
  function TokenOperator(t: Token): Option<Op> {
    match t
    case Id(name) => WordOperator(name)
    case Sign(symbol) => Some(SignOperator(symbol))
    case _ => None
  }

  /** A literal keeps its token; a prefix operation is `not`. */
  datatype Expr =
    | Literal(token: Token)
    | Data(name: string)
    | Prefix(arg: Expr)
    | Binary(op: Op, left: Expr, right: Expr)
    | Call(name: string, args: seq<Expr>)

  predicate IsLiteralToken(t: Token) {
    t.Number? || t.String? || (t.Id? && LiteralWord(t.name))
  }

  predicate PlainName(name: string) {
    !LiteralWord(name) && WordOperator(name).None?
  }

  /** Whether a function of that name and number of arguments is registered. */
  type Functions = (string, nat) -> bool

  /** Trees that the grammar can express. */
  predicate WellFormed(e: Expr, known: Functions) {
    match e
    case Literal(t) => IsLiteralToken(t)
    case Data(name) => PlainName(name)
    case Prefix(a) => WellFormed(a, known)
    case Binary(op, l, r) => op != Not && WellFormed(l, known) && WellFormed(r, known)
    case Call(name, args) =>
      PlainName(name) && known(name, |args|) && forall i :: 0 <= i < |args| ==> WellFormed(args[i], known)
  }
}
