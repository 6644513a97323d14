/** Operator tokens, the operators they stand for, and the precedence tables. */
module ExprOps {

  datatype TokOp =
    | ScopeRes | MembSel | PtrMembSel | PtrToMembSel | PtrToPtrMembSel
    | Mul | Div | Mod | Add | Sub | LeftShift | RightShift
    | Lt | Gt | LtEq | GtEq | Eq | Neq | BitAnd | BitXor | BitOr | LogAnd | LogOr
    | Assign | MulAssign | DivAssign | ModAssign | AddAssign | SubAssign
    | LeftShiftAssign | RightShiftAssign | AndAssign | XorAssign | OrAssign | Comma
    | Inc | Dec | Typeid | ConstCast | DynamicCast | ReinterpretCast | StaticCast | Sizeof
    | BitNot | LogNot | New | Delete | Throw

  /** What a token means in an expression: the same token can be a binary and a
      prefix operator, or a prefix and a postfix one. */
  datatype ExprOp = Binary(tok: TokOp) | Prefix(tok: TokOp) | Postfix(tok: TokOp) | Call | Subscript

  /** The tokens of the unary class; the others are of the binary class. */
  predicate IsUnaryTok(t: TokOp)
  {
    match t
    case Inc | Dec | Typeid | ConstCast | DynamicCast | ReinterpretCast | StaticCast | Sizeof
       | BitNot | LogNot | New | Delete | Throw => true
    case _ => false
  }

  predicate CanPrefix(t: TokOp)
  {
    IsUnaryTok(t) || t == ScopeRes || t == Mul || t == Add || t == Sub || t == BitAnd
  }

  predicate CanPostfix(t: TokOp)
  {
    t == Inc || t == Dec
  }

  /** The operator of a token; operand says that an operand is expected next.  The
      flag reports a token that is out of place. */
  function ToExprOp(t: TokOp, operand: bool): (ExprOp, bool)
  {
    if operand then
      if CanPrefix(t) then (Prefix(t), false) else (Binary(t), true)
    else if CanPostfix(t) then (Postfix(t), false)
    else if IsUnaryTok(t) then (Prefix(t), true)
    else (Binary(t), false)
  }

  /** The level of an operator in the table, from 1 for the tightest to 16. */
  function Level(op: ExprOp): (l: nat)
    ensures 1 <= l <= 16
  {
    match op
    case Binary(t) => BinaryLevel(t)
    case Prefix(t) =>
      (match t
       case ScopeRes => 1
       case Typeid | ConstCast | DynamicCast | ReinterpretCast | StaticCast => 2
       case Throw => 15
       case _ => 3)
    case Postfix(_) => 2
    case Call => 2
    case Subscript => 2
  }

  function BinaryLevel(t: TokOp): (l: nat)
    ensures 1 <= l <= 16
  {
    match t
    case ScopeRes => 1
    case MembSel | PtrMembSel => 2
    case PtrToMembSel | PtrToPtrMembSel => 4
    case Mul | Div | Mod => 5
    case Add | Sub => 6
    case LeftShift | RightShift => 7
    case Lt | Gt | LtEq | GtEq => 8
    case Eq | Neq => 9
    case BitAnd => 10
    case BitXor => 11
    case BitOr => 12
    case LogAnd => 13
    case LogOr => 14
    case Comma => 16
    case _ => 15
  }

  function Prec(op: ExprOp): (p: int)
    ensures 0 <= p <= 15
  {
    16 - Level(op)
  }

  predicate LeftToRight(p: int)
  {
    p != 15 && p != 13 && p != 1
  }

  /** An operator of precedence p takes the one of precedence top off the stack
      before it is pushed. */
  predicate Pops(top: int, p: int)
  {
    top > p || (top == p && LeftToRight(p))
  }

  predicate IsBinary(op: ExprOp)
  {
    op.Binary?
  }
}
