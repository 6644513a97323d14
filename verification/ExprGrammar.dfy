/** The grammar of expressions, clause 5 of ISO/IEC 14882:2011, written out as
    productions, and its agreement with the precedence tables. */
module ExprGrammar {
  import opened ExprOps
  import opened ExprParser

  /** A phrase as it is written, its parentheses included. */
  datatype Syntax =
    | Name(id: nat)
    | Parens(inner: Syntax)
    | Infix(left: Syntax, tok: TokOp, right: Syntax)
    | Prefixed(tok: TokOp, arg: Syntax)
    | Suffixed(arg: Syntax, tok: TokOp)
    | Called(func: Syntax, args: seq<Syntax>)
    | Indexed(base: Syntax, index: Syntax)

  datatype Class =
    | Expression | Assignment | LogicalOr | LogicalAnd | InclusiveOr | ExclusiveOr | And | Equality | Relational
    | Shift | Additive | Multiplicative | MemberPointer | Unary | Postfixed | Qualified | Primary

  /** The class the productions of a class start from. */
  function Tighter(c: Class): Class
    requires !c.Primary?
  {
    match c
    case Expression => Assignment
    case Assignment => LogicalOr
    case LogicalOr => LogicalAnd
    case LogicalAnd => InclusiveOr
    case InclusiveOr => ExclusiveOr
    case ExclusiveOr => And
    case And => Equality
    case Equality => Relational
    case Relational => Shift
    case Shift => Additive
    case Additive => Multiplicative
    case Multiplicative => MemberPointer
    case MemberPointer => Unary
    case Unary => Postfixed
    case Postfixed => Qualified
    case Qualified => Primary
  }

  /** The binary operators of a class. */
  function Operators(c: Class): set<TokOp>
  {
    match c
    case Expression => {Comma}
    case Assignment =>
      {Assign, MulAssign, DivAssign, ModAssign, AddAssign, SubAssign, LeftShiftAssign, RightShiftAssign,
       AndAssign, XorAssign, OrAssign}
    case LogicalOr => {LogOr}
    case LogicalAnd => {LogAnd}
    case InclusiveOr => {BitOr}
    case ExclusiveOr => {BitXor}
    case And => {BitAnd}
    case Equality => {Eq, Neq}
    case Relational => {Lt, Gt, LtEq, GtEq}
    case Shift => {LeftShift, RightShift}
    case Additive => {Add, Sub}
    case Multiplicative => {Mul, Div, Mod}
    case MemberPointer => {PtrToMembSel, PtrToPtrMembSel}
    case Unary => {}
    case Postfixed => {MembSel, PtrMembSel}
    case Qualified => {ScopeRes}
    case Primary => {}
  }

  /** The prefix operators of a class. */
  function Prefixes(c: Class): set<TokOp>
  {
    match c
    case Assignment => {Throw}
    case Unary => {Inc, Dec, Mul, BitAnd, Add, Sub, LogNot, BitNot, Sizeof, New, Delete}
    case Postfixed => {Typeid, ConstCast, DynamicCast, ReinterpretCast, StaticCast}
    case Qualified => {ScopeRes}
    case _ => {}
  }

  /** The classes whose operators group to the right. */
  predicate RightRecursive(c: Class)
  {
    c.Assignment? || c.Unary? || c.Qualified?
  }

  /** How far a class is from the operands. */
  function Order(c: Class): (n: nat)
    ensures n <= 16
  {
    match c
    case Primary => 0
    case Qualified => 1
    case Postfixed => 2
    case Unary => 3
    case MemberPointer => 4
    case Multiplicative => 5
    case Additive => 6
    case Shift => 7
    case Relational => 8
    case Equality => 9
    case And => 10
    case ExclusiveOr => 11
    case InclusiveOr => 12
    case LogicalAnd => 13
    case LogicalOr => 14
    case Assignment => 15
    case Expression => 16
  }

  /** The phrase is derived from the class: an operand or parentheses, a phrase of the
      tighter class, or an operator of the class with its operands, one of which may
      be of the class again. */
  predicate Is(s: Syntax, c: Class)
    decreases s, Order(c)
  {
    if c.Primary? then s.Name? || (s.Parens? && Is(s.inner, Expression)) else
      || Is(s, Tighter(c))
      || (if RightRecursive(c) then
            || (s.Infix? && s.tok in Operators(c) && Is(s.left, Tighter(c)) && Is(s.right, c))
            || (s.Prefixed? && s.tok in Prefixes(c) && Is(s.arg, c))
          else
            || (s.Infix? && s.tok in Operators(c) && Is(s.left, c) && Is(s.right, Tighter(c)))
            || (s.Prefixed? && s.tok in Prefixes(c) && Is(s.arg, Tighter(c))))
      || (c.Postfixed?
          && (|| (s.Suffixed? && s.tok in {Inc, Dec} && Is(s.arg, c))
              || (s.Called? && Is(s.func, c) && forall k :: 0 <= k < |s.args| ==> Is(s.args[k], Assignment))
              || (s.Indexed? && Is(s.base, c) && Is(s.index, Expression))))
  }

  // ----------------------------------------------------------- text and tree

  /** The tokens of a phrase. */
  function Text(s: Syntax): (ts: seq<Token>)
    ensures |ts| > 0
    decreases s, 1
  {
    match s
    case Name(id) => [Operand(id)]
    case Parens(x) => [LParen] + Text(x) + [RParen]
    case Infix(l, tok, r) => Text(l) + [Oper(tok)] + Text(r)
    case Prefixed(tok, x) => [Oper(tok)] + Text(x)
    case Suffixed(x, tok) => Text(x) + [Oper(tok)]
    case Called(f, _) => Text(f) + ([LParen] + ArgsText(s, 0) + [RParen])
    case Indexed(a, i) => Text(a) + ([LSquare] + Text(i) + [RSquare])
  }

  /** The arguments of a call from k on, separated by commas. */
  function ArgsText(s: Syntax, k: nat): seq<Token>
    requires s.Called? && k <= |s.args|
    decreases s, 0, |s.args| - k
  {
    if k == |s.args| then []
    else if k + 1 == |s.args| then Text(s.args[k])
    else Text(s.args[k]) + [Oper(Comma)] + ArgsText(s, k + 1)
  }

  /** The tree of a phrase: the same without the parentheses. */
  function Tree(s: Syntax): Expr
    decreases s, 1
  {
    match s
    case Name(id) => Leaf(id)
    case Parens(x) => Tree(x)
    case Infix(l, tok, r) => Node(Binary(tok), [Tree(l), Tree(r)])
    case Prefixed(tok, x) => Node(Prefix(tok), [Tree(x)])
    case Suffixed(x, tok) => Node(Postfix(tok), [Tree(x)])
    case Called(f, _) => Node(Call, [Tree(f)] + Trees(s, 0))
    case Indexed(a, i) => Node(Subscript, [Tree(a), Tree(i)])
  }

  function Trees(s: Syntax, k: nat): (r: seq<Expr>)
    requires s.Called? && k <= |s.args|
    ensures |r| == |s.args| - k
    decreases s, 0, |s.args| - k
  {
    if k == |s.args| then [] else [Tree(s.args[k])] + Trees(s, k + 1)
  }

  // -------------------------------------------------------- the tables agree

  /** The precedence a phrase acts with as an operand. */
  function Strength(s: Syntax): int
  {
    match s
    case Name(_) => 16
    case Parens(_) => 16
    case Infix(_, tok, _) => Prec(Binary(tok))
    case Prefixed(tok, _) => Prec(Prefix(tok))
    case Suffixed(_, tok) => Prec(Postfix(tok))
    case Called(_, _) => Prec(Call)
    case Indexed(_, _) => Prec(Subscript)
  }

  /** Every operand is on the side of its operator on which the popping rule of the
      parser leaves it. */
  predicate Grouped(s: Syntax)
  {
    match s
    case Name(_) => true
    case Parens(x) => Grouped(x)
    case Infix(l, tok, r) =>
      && !IsUnaryTok(tok) && Grouped(l) && Grouped(r)
      && Pops(Strength(l), Strength(s)) && !Pops(Strength(s), Strength(r))
    case Prefixed(tok, x) => CanPrefix(tok) && Grouped(x) && !Pops(Strength(s), Strength(x))
    case Suffixed(x, tok) => CanPostfix(tok) && Grouped(x) && Pops(Strength(x), Strength(s))
    case Called(f, args) =>
      && Grouped(f) && Pops(Strength(f), Strength(s))
      && forall k :: 0 <= k < |args| ==> Grouped(args[k]) && Strength(args[k]) >= 1
    case Indexed(a, i) => Grouped(a) && Pops(Strength(a), Strength(s)) && Grouped(i)
  }

  /** The operators of a class are those of its level. */
  lemma OperatorsOfClass(t: TokOp, c: Class)
    ensures t in Operators(c) <==> !IsUnaryTok(t) && Prec(Binary(t)) == 16 - Order(c)
  {
  }

  lemma PrefixesOfClass(t: TokOp, c: Class)
    ensures t in Prefixes(c) <==> CanPrefix(t) && Prec(Prefix(t)) == 16 - Order(c)
  {
  }

  predicate Agrees(s: Syntax, c: Class)
  {
    Is(s, c) <==> Grouped(s) && 16 - Order(c) <= Strength(s)
  }

  /** The productions say what the tables say: a phrase is derived from a class
      exactly when it groups as the parser pops and binds no looser than the class. */
  lemma {:induction false} TablesAreGrammar(s: Syntax, c: Class)
    ensures Is(s, c) <==> Grouped(s) && 16 - Order(c) <= Strength(s)
    decreases s, Order(c)
  {
    hide Is, Grouped, Strength, Tighter;
    if c.Primary? {
      if s.Parens? { TablesAreGrammar(s.inner, Expression); }
      PrimaryAgrees(s);
    } else {
      var tighter := Tighter(c);
      TighterIsNext(c);
      TablesAreGrammar(s, tighter);
      match s {
        case Infix(l, _, r) =>
          TablesAreGrammar(l, c);
          TablesAreGrammar(l, tighter);
          TablesAreGrammar(r, c);
          TablesAreGrammar(r, tighter);
          InfixAgrees(s, c);
        case Prefixed(_, x) =>
          TablesAreGrammar(x, c);
          TablesAreGrammar(x, tighter);
          PrefixedAgrees(s, c);
        case _ =>
          if c.Postfixed? { OperandsAgree(s); }
          OthersAgree(s, c);
      }
    }
  }

  lemma {:induction false} OperandsAgree(s: Syntax)
    ensures s.Suffixed? ==> Agrees(s.arg, Postfixed)
    ensures s.Called? ==> Agrees(s.func, Postfixed) && forall k :: 0 <= k < |s.args| ==> Agrees(s.args[k], Assignment)
    ensures s.Indexed? ==> Agrees(s.base, Postfixed) && Agrees(s.index, Expression)
    decreases s, 0
  {
    match s {
      case Suffixed(x, _) => TablesAreGrammar(x, Postfixed);
      case Called(f, args) =>
        TablesAreGrammar(f, Postfixed);
        forall k | 0 <= k < |args| ensures Agrees(args[k], Assignment) { TablesAreGrammar(args[k], Assignment); }
      case Indexed(a, i) =>
        TablesAreGrammar(a, Postfixed);
        TablesAreGrammar(i, Expression);
      case _ =>
    }
  }

  lemma TighterIsNext(c: Class)
    requires !c.Primary?
    ensures Order(c) == 1 + Order(Tighter(c))
  {
  }

  lemma GroupsRight(c: Class)
    ensures RightRecursive(c) <==> !LeftToRight(16 - Order(c))
  {
  }

  lemma PrimaryAgrees(s: Syntax)
    requires s.Parens? ==> Agrees(s.inner, Expression)
    ensures Agrees(s, Primary)
  {
    StrengthAtMost(s);
  }

  lemma InfixAgrees(s: Syntax, c: Class)
    requires s.Infix? && !c.Primary? && Agrees(s, Tighter(c))
    requires Agrees(s.left, c) && Agrees(s.left, Tighter(c)) && Agrees(s.right, c) && Agrees(s.right, Tighter(c))
    ensures Agrees(s, c)
  {
    hide Operators, Prefixes, Prec, IsUnaryTok, Tighter;
    OperatorsOfClass(s.tok, c);
    TighterIsNext(c);
    StrengthAtMost(s);
    GroupsRight(c);
  }

  lemma PrefixedAgrees(s: Syntax, c: Class)
    requires s.Prefixed? && !c.Primary? && Agrees(s, Tighter(c))
    requires Agrees(s.arg, c) && Agrees(s.arg, Tighter(c))
    ensures Agrees(s, c)
  {
    hide Operators, Prefixes, Prec, CanPrefix, Tighter;
    PrefixesOfClass(s.tok, c);
    TighterIsNext(c);
    StrengthAtMost(s);
    GroupsRight(c);
  }

  lemma OthersAgree(s: Syntax, c: Class)
    requires !s.Infix? && !s.Prefixed? && !c.Primary? && Agrees(s, Tighter(c))
    requires c.Postfixed? ==>
               && (s.Suffixed? ==> Agrees(s.arg, Postfixed))
               && (s.Called? ==> Agrees(s.func, Postfixed) && forall k :: 0 <= k < |s.args| ==> Agrees(s.args[k], Assignment))
               && (s.Indexed? ==> Agrees(s.base, Postfixed) && Agrees(s.index, Expression))
    ensures Agrees(s, c)
  {
    hide Prec, Operators, Prefixes, Tighter;
    TighterIsNext(c);
    StrengthAtMost(s);
  }

  lemma StrengthAtMost(s: Syntax)
    ensures s.Name? || s.Parens? <==> Strength(s) == 16
    ensures 0 <= Strength(s) <= 16
    ensures s.Suffixed? || s.Called? || s.Indexed? ==> Strength(s) == 14
  {
  }
}
