/** How operators group side by side, by the classes of the grammar they belong to. */
module ExprGroups {
  import opened ExprOps
  import opened ExprParser
  import opened ExprGrammar
  import opened ExprReading

  /** A phrase of a class is one of every looser class. */
  lemma {:induction false} Loosen(s: Syntax, c: Class, d: Class)
    requires Is(s, c) && Order(c) <= Order(d)
    ensures Is(s, d)
    decreases Order(d)
  {
    if Order(c) < Order(d) {
      TighterIsNext(d);
      Loosen(s, c, Tighter(d));
    } else {
      SameOrder(c, d);
    }
  }

  lemma SameOrder(c: Class, d: Class)
    requires Order(c) == Order(d)
    ensures c == d
  {
  }

  lemma LoosenBoth(s: Syntax, c: Class, d: Class)
    requires Is(s, c) && Order(c) < Order(d)
    ensures Is(s, d) && Is(s, Tighter(d))
  {
    hide Is;
    TighterIsNext(d);
    Loosen(s, c, Tighter(d));
    Loosen(s, c, d);
  }

  /** Each operator of the first class takes its operand before one of the second
      class does: the first class is tighter, or they are one that groups to the
      left. */
  predicate First(c1: Class, c2: Class)
  {
    Order(c1) < Order(c2) || (c1 == c2 && !RightRecursive(c1))
  }

  /** What a whole token sequence is parsed as. */
  function Whole(ts: seq<Token>): Outcome<(Expr, nat, nat)>
  {
    Parse(ts + [RParen], 0, {EndRParen})
  }

  lemma ReadWhole(s: Syntax)
    requires Is(s, Expression)
    ensures Whole(Text(s)) == Parsed(Tree(s), |Text(s)|)
  {
    hide Is, Parse, Text;
    var toks := Text(s) + [RParen];
    assert toks[0..|Text(s)|] == Text(s);
    ReadPhrase(toks, 0, s, {EndRParen});
  }

  lemma InfixIs(l: Syntax, tok: TokOp, r: Syntax, c: Class, d: Class, e: Class)
    requires tok in Operators(c) && Is(l, d) && Is(r, e)
    requires First(d, c) && (Order(e) < Order(c) || (e == c && RightRecursive(c)))
    ensures Is(Infix(l, tok, r), c) && Is(Infix(l, tok, r), Expression)
    ensures Text(Infix(l, tok, r)) == Text(l) + [Oper(tok)] + Text(r)
    ensures Tree(Infix(l, tok, r)) == Node(Binary(tok), [Tree(l), Tree(r)])
  {
    hide Is, Operators, Tighter;
    if Order(d) < Order(c) { LoosenBoth(l, d, c); }
    if Order(e) < Order(c) { LoosenBoth(r, e, c); }
    InfixOf(l, tok, r, c);
    Loosen(Infix(l, tok, r), c, Expression);
  }

  lemma InfixOf(l: Syntax, tok: TokOp, r: Syntax, c: Class)
    requires tok in Operators(c)
    requires if RightRecursive(c) then Is(l, Tighter(c)) && Is(r, c) else Is(l, c) && Is(r, Tighter(c))
    ensures Is(Infix(l, tok, r), c)
  {
  }

  lemma PrefixedIs(tok: TokOp, x: Syntax, c: Class, d: Class)
    requires tok in Prefixes(c) && Is(x, d) && !First(c, d)
    ensures Is(Prefixed(tok, x), c) && Is(Prefixed(tok, x), Expression)
    ensures Text(Prefixed(tok, x)) == [Oper(tok)] + Text(x) && Tree(Prefixed(tok, x)) == Node(Prefix(tok), [Tree(x)])
  {
    hide Is;
    NotSame(c, d);
    if d != c { LoosenBoth(x, d, c); }
    PrefixedOf(tok, x, c);
    Loosen(Prefixed(tok, x), c, Expression);
  }

  lemma NotSame(c: Class, d: Class)
    requires !First(c, d)
    ensures Order(d) < Order(c) || (c == d && RightRecursive(c))
  {
    if Order(d) == Order(c) { SameOrder(c, d); }
  }

  lemma PrefixedOf(tok: TokOp, x: Syntax, c: Class)
    requires tok in Prefixes(c) && Is(x, if RightRecursive(c) then c else Tighter(c))
    ensures Is(Prefixed(tok, x), c)
  {
  }

  lemma SuffixedIs(x: Syntax, tok: TokOp, d: Class)
    requires tok in {Inc, Dec} && Is(x, d) && First(d, Postfixed)
    ensures Is(Suffixed(x, tok), Postfixed) && Is(Suffixed(x, tok), Expression)
    ensures Text(Suffixed(x, tok)) == Text(x) + [Oper(tok)] && Tree(Suffixed(x, tok)) == Node(Postfix(tok), [Tree(x)])
  {
    hide Is;
    if d != Postfixed { Loosen(x, d, Postfixed); }
    SuffixedOf(x, tok);
    Loosen(Suffixed(x, tok), Postfixed, Expression);
  }

  lemma SuffixedOf(x: Syntax, tok: TokOp)
    requires tok in {Inc, Dec} && Is(x, Postfixed)
    ensures Is(Suffixed(x, tok), Postfixed)
  {
  }

  lemma NameIs(a: nat)
    ensures Is(Name(a), Primary) && Text(Name(a)) == [Operand(a)] && Tree(Name(a)) == Leaf(a)
  {
  }

  lemma PrimaryIsFirst(tok: TokOp, c: Class)
    requires tok in Operators(c) || tok in Prefixes(c)
    ensures First(Primary, c) && !First(c, Primary) && Order(Primary) < Order(c) && First(Primary, Postfixed)
  {
  }

  // --------------------------------------------------------- two operators

  /** Two binary operators in a row. */
  lemma PairGroups(a: nat, op1: TokOp, b: nat, op2: TokOp, c: nat, c1: Class, c2: Class)
    requires op1 in Operators(c1) && op2 in Operators(c2)
    ensures Whole([Operand(a), Oper(op1), Operand(b), Oper(op2), Operand(c)]) ==
            Parsed(if First(c1, c2) then Node(Binary(op2), [Node(Binary(op1), [Leaf(a), Leaf(b)]), Leaf(c)])
                   else Node(Binary(op1), [Leaf(a), Node(Binary(op2), [Leaf(b), Leaf(c)])]), 5)
  {
    hide Is, Whole, Operators, Text, Tree, First, Order;
    PrimaryIsFirst(op1, c1);
    PrimaryIsFirst(op2, c2);
    var x, y, z := Name(a), Name(b), Name(c);
    NameIs(a);
    NameIs(b);
    NameIs(c);
    var s;
    if First(c1, c2) {
      InfixIs(x, op1, y, c1, Primary, Primary);
      s := Infix(Infix(x, op1, y), op2, z);
      InfixIs(Infix(x, op1, y), op2, z, c2, c1, Primary);
    } else {
      NotSame(c1, c2);
      InfixIs(y, op2, z, c2, Primary, Primary);
      s := Infix(x, op1, Infix(y, op2, z));
      InfixIs(x, op1, Infix(y, op2, z), c1, Primary, c2);
    }
    assert Text(s) == [Operand(a), Oper(op1), Operand(b), Oper(op2), Operand(c)];
    ReadWhole(s);
  }

  /** A prefix operator and a binary one. */
  lemma PrefixGroups(op1: TokOp, a: nat, op2: TokOp, b: nat, c1: Class, c2: Class)
    requires op1 in Prefixes(c1) && op2 in Operators(c2)
    ensures Whole([Oper(op1), Operand(a), Oper(op2), Operand(b)]) ==
            Parsed(if First(c1, c2) then Node(Binary(op2), [Node(Prefix(op1), [Leaf(a)]), Leaf(b)])
                   else Node(Prefix(op1), [Node(Binary(op2), [Leaf(a), Leaf(b)])]), 4)
  {
    hide Is, Whole, Operators, Prefixes, Text, Tree, First, Order;
    PrimaryIsFirst(op1, c1);
    PrimaryIsFirst(op2, c2);
    var x, y := Name(a), Name(b);
    NameIs(a);
    NameIs(b);
    var s;
    if First(c1, c2) {
      PrefixedIs(op1, x, c1, Primary);
      s := Infix(Prefixed(op1, x), op2, y);
      InfixIs(Prefixed(op1, x), op2, y, c2, c1, Primary);
    } else {
      InfixIs(x, op2, y, c2, Primary, Primary);
      s := Prefixed(op1, Infix(x, op2, y));
      PrefixedIs(op1, Infix(x, op2, y), c1, c2);
    }
    assert Text(s) == [Oper(op1), Operand(a), Oper(op2), Operand(b)];
    ReadWhole(s);
  }

  /** A binary operator and a postfix one. */
  lemma PostfixGroups(a: nat, op1: TokOp, b: nat, op2: TokOp, c1: Class)
    requires op1 in Operators(c1) && op2 in {Inc, Dec}
    ensures Whole([Operand(a), Oper(op1), Operand(b), Oper(op2)]) ==
            Parsed(if First(c1, Postfixed) then Node(Postfix(op2), [Node(Binary(op1), [Leaf(a), Leaf(b)])])
                   else Node(Binary(op1), [Leaf(a), Node(Postfix(op2), [Leaf(b)])]), 4)
  {
    hide Is, Whole, Operators, Text, Tree, First, Order;
    PrimaryIsFirst(op1, c1);
    var x, y := Name(a), Name(b);
    NameIs(a);
    NameIs(b);
    var s;
    if First(c1, Postfixed) {
      InfixIs(x, op1, y, c1, Primary, Primary);
      s := Suffixed(Infix(x, op1, y), op2);
      SuffixedIs(Infix(x, op1, y), op2, c1);
    } else {
      NotSame(c1, Postfixed);
      SuffixedIs(y, op2, Primary);
      s := Infix(x, op1, Suffixed(y, op2));
      InfixIs(x, op1, Suffixed(y, op2), c1, Primary, Postfixed);
    }
    assert Text(s) == [Operand(a), Oper(op1), Operand(b), Oper(op2)];
    ReadWhole(s);
  }

  /** A prefix operator and a postfix one. */
  lemma PrefixPostfixGroups(op1: TokOp, a: nat, op2: TokOp, c1: Class)
    requires op1 in Prefixes(c1) && op2 in {Inc, Dec}
    ensures Whole([Oper(op1), Operand(a), Oper(op2)]) ==
            Parsed(if First(c1, Postfixed) then Node(Postfix(op2), [Node(Prefix(op1), [Leaf(a)])])
                   else Node(Prefix(op1), [Node(Postfix(op2), [Leaf(a)])]), 3)
  {
    hide Is, Whole, Prefixes, Text, Tree, First, Order;
    PrimaryIsFirst(op1, c1);
    var x := Name(a);
    NameIs(a);
    var s;
    if First(c1, Postfixed) {
      PrefixedIs(op1, x, c1, Primary);
      s := Suffixed(Prefixed(op1, x), op2);
      SuffixedIs(Prefixed(op1, x), op2, c1);
    } else {
      SuffixedIs(x, op2, Primary);
      s := Prefixed(op1, Suffixed(x, op2));
      PrefixedIs(op1, Suffixed(x, op2), c1, Postfixed);
    }
    assert Text(s) == [Oper(op1), Operand(a), Oper(op2)];
    ReadWhole(s);
  }

  // ------------------------------------------------------- tokens in place

  /** Where an operand is expected, an operator is taken without a diagnostic exactly
      when a prefix operator of the grammar is written so, and elsewhere exactly when a
      postfix or a binary one is; and it is taken for that. */
  lemma InPlace(t: TokOp)
    ensures var (op, misplaced) := ToExprOp(t, true);
            (!misplaced <==> exists c :: t in Prefixes(c)) && (!misplaced ==> op == Prefix(t))
    ensures var (op, misplaced) := ToExprOp(t, false);
            && (!misplaced <==> t in {Inc, Dec} || exists c :: t in Operators(c))
            && (!misplaced ==> op == if t in {Inc, Dec} then Postfix(t) else Binary(t))
  {
    hide Prec;
    if CanPrefix(t) { ClassOfPrefix(t); }
    if !IsUnaryTok(t) { ClassOfOperator(t); }
    forall c ensures t in Prefixes(c) ==> CanPrefix(t) { PrefixesOfClass(t, c); }
    forall c ensures t in Operators(c) ==> !IsUnaryTok(t) { OperatorsOfClass(t, c); }
  }

  /** What a turn without a new diagnostic has read: an operand where one is expected,
      an operator the grammar has in that place, a bracket that is closed before the
      input ends, an index only after an operand, or a token that is skipped. */
  lemma TurnInPlace(toks: seq<Token>, s: State)
    requires s.i < |toks| && Step(toks, s).Done? && Step(toks, s).value.diags == s.diags
    ensures match toks[s.i]
            case Operand(_) => s.mode
            case Oper(t) =>
              if s.mode then exists c :: t in Prefixes(c) else t in {Inc, Dec} || exists c :: t in Operators(c)
            case LParen => TwinFrom(toks, s.i + 1, 0, LParen, RParen).Found?
            case LSquare => !s.mode && TwinFrom(toks, s.i + 1, 0, LSquare, RSquare).Found?
            case _ => Step(toks, s).value == s.(i := s.i + 1)
  {
    hide PushOp, TwinFrom, Parse, ExprParser.Arguments, ToExprOp;
    match toks[s.i] {
      case Oper(t) => InPlace(t);
      case _ =>
    }
  }

  lemma ClassOfPrefix(t: TokOp)
    requires CanPrefix(t)
    ensures exists c :: t in Prefixes(c)
  {
    var c := AtLevel(Level(Prefix(t)));
    PrefixesOfClass(t, c);
    assert t in Prefixes(c);
  }

  lemma ClassOfOperator(t: TokOp)
    requires !IsUnaryTok(t)
    ensures exists c :: t in Operators(c)
  {
    var c := AtLevel(Level(Binary(t)));
    OperatorsOfClass(t, c);
    assert t in Operators(c);
  }

  function AtLevel(n: nat): (c: Class)
    requires n <= 16
    ensures Order(c) == n
  {
    if n == 0 then Primary
    else if n == 1 then Qualified
    else if n == 2 then Postfixed
    else if n == 3 then Unary
    else if n == 4 then MemberPointer
    else if n == 5 then Multiplicative
    else if n == 6 then Additive
    else if n == 7 then Shift
    else if n == 8 then Relational
    else if n == 9 then Equality
    else if n == 10 then And
    else if n == 11 then ExclusiveOr
    else if n == 12 then InclusiveOr
    else if n == 13 then LogicalAnd
    else if n == 14 then LogicalOr
    else if n == 15 then Assignment
    else Expression
  }
}
