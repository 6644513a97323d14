/** Printing a tree as the phrase of the grammar with the fewest parentheses, which the
    parser undoes. */
module ExprPrinter {
  import opened ExprOps
  import opened ExprParser
  import opened ExprGrammar
  import opened ExprReading

  /** Operators carry as many operands as they take. */
  predicate WellFormed(t: Expr)
  {
    match t
    case Leaf(_) => true
    case Node(op, args) =>
      && (match op
          case Binary(tok) => !IsUnaryTok(tok) && |args| == 2
          case Prefix(tok) => CanPrefix(tok) && |args| == 1
          case Postfix(tok) => CanPostfix(tok) && |args| == 1
          case Call => |args| >= 1
          case Subscript => |args| == 2)
      && forall a :: a in args ==> WellFormed(a)
  }

  function Guard(s: Syntax, bare: bool): Syntax
  {
    if bare then s else Parens(s)
  }

  /** A phrase for the tree.  An operand on the left needs no parentheses when its
      operator is popped by that of its parent, and one on the right when it does not
      pop it; a comma operator needs them as an argument. */
  function Phrase(t: Expr): (s: Syntax)
    requires WellFormed(t)
    decreases t, 1
  {
    match t
    case Leaf(id) => Name(id)
    case Node(op, args) =>
      var first := Phrase(args[0]);
      var left := Guard(first, Pops(Strength(first), Prec(op)));
      match op
      case Binary(tok) =>
        var second := Phrase(args[1]);
        Infix(left, tok, Guard(second, !Pops(Prec(op), Strength(second))))
      case Prefix(tok) => Prefixed(tok, Guard(first, !Pops(Prec(op), Strength(first))))
      case Postfix(tok) => Suffixed(left, tok)
      case Call => Called(left, ArgPhrases(t, 1))
      case Subscript => Indexed(left, Phrase(args[1]))
  }

  /** The arguments of a call from k on. */
  function ArgPhrases(t: Expr, k: nat): (r: seq<Syntax>)
    requires WellFormed(t) && t.Node? && k <= |t.args|
    ensures |r| == |t.args| - k
    decreases t, 0, |t.args| - k
  {
    if k == |t.args| then [] else
      var arg := Phrase(t.args[k]);
      [Guard(arg, Strength(arg) >= 1)] + ArgPhrases(t, k + 1)
  }

  function Print(t: Expr): seq<Token>
    requires WellFormed(t)
  {
    Text(Phrase(t))
  }

  // ------------------------------------------- the printed phrase and all others

  /** The phrase is an expression of the grammar, and its tree is the one printed. */
  lemma {:induction false} PhraseDerived(t: Expr)
    requires WellFormed(t)
    ensures Is(Phrase(t), Expression) && Tree(Phrase(t)) == t
    ensures !(t.Node? && t.op == Binary(Comma)) ==> Is(Phrase(t), Assignment)
  {
    hide Is, Phrase, Grouped, WellFormed, Tree;
    PhraseGrouped(t);
    StrengthOfTree(t);
    TablesAreGrammar(Phrase(t), Expression);
    TablesAreGrammar(Phrase(t), Assignment);
  }

  /** Only a comma operator is looser than an assignment. */
  lemma StrengthOfTree(t: Expr)
    requires WellFormed(t)
    ensures 0 <= Strength(Phrase(t)) <= 16
    ensures 1 <= Strength(Phrase(t)) <==> !(t.Node? && t.op == Binary(Comma))
    ensures t.Node? ==> Strength(Phrase(t)) == Prec(t.op)
  {
  }

  /** Parentheses put an operand on either side. */
  lemma GuardGroups(s: Syntax, op: ExprOp)
    requires Grouped(s)
    ensures var left := Guard(s, Pops(Strength(s), Prec(op)));
            Grouped(left) && Tree(left) == Tree(s) && Pops(Strength(left), Prec(op))
    ensures var right := Guard(s, !Pops(Prec(op), Strength(s)));
            Grouped(right) && Tree(right) == Tree(s) && !Pops(Prec(op), Strength(right))
  {
    PrecAtMost(op);
  }

  lemma PrecAtMost(op: ExprOp)
    ensures Prec(op) <= 15
  {
  }

  lemma {:induction false} PhraseGrouped(t: Expr)
    requires WellFormed(t)
    ensures Grouped(Phrase(t)) && Tree(Phrase(t)) == t
    decreases t, 1
  {
    hide Prec, Pops;
    match t {
      case Leaf(_) =>
      case Node(op, args) =>
        PhraseGrouped(args[0]);
        match op {
          case Binary(_) =>
            PhraseGrouped(args[1]);
            BinaryGrouped(t);
          case Prefix(_) => GuardGroups(Phrase(args[0]), op);
          case Postfix(_) => GuardGroups(Phrase(args[0]), op);
          case Call => CallGrouped(t);
          case Subscript =>
            PhraseGrouped(args[1]);
            GuardGroups(Phrase(args[0]), op);
        }
    }
  }

  lemma BinaryGrouped(t: Expr)
    requires WellFormed(t) && t.Node? && t.op.Binary?
    requires Grouped(Phrase(t.args[0])) && Tree(Phrase(t.args[0])) == t.args[0]
    requires Grouped(Phrase(t.args[1])) && Tree(Phrase(t.args[1])) == t.args[1]
    ensures Grouped(Phrase(t)) && Tree(Phrase(t)) == t
  {
    hide Prec, Pops, Guard;
    GuardGroups(Phrase(t.args[0]), t.op);
    GuardGroups(Phrase(t.args[1]), t.op);
  }

  lemma {:induction false} CallGrouped(t: Expr)
    requires WellFormed(t) && t.Node? && t.op.Call?
    requires Grouped(Phrase(t.args[0])) && Tree(Phrase(t.args[0])) == t.args[0]
    ensures Grouped(Phrase(t)) && Tree(Phrase(t)) == t
    decreases t, 0
  {
    hide Prec, Pops, Guard;
    GuardGroups(Phrase(t.args[0]), t.op);
    var s := Phrase(t);
    forall k | 1 <= k <= |s.args| ensures Grouped(Phrase(t.args[k])) && Tree(Phrase(t.args[k])) == t.args[k] {
      PhraseGrouped(t.args[k]);
    }
    ArgsGrouped(t, 1, s, 0);
    assert t.args == [t.args[0]] + t.args[1..];
  }

  lemma {:induction false} ArgsGrouped(t: Expr, k: nat, s: Syntax, j: nat)
    requires WellFormed(t) && t.Node? && 1 <= k <= |t.args| && s.Called? && j <= |s.args|
    requires s.args[j..] == ArgPhrases(t, k)
    requires forall i :: k <= i < |t.args| ==> Grouped(Phrase(t.args[i])) && Tree(Phrase(t.args[i])) == t.args[i]
    ensures forall i :: j <= i < |s.args| ==> Grouped(s.args[i]) && Strength(s.args[i]) >= 1
    ensures Trees(s, j) == t.args[k..]
    decreases |t.args| - k
  {
    hide Phrase, Prec, Pops, WellFormed;
    if k < |t.args| {
      assert s.args[j] == s.args[j..][0] && s.args[j + 1..] == s.args[j..][1..];
      ArgsGrouped(t, k + 1, s, j + 1);
    }
  }

  /** The trees of phrases are exactly the well-formed ones. */
  lemma {:induction false} TreeWellFormed(s: Syntax)
    requires Grouped(s)
    ensures WellFormed(Tree(s))
    decreases s, 1
  {
    hide Prec, Pops;
    match s {
      case Name(_) =>
      case Parens(x) => TreeWellFormed(x);
      case Infix(l, _, r) =>
        TreeWellFormed(l);
        TreeWellFormed(r);
      case Prefixed(_, x) => TreeWellFormed(x);
      case Suffixed(x, _) => TreeWellFormed(x);
      case Called(f, _) =>
        TreeWellFormed(f);
        ArgsWellFormed(s, 0);
      case Indexed(a, i) =>
        TreeWellFormed(a);
        TreeWellFormed(i);
    }
  }

  lemma {:induction false} ArgsWellFormed(s: Syntax, k: nat)
    requires s.Called? && Grouped(s) && k <= |s.args|
    ensures forall a :: a in Trees(s, k) ==> WellFormed(a)
    decreases s, 0, |s.args| - k
  {
    if k < |s.args| {
      TreeWellFormed(s.args[k]);
      ArgsWellFormed(s, k + 1);
    }
  }

  /** A phrase is no shorter than the printed one, and where it binds tighter it has
      parentheses that one has not. */
  ghost predicate NoShorter(s: Syntax)
    requires WellFormed(Tree(s))
  {
    var printed := Phrase(Tree(s));
    |Text(s)| >= |Text(printed)| + if Strength(s) > Strength(printed) then 2 else 0
  }

  lemma GuardedNoLonger(s: Syntax, bare: bool)
    requires WellFormed(Tree(s)) && NoShorter(s) && (Strength(s) <= Strength(Phrase(Tree(s))) ==> bare)
    ensures |Text(Guard(Phrase(Tree(s)), bare))| <= |Text(s)|
  {
  }

  lemma {:induction false} Shortest(s: Syntax)
    requires Grouped(s)
    ensures WellFormed(Tree(s)) && NoShorter(s)
    decreases s, 1
  {
    hide Prec, Pops, WellFormed, NoShorter;
    TreeWellFormed(s);
    match s {
      case Name(_) => assert NoShorter(s) by { NamesAreShort(s); }
      case Parens(x) =>
        Shortest(x);
        ParensLonger(s);
      case Infix(l, _, r) =>
        Shortest(l);
        Shortest(r);
        InfixNoShorter(s);
      case Prefixed(_, x) =>
        Shortest(x);
        PrefixedNoShorter(s);
      case Suffixed(x, _) =>
        Shortest(x);
        SuffixedNoShorter(s);
      case Called(f, _) =>
        Shortest(f);
        CalledNoShorter(s);
      case Indexed(a, i) =>
        Shortest(a);
        Shortest(i);
        IndexedNoShorter(s);
    }
  }

  lemma NamesAreShort(s: Syntax)
    requires s.Name?
    ensures NoShorter(s)
  {
  }

  lemma ParensLonger(s: Syntax)
    requires s.Parens? && WellFormed(Tree(s)) && NoShorter(s.inner)
    ensures NoShorter(s)
  {
  }

  lemma LeftFits(s: Syntax, p: int)
    requires WellFormed(Tree(s)) && NoShorter(s) && Pops(Strength(s), p)
    ensures |Text(Guard(Phrase(Tree(s)), Pops(Strength(Phrase(Tree(s))), p)))| <= |Text(s)|
  {
    hide Phrase, Text, Tree, Strength;
    GuardedNoLonger(s, Pops(Strength(Phrase(Tree(s))), p));
  }

  lemma RightFits(s: Syntax, p: int)
    requires WellFormed(Tree(s)) && NoShorter(s) && !Pops(p, Strength(s))
    ensures |Text(Guard(Phrase(Tree(s)), !Pops(p, Strength(Phrase(Tree(s))))))| <= |Text(s)|
  {
    hide Phrase, Text, Tree, Strength;
    GuardedNoLonger(s, !Pops(p, Strength(Phrase(Tree(s)))));
  }

  lemma InfixNoShorter(s: Syntax)
    requires s.Infix? && Grouped(s) && WellFormed(Tree(s)) && WellFormed(Tree(s.left)) && WellFormed(Tree(s.right))
    requires NoShorter(s.left) && NoShorter(s.right)
    ensures NoShorter(s)
  {
    hide Prec, Pops, Guard, WellFormed;
    LeftFits(s.left, Strength(s));
    RightFits(s.right, Strength(s));
  }

  lemma PrefixedNoShorter(s: Syntax)
    requires s.Prefixed? && Grouped(s) && WellFormed(Tree(s)) && WellFormed(Tree(s.arg)) && NoShorter(s.arg)
    ensures NoShorter(s)
  {
    hide Prec, Pops, Guard, WellFormed;
    RightFits(s.arg, Strength(s));
  }

  lemma SuffixedNoShorter(s: Syntax)
    requires s.Suffixed? && Grouped(s) && WellFormed(Tree(s)) && WellFormed(Tree(s.arg)) && NoShorter(s.arg)
    ensures NoShorter(s)
  {
    hide Prec, Pops, Guard, WellFormed;
    LeftFits(s.arg, Strength(s));
  }

  lemma IndexedNoShorter(s: Syntax)
    requires s.Indexed? && Grouped(s) && WellFormed(Tree(s)) && WellFormed(Tree(s.base)) && WellFormed(Tree(s.index))
    requires NoShorter(s.base) && NoShorter(s.index)
    ensures NoShorter(s)
  {
    hide Prec, Pops, Guard, WellFormed;
    LeftFits(s.base, Strength(s));
  }

  lemma {:induction false} CalledNoShorter(s: Syntax)
    requires s.Called? && Grouped(s) && WellFormed(Tree(s)) && WellFormed(Tree(s.func)) && NoShorter(s.func)
    ensures NoShorter(s)
    decreases s, 0
  {
    hide Prec, Pops, Guard, WellFormed;
    LeftFits(s.func, Strength(s));
    var t := Tree(s);
    forall k | 0 <= k < |s.args| ensures WellFormed(Tree(s.args[k])) && NoShorter(s.args[k]) { Shortest(s.args[k]); }
    assert t.args[1..] == Trees(s, 0);
    ArgsNoLonger(t, 1, Phrase(t), s, 0);
  }

  lemma {:induction false} ArgsNoLonger(t: Expr, k: nat, printed: Syntax, s: Syntax, j: nat)
    requires WellFormed(t) && t.Node? && k <= |t.args| && s.Called? && printed.Called?
    requires j <= |s.args| == |printed.args| && t.args[k..] == Trees(s, j) && printed.args[j..] == ArgPhrases(t, k)
    requires Grouped(s) && forall i :: 0 <= i < |s.args| ==> WellFormed(Tree(s.args[i])) && NoShorter(s.args[i])
    ensures |ArgsText(printed, j)| <= |ArgsText(s, j)|
    decreases |s.args| - j
  {
    hide Phrase, WellFormed, NoShorter;
    if j < |s.args| {
      var x := s.args[j];
      assert t.args[k] == t.args[k..][0] == Tree(x) && t.args[k + 1..] == t.args[k..][1..];
      assert printed.args[j] == printed.args[j..][0] && printed.args[j + 1..] == printed.args[j..][1..];
      GuardedNoLonger(x, Strength(Phrase(Tree(x))) >= 1);
      ArgsNoLonger(t, k + 1, printed, s, j + 1);
    }
  }

  /** Printing uses the fewest parentheses: no expression of the grammar with the same
      tree is shorter. */
  lemma FewestParentheses(s: Syntax)
    requires Is(s, Expression)
    ensures WellFormed(Tree(s)) && |Print(Tree(s))| <= |Text(s)|
  {
    hide Is, Grouped, Text, Phrase;
    TablesAreGrammar(s, Expression);
    Shortest(s);
  }

  /** The parser inverts the printer: a printed tree, followed by a token that ends
      expressions, is parsed back to the tree, up to that token and without a
      diagnostic. */
  lemma ParsePrint(toks: seq<Token>, i: nat, t: Expr, ends: set<EndType>)
    requires WellFormed(t) && At(toks, i, Print(t)) && (EndComma in ends ==> !(t.Node? && t.op == Binary(Comma)))
    requires i + |Print(t)| < |toks| && Ends(toks[i + |Print(t)|], ends)
    ensures Parse(toks, i, ends) == Parsed(t, i + |Print(t)|)
  {
    hide Parse, Text, At, Ends, Is, Phrase, WellFormed;
    PhraseDerived(t);
    ReadPhrase(toks, i, Phrase(t), ends);
  }

  /** No two trees print alike. */
  lemma PrintInjective(t: Expr, u: Expr)
    requires WellFormed(t) && WellFormed(u) && Print(t) == Print(u)
    ensures t == u
  {
    hide Text, Is, Phrase, WellFormed;
    PhraseDerived(t);
    PhraseDerived(u);
    Unambiguous(Phrase(t), Phrase(u));
  }
}
