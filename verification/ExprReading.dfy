/** The parser reads every phrase of the grammar, however many parentheses it has, as
    the tree the grammar gives it. */
module ExprReading {
  import opened ExprOps
  import opened ExprParser
  import opened ExprGrammar

  // --------------------------------------------------------- tokens in place

  /** The tokens ts stand at index i. */
  predicate At(toks: seq<Token>, i: nat, ts: seq<Token>)
  {
    i + |ts| <= |toks| && toks[i..i + |ts|] == ts
  }

  lemma AtBoth(toks: seq<Token>, i: nat, a: seq<Token>, b: seq<Token>)
    requires At(toks, i, a + b)
    ensures At(toks, i, a) && At(toks, i + |a|, b)
  {
    var ab := a + b;
    assert ab[..|a|] == a && ab[|a|..] == b;
    assert toks[i..i + |a|] == toks[i..i + |ab|][..|a|];
    assert toks[i + |a|..i + |ab|] == toks[i..i + |ab|][|a|..];
  }

  lemma AtOne(toks: seq<Token>, i: nat, x: Token)
    requires At(toks, i, [x])
    ensures i < |toks| && toks[i] == x
  {
    assert toks[i] == toks[i..i + 1][0];
  }

  lemma AtThree(toks: seq<Token>, i: nat, a: seq<Token>, x: Token, b: seq<Token>)
    requires At(toks, i, a + [x] + b)
    ensures At(toks, i, a) && i + |a| < |toks| && toks[i + |a|] == x && At(toks, i + |a| + 1, b)
  {
    AtBoth(toks, i, a + [x], b);
    AtBoth(toks, i, a, [x]);
    AtOne(toks, i + |a|, x);
  }

  /** What is in parentheses: the tokens between them and the closing one. */
  lemma AtParens(toks: seq<Token>, i: nat, l: Token, ts: seq<Token>, r: Token)
    requires At(toks, i, [l] + ts + [r])
    ensures i + 1 + |ts| < |toks| && toks[i] == l && At(toks, i + 1, ts) && toks[i + 1 + |ts|] == r
  {
    AtBoth(toks, i, [l] + ts, [r]);
    AtBoth(toks, i, [l], ts);
    AtOne(toks, i, l);
    AtOne(toks, i + 1 + |ts|, r);
  }

  // -------------------------------------------- printed brackets are balanced

  /** The depth inside a bracket that is counted, or is not. */
  function Inside(open: Token, l: Token, depth: nat): nat
  {
    if open == l then depth + 1 else depth
  }

  /** The search for a twin passes over a bracketed stretch it passes the inside
      of. */
  lemma SkipBrackets(toks: seq<Token>, i: nat, open: Token, n: nat, close: Token, depth: nat, l: Token, r: Token)
    requires IsBracketPair(open, close) && IsBracketPair(l, r)
    requires i + 1 + n < |toks| && toks[i] == open && toks[i + 1 + n] == close
    requires TwinFrom(toks, i + 1, Inside(open, l, depth), l, r) == TwinFrom(toks, i + 1 + n, Inside(open, l, depth), l, r)
    ensures TwinFrom(toks, i, depth, l, r) == TwinFrom(toks, i + n + 2, depth, l, r)
  {
    assert TwinFrom(toks, i, depth, l, r) == TwinFrom(toks, i + 1, Inside(open, l, depth), l, r);
  }

  lemma SkipPlain(toks: seq<Token>, i: nat, depth: nat, l: Token, r: Token)
    requires i < |toks| && (toks[i].Operand? || toks[i].Oper?) && IsBracketPair(l, r)
    ensures TwinFrom(toks, i, depth, l, r) == TwinFrom(toks, i + 1, depth, l, r)
  {
  }

  /** The pieces of a call or a subscript: the function or array, and what is between
      the brackets. */
  function Pieces(s: Syntax): (r: (Syntax, Token, seq<Token>, Token))
    requires s.Called? || s.Indexed?
    ensures r.0 < s && Text(s) == Text(r.0) + ([r.1] + r.2 + [r.3]) && IsBracketPair(r.1, r.3)
  {
    match s
    case Called(f, _) => (f, LParen, ArgsText(s, 0), RParen)
    case Indexed(a, i) => (a, LSquare, Text(i), RSquare)
  }

  lemma {:induction false} SkipText(toks: seq<Token>, i: nat, s: Syntax, depth: nat, l: Token, r: Token)
    requires At(toks, i, Text(s)) && IsBracketPair(l, r)
    ensures TwinFrom(toks, i, depth, l, r) == TwinFrom(toks, i + |Text(s)|, depth, l, r)
    decreases s, 1
  {
    hide TwinFrom, At, ArgsText, IsBracketPair;
    match s {
      case Name(id) =>
        AtOne(toks, i, Operand(id));
        SkipPlain(toks, i, depth, l, r);
      case Parens(x) => SkipParens(toks, i, s, depth, l, r);
      case Infix(x, tok, y) => SkipInfix(toks, i, s, depth, l, r);
      case Prefixed(tok, x) =>
        AtBoth(toks, i, [Oper(tok)], Text(x));
        AtOne(toks, i, Oper(tok));
        SkipPlain(toks, i, depth, l, r);
        SkipText(toks, i + 1, x, depth, l, r);
      case Suffixed(x, tok) =>
        AtBoth(toks, i, Text(x), [Oper(tok)]);
        AtOne(toks, i + |Text(x)|, Oper(tok));
        SkipText(toks, i, x, depth, l, r);
        SkipPlain(toks, i + |Text(x)|, depth, l, r);
      case _ => SkipBracketed(toks, i, s, depth, l, r);
    }
  }

  lemma {:induction false} SkipParens(toks: seq<Token>, i: nat, s: Syntax, depth: nat, l: Token, r: Token)
    requires s.Parens? && At(toks, i, Text(s)) && IsBracketPair(l, r)
    ensures TwinFrom(toks, i, depth, l, r) == TwinFrom(toks, i + |Text(s)|, depth, l, r)
    decreases s, 0
  {
    hide TwinFrom, At;
    var x := s.inner;
    AtParens(toks, i, LParen, Text(x), RParen);
    SkipText(toks, i + 1, x, Inside(LParen, l, depth), l, r);
    SkipBrackets(toks, i, LParen, |Text(x)|, RParen, depth, l, r);
  }

  lemma {:induction false} SkipInfix(toks: seq<Token>, i: nat, s: Syntax, depth: nat, l: Token, r: Token)
    requires s.Infix? && At(toks, i, Text(s)) && IsBracketPair(l, r)
    ensures TwinFrom(toks, i, depth, l, r) == TwinFrom(toks, i + |Text(s)|, depth, l, r)
    decreases s, 0
  {
    hide TwinFrom, At, IsBracketPair;
    var x, y := Text(s.left), Text(s.right);
    AtThree(toks, i, x, Oper(s.tok), y);
    SkipText(toks, i, s.left, depth, l, r);
    SkipPlain(toks, i + |x|, depth, l, r);
    SkipText(toks, i + |x| + 1, s.right, depth, l, r);
  }

  lemma {:induction false} SkipBracketed(toks: seq<Token>, i: nat, s: Syntax, depth: nat, l: Token, r: Token)
    requires (s.Called? || s.Indexed?) && At(toks, i, Text(s)) && IsBracketPair(l, r)
    ensures TwinFrom(toks, i, depth, l, r) == TwinFrom(toks, i + |Text(s)|, depth, l, r)
    decreases s, 0
  {
    hide TwinFrom, At, Text, ArgsText, IsBracketPair;
    var (first, open, ts, close) := Pieces(s);
    var a := Text(first);
    AtBoth(toks, i, a, [open] + ts + [close]);
    AtParens(toks, i + |a|, open, ts, close);
    SkipText(toks, i, first, depth, l, r);
    if s.Called? {
      SkipArgs(toks, i + |a| + 1, s, 0, Inside(open, l, depth), l, r);
    } else {
      SkipText(toks, i + |a| + 1, s.index, Inside(open, l, depth), l, r);
    }
    SkipBrackets(toks, i + |a|, open, |ts|, close, depth, l, r);
  }

  lemma {:induction false} SkipArgs(toks: seq<Token>, i: nat, s: Syntax, k: nat, depth: nat, l: Token, r: Token)
    requires s.Called? && k <= |s.args| && At(toks, i, ArgsText(s, k)) && IsBracketPair(l, r)
    ensures TwinFrom(toks, i, depth, l, r) == TwinFrom(toks, i + |ArgsText(s, k)|, depth, l, r)
    decreases s, 0, |s.args| - k
  {
    hide TwinFrom, At, Text;
    if k < |s.args| {
      var arg := Text(s.args[k]);
      if k + 1 == |s.args| {
        SkipText(toks, i, s.args[k], depth, l, r);
      } else {
        AtThree(toks, i, arg, Oper(Comma), ArgsText(s, k + 1));
        SkipText(toks, i, s.args[k], depth, l, r);
        SkipPlain(toks, i + |arg|, depth, l, r);
        SkipArgs(toks, i + |arg| + 1, s, k + 1, depth, l, r);
      }
    }
  }

  // ------------------------------------------------------------- reading it

  /** An operator of precedence p stays on top of what is pending. */
  predicate Blocks(ops: seq<Pending>, p: int)
  {
    |ops| > 0 ==> !Pops(Prec(ops[|ops| - 1].op), p)
  }

  lemma BlocksMore(ops: seq<Pending>, p: int, q: int)
    requires Blocks(ops, p) && p <= q
    ensures Blocks(ops, q)
  {
  }

  /** No token of the phrase outside brackets ends the expression. */
  predicate SafeFor(s: Syntax, ends: set<EndType>)
  {
    EndComma in ends ==> Strength(s) >= 1
  }

  /** After the n tokens of a phrase, popping for an operator of precedence p gives
      the same as if its tree were on the output and nothing of it pending. */
  ghost predicate Taken(s: State, s': State, t: Expr, n: nat, p: int)
  {
    && s'.i == s.i + n && !s'.mode && s'.diags == s.diags
    && forall q: int :: Pops(p, q) ==>
         PopWhile(s', q) == PopWhile(State(s'.i, s.out + [t], s.ops, false, s.diags), q)
  }

  lemma RunStep(toks: seq<Token>, s: State, t: State, ends: set<EndType>)
    requires s.i < |toks| && !Ends(toks[s.i], ends) && Step(toks, s) == Done(t)
    ensures Run(toks, s, ends) == Run(toks, t, ends)
  {
  }

  lemma RunLeaf(toks: seq<Token>, s: State, id: nat, ends: set<EndType>) returns (s': State)
    requires s.mode && s.i < |toks| && toks[s.i] == Operand(id)
    ensures Run(toks, s, ends) == Run(toks, s', ends) && Taken(s, s', Leaf(id), 1, 16)
  {
    s' := State(s.i + 1, s.out + [Leaf(id)], s.ops, false, s.diags);
    RunStep(toks, s, s', ends);
  }

  /** Nothing is popped past an operator that blocks. */
  lemma PushBlocked(s: State, p: int)
    requires Blocks(s.ops, p)
    ensures PopWhile(s, p) == s
  {
  }

  /** A binary or postfix operator after its left operand. */
  lemma RunInfix(toks: seq<Token>, s: State, s1: State, left: Expr, n: nat, q: int, op: ExprOp, ends: set<EndType>)
    returns (s2: State)
    requires Taken(s, s1, left, n, q) && Pops(q, Prec(op)) && Blocks(s.ops, Prec(op))
    requires (op.Binary? && !IsUnaryTok(op.tok)) || (op.Postfix? && CanPostfix(op.tok))
    requires s1.i < |toks| && toks[s1.i] == Oper(op.tok) && !Ends(Oper(op.tok), ends)
    ensures Run(toks, s1, ends) == Run(toks, s2, ends)
    ensures s2 == State(s1.i + 1, s.out + [left], s.ops + [Pending(op, [])], op.Binary?, s.diags)
  {
    hide PopWhile, Run, Prec;
    assert ToExprOp(op.tok, false) == (op, false);
    PushBlocked(State(s1.i, s.out + [left], s.ops, false, s.diags), Prec(op));
    s2 := State(s1.i + 1, s.out + [left], s.ops + [Pending(op, [])], op.Binary?, s.diags);
    assert PopWhile(s1, Prec(op)) == State(s1.i, s.out + [left], s.ops, false, s.diags);
    RunStep(toks, s1, s2, ends);
  }

  lemma RunPrefix(toks: seq<Token>, s: State, tok: TokOp, ends: set<EndType>) returns (s2: State)
    requires s.mode && CanPrefix(tok) && Blocks(s.ops, Prec(Prefix(tok)))
    requires s.i < |toks| && toks[s.i] == Oper(tok) && !Ends(Oper(tok), ends)
    ensures Run(toks, s, ends) == Run(toks, s2, ends)
    ensures s2 == State(s.i + 1, s.out, s.ops + [Pending(Prefix(tok), [])], true, s.diags)
  {
    hide PopWhile, Run, Prec;
    PushBlocked(s, Prec(Prefix(tok)));
    s2 := State(s.i + 1, s.out, s.ops + [Pending(Prefix(tok), [])], true, s.diags);
    RunStep(toks, s, s2, ends);
  }

  /** Popping a pending operator off the top applies it. */
  lemma PopTop(i: nat, out: seq<Expr>, ops: seq<Pending>, top: Pending, diags: nat, q: int)
    requires Pops(Prec(top.op), q)
    ensures var (out', d) := Apply(top, out);
            PopWhile(State(i, out, ops + [top], false, diags), q) == PopWhile(State(i, out', ops, false, diags + d), q)
  {
    assert (ops + [top])[..|ops|] == ops;
  }

  lemma PopsMore(p: int, p': int, q: int)
    requires Pops(p, q) && p <= p'
    ensures Pops(p', q)
  {
  }

  /** The operator on top has its last operand taken: the tree is complete. */
  lemma CompleteBinary(s: State, s2: State, s3: State, l: Expr, r: Expr, op: ExprOp, n: nat, n': nat, p: int)
    requires op.Binary? && s2 == State(s.i + n, s.out + [l], s.ops + [Pending(op, [])], true, s.diags)
    requires Taken(s2, s3, r, n', p) && Prec(op) <= p
    ensures Taken(s, s3, Node(op, [l, r]), n + n', Prec(op))
  {
    hide PopWhile, Prec;
    var t := Node(op, [l, r]);
    forall q: int | Pops(Prec(op), q)
      ensures PopWhile(s3, q) == PopWhile(State(s3.i, s.out + [t], s.ops, false, s.diags), q)
    {
      PopsMore(Prec(op), p, q);
      var out := s.out + [l] + [r];
      PopTop(s3.i, out, s.ops, Pending(op, []), s.diags, q);
      assert out[..|out| - 2] == s.out;
    }
  }

  lemma CompleteUnary(s: State, s2: State, s3: State, x: Expr, op: ExprOp, n: nat, n': nat, p: int)
    requires op.Prefix? && s2 == State(s.i + n, s.out, s.ops + [Pending(op, [])], true, s.diags)
    requires Taken(s2, s3, x, n', p) && Prec(op) <= p
    ensures Taken(s, s3, Node(op, [x]), n + n', Prec(op))
  {
    hide PopWhile, Prec;
    var t := Node(op, [x]);
    forall q: int | Pops(Prec(op), q)
      ensures PopWhile(s3, q) == PopWhile(State(s3.i, s.out + [t], s.ops, false, s.diags), q)
    {
      PopsMore(Prec(op), p, q);
      var out := s.out + [x];
      PopTop(s3.i, out, s.ops, Pending(op, []), s.diags, q);
      assert out[..|out| - 1] == s.out && [x] + [] == [x];
    }
  }

  /** A postfix operator, a call or a subscript is pending right after its
      operand. */
  lemma CompletePostfix(s: State, s2: State, x: Expr, op: Pending, n: nat)
    requires !op.op.Binary? && s2 == State(s.i + n, s.out + [x], s.ops + [op], false, s.diags)
    ensures Taken(s, s2, Node(op.op, [x] + op.args), n, Prec(op.op))
  {
    hide PopWhile, Prec;
    var t := Node(op.op, [x] + op.args);
    forall q: int | Pops(Prec(op.op), q)
      ensures PopWhile(s2, q) == PopWhile(State(s2.i, s.out + [t], s.ops, false, s.diags), q)
    {
      var out := s.out + [x];
      PopTop(s2.i, out, s.ops, op, s.diags, q);
      assert out[..|out| - 1] == s.out;
    }
  }

  lemma TwinHere(toks: seq<Token>, i: nat, l: Token, r: Token)
    requires i < |toks| && toks[i] == r && IsBracketPair(l, r)
    ensures TwinFrom(toks, i, 0, l, r) == Found(i)
  {
  }

  lemma {:induction false} RunText(toks: seq<Token>, st: State, s: Syntax, ends: set<EndType>) returns (st': State)
    requires Grouped(s) && At(toks, st.i, Text(s)) && st.mode && Blocks(st.ops, Strength(s)) && SafeFor(s, ends)
    ensures Run(toks, st, ends) == Run(toks, st', ends)
    ensures Taken(st, st', Tree(s), |Text(s)|, Strength(s))
    decreases s, 3
  {
    hide Run, At, Pops, PopWhile, ArgsText, Taken, Prec, Blocks, Grouped, SafeFor;
    match s {
      case Name(id) =>
        AtOne(toks, st.i, Operand(id));
        st' := RunLeaf(toks, st, id, ends);
      case Parens(_) => st' := RunParens(toks, st, s, ends);
      case Infix(_, _, _) => st' := RunBinary(toks, st, s, ends);
      case Prefixed(_, _) => st' := RunUnary(toks, st, s, ends);
      case Suffixed(_, _) => st' := RunPostfix(toks, st, s, ends);
      case Called(_, _) => st' := RunCall(toks, st, s, ends);
      case Indexed(_, _) => st' := RunSubscript(toks, st, s, ends);
    }
  }

  lemma {:induction false} RunParens(toks: seq<Token>, st: State, s: Syntax, ends: set<EndType>) returns (st': State)
    requires s.Parens? && Grouped(s) && At(toks, st.i, Text(s)) && st.mode
    ensures Run(toks, st, ends) == Run(toks, st', ends)
    ensures Taken(st, st', Tree(s), |Text(s)|, Strength(s))
    decreases s, 2
  {
    hide Run, At, Prec, Pops, PopWhile, TwinFrom, Parse;
    var x := s.inner;
    var ts := Text(x);
    AtParens(toks, st.i, LParen, ts, RParen);
    SkipText(toks, st.i + 1, x, 0, LParen, RParen);
    TwinHere(toks, st.i + 1 + |ts|, LParen, RParen);
    ReadGrouped(toks, st.i + 1, x, {EndRParen});
    st' := State(st.i + |ts| + 2, st.out + [Tree(x)], st.ops, false, st.diags);
    RunStep(toks, st, st', ends);
  }

  /** What an operand needs follows from what its parent does. */
  lemma LeftOperand(ops: seq<Pending>, s: Syntax, left: Syntax, ends: set<EndType>)
    requires Blocks(ops, Strength(s)) && SafeFor(s, ends) && Pops(Strength(left), Strength(s))
    ensures Blocks(ops, Strength(left)) && SafeFor(left, ends)
  {
    BlocksMore(ops, Strength(s), Strength(left));
  }

  lemma RightOperand(ops: seq<Pending>, op: Pending, s: Syntax, right: Syntax, ends: set<EndType>)
    requires Prec(op.op) == Strength(s) && SafeFor(s, ends) && !Pops(Strength(s), Strength(right))
    ensures Blocks(ops + [op], Strength(right)) && SafeFor(right, ends)
    ensures Strength(s) <= Strength(right)
  {
  }

  lemma StrengthIs(s: Syntax)
    ensures s.Infix? ==> Strength(s) == Prec(Binary(s.tok)) <= 15
    ensures s.Prefixed? ==> Strength(s) == Prec(Prefix(s.tok)) <= 15
    ensures s.Suffixed? ==> Strength(s) == Prec(Postfix(s.tok)) <= 15
    ensures s.Called? ==> Strength(s) == Prec(Call) <= 15
    ensures s.Indexed? ==> Strength(s) == Prec(Subscript) <= 15
  {
  }

  /** A comma is not taken for the end of a safe expression. */
  lemma NotAnEnd(s: Syntax, ends: set<EndType>)
    requires (s.Infix? || s.Prefixed? || s.Suffixed?) && Grouped(s) && SafeFor(s, ends)
    ensures !Ends(Oper(s.tok), ends)
  {
    hide Pops;
  }

  lemma {:induction false} RunBinary(toks: seq<Token>, st: State, s: Syntax, ends: set<EndType>) returns (st': State)
    requires s.Infix? && Grouped(s) && At(toks, st.i, Text(s)) && st.mode
    requires Blocks(st.ops, Strength(s)) && SafeFor(s, ends)
    ensures Run(toks, st, ends) == Run(toks, st', ends)
    ensures Taken(st, st', Tree(s), |Text(s)|, Strength(s))
    decreases s, 2
  {
    hide Run, At, Pops, PopWhile, Prec, Blocks, SafeFor, Ends, Strength;
    var l, r, op := s.left, s.right, Binary(s.tok);
    AtThree(toks, st.i, Text(l), Oper(s.tok), Text(r));
    StrengthIs(s);
    LeftOperand(st.ops, s, l, ends);
    NotAnEnd(s, ends);
    var s1 := RunText(toks, st, l, ends);
    var s2 := RunInfix(toks, st, s1, Tree(l), |Text(l)|, Strength(l), op, ends);
    RightOperand(st.ops, Pending(op, []), s, r, ends);
    st' := RunText(toks, s2, r, ends);
    CompleteBinary(st, s2, st', Tree(l), Tree(r), op, |Text(l)| + 1, |Text(r)|, Strength(r));
  }

  lemma {:induction false} RunUnary(toks: seq<Token>, st: State, s: Syntax, ends: set<EndType>) returns (st': State)
    requires s.Prefixed? && Grouped(s) && At(toks, st.i, Text(s)) && st.mode
    requires Blocks(st.ops, Strength(s)) && SafeFor(s, ends)
    ensures Run(toks, st, ends) == Run(toks, st', ends)
    ensures Taken(st, st', Tree(s), |Text(s)|, Strength(s))
    decreases s, 2
  {
    hide Run, At, Pops, PopWhile, Prec, Blocks, SafeFor, Ends, Strength;
    var x, op := s.arg, Prefix(s.tok);
    AtBoth(toks, st.i, [Oper(s.tok)], Text(x));
    AtOne(toks, st.i, Oper(s.tok));
    StrengthIs(s);
    NotAnEnd(s, ends);
    var s2 := RunPrefix(toks, st, s.tok, ends);
    RightOperand(st.ops, Pending(op, []), s, x, ends);
    st' := RunText(toks, s2, x, ends);
    CompleteUnary(st, s2, st', Tree(x), op, 1, |Text(x)|, Strength(x));
  }

  lemma {:induction false} RunPostfix(toks: seq<Token>, st: State, s: Syntax, ends: set<EndType>) returns (st': State)
    requires s.Suffixed? && Grouped(s) && At(toks, st.i, Text(s)) && st.mode
    requires Blocks(st.ops, Strength(s)) && SafeFor(s, ends)
    ensures Run(toks, st, ends) == Run(toks, st', ends)
    ensures Taken(st, st', Tree(s), |Text(s)|, Strength(s))
    decreases s, 2
  {
    hide Run, At, Pops, PopWhile, Prec, Blocks, SafeFor, Ends, Strength;
    var x, op := s.arg, Postfix(s.tok);
    AtBoth(toks, st.i, Text(x), [Oper(s.tok)]);
    AtOne(toks, st.i + |Text(x)|, Oper(s.tok));
    StrengthIs(s);
    LeftOperand(st.ops, s, x, ends);
    NotAnEnd(s, ends);
    var s1 := RunText(toks, st, x, ends);
    st' := RunInfix(toks, st, s1, Tree(x), |Text(x)|, Strength(x), op, ends);
    CompletePostfix(st, st', Tree(x), Pending(op, []), |Text(x)| + 1);
    assert [Tree(x)] + [] == [Tree(x)];
  }

  /** A call or subscript after its operand, once its arguments are parsed. */
  lemma PushBracketed(s: State, s1: State, x: Expr, n: nat, q: int, op: Pending, i: nat)
    requires Taken(s, s1, x, n, q) && Pops(q, Prec(op.op)) && Blocks(s.ops, Prec(op.op))
    ensures var p := PushOp(s1.(diags := s1.diags + 0), op);
            State(i, p.out, p.ops, false, p.diags) == State(i, s.out + [x], s.ops + [op], false, s.diags)
  {
    hide PopWhile, Prec;
    PushBlocked(State(s1.i, s.out + [x], s.ops, false, s.diags), Prec(op.op));
    assert s1.(diags := s1.diags + 0) == s1;
    assert PopWhile(s1, Prec(op.op)) == State(s1.i, s.out + [x], s.ops, false, s.diags);
  }

  lemma {:induction false} RunCall(toks: seq<Token>, st: State, s: Syntax, ends: set<EndType>) returns (st': State)
    requires s.Called? && Grouped(s) && At(toks, st.i, Text(s)) && st.mode
    requires Blocks(st.ops, Strength(s)) && SafeFor(s, ends)
    ensures Run(toks, st, ends) == Run(toks, st', ends)
    ensures Taken(st, st', Tree(s), |Text(s)|, Strength(s))
    decreases s, 2
  {
    hide Run, At, Pops, PopWhile, ArgsText, Text, Prec, Blocks, SafeFor, PushOp, TwinFrom, Arguments, Strength;
    var (f, open, ts, close) := Pieces(s);
    var a := Text(f);
    AtBoth(toks, st.i, a, [open] + ts + [close]);
    AtParens(toks, st.i + |a|, open, ts, close);
    StrengthIs(s);
    LeftOperand(st.ops, s, f, ends);
    var s1 := RunText(toks, st, f, ends);
    var rparen := s1.i + 1 + |ts|;
    SkipArgs(toks, s1.i + 1, s, 0, 0, LParen, RParen);
    TwinHere(toks, rparen, LParen, RParen);
    ReadArguments(toks, s1.i + 1, s, 0, rparen);
    var op := Pending(Call, Trees(s, 0));
    PushBracketed(st, s1, Tree(f), |a|, Strength(f), op, rparen + 1);
    st' := State(rparen + 1, st.out + [Tree(f)], st.ops + [op], false, st.diags);
    RunStep(toks, s1, st', ends);
    CompletePostfix(st, st', Tree(f), op, |Text(s)|);
  }

  lemma {:induction false} RunSubscript(toks: seq<Token>, st: State, s: Syntax, ends: set<EndType>) returns (st': State)
    requires s.Indexed? && Grouped(s) && At(toks, st.i, Text(s)) && st.mode
    requires Blocks(st.ops, Strength(s)) && SafeFor(s, ends)
    ensures Run(toks, st, ends) == Run(toks, st', ends)
    ensures Taken(st, st', Tree(s), |Text(s)|, Strength(s))
    decreases s, 2
  {
    hide Run, At, Pops, PopWhile, Text, Prec, Blocks, SafeFor, PushOp, TwinFrom, Parse, Strength;
    var (x, open, ts, close) := Pieces(s);
    var a := Text(x);
    AtBoth(toks, st.i, a, [open] + ts + [close]);
    AtParens(toks, st.i + |a|, open, ts, close);
    StrengthIs(s);
    LeftOperand(st.ops, s, x, ends);
    var s1 := RunText(toks, st, x, ends);
    var at := s1.i + 1 + |ts|;
    SkipText(toks, s1.i + 1, s.index, 0, LSquare, RSquare);
    TwinHere(toks, at, LSquare, RSquare);
    SafeWithoutComma(s.index, {EndRSquare});
    ReadGrouped(toks, s1.i + 1, s.index, {EndRSquare});
    var op := Pending(Subscript, [Tree(s.index)]);
    PushBracketed(st, s1, Tree(x), |a|, Strength(x), op, at + 1);
    st' := State(at + 1, st.out + [Tree(x)], st.ops + [op], false, st.diags);
    RunStep(toks, s1, st', ends);
    CompletePostfix(st, st', Tree(x), op, |Text(s)|);
    assert [Tree(x)] + [Tree(s.index)] == [Tree(x), Tree(s.index)];
  }

  lemma SafeWithoutComma(s: Syntax, ends: set<EndType>)
    requires EndComma !in ends
    ensures SafeFor(s, ends)
  {
  }

  /** A parse that ends at token end, without a diagnostic. */
  function Parsed(t: Expr, end: nat): Outcome<(Expr, nat, nat)>
  {
    Done((t, end, 0))
  }

  lemma EndOfParse(s0: State, s1: State, t: Expr, n: nat, p: int)
    requires s0.out == [] && s0.ops == [] && s0.diags == 0 && Taken(s0, s1, t, n, p) && p >= 0
    ensures Finish(s1) == Parsed(t, s0.i + n)
  {
    assert Pops(p, FlushAll);
    assert [] + [t] == [t];
    assert PopWhile(s1, FlushAll) == PopWhile(State(s1.i, [t], [], false, 0), FlushAll);
  }

  lemma {:induction false} ReadGrouped(toks: seq<Token>, i: nat, s: Syntax, ends: set<EndType>)
    requires Grouped(s) && At(toks, i, Text(s)) && SafeFor(s, ends)
    requires i + |Text(s)| < |toks| && Ends(toks[i + |Text(s)|], ends)
    ensures Parse(toks, i, ends) == Parsed(Tree(s), i + |Text(s)|)
    decreases s, 4
  {
    hide Text, At, Ends, SafeFor, Prec;
    var s0 := State(i, [], [], true, 0);
    var s1 := RunText(toks, s0, s, ends);
    assert Run(toks, s1, ends) == Done(s1);
    EndOfParse(s0, s1, Tree(s), |Text(s)|, Strength(s));
  }

  lemma {:induction false} ReadArguments(toks: seq<Token>, i: nat, s: Syntax, k: nat, rparen: nat)
    requires s.Called? && Grouped(s) && k <= |s.args| && At(toks, i, ArgsText(s, k))
    requires rparen == i + |ArgsText(s, k)| < |toks| && toks[rparen] == RParen
    ensures Arguments(toks, i, rparen) == Done((Trees(s, k), 0))
    decreases s, 0, |s.args| - k
  {
    hide Parse, At, Prec, Strength, Text, Arguments;
    if k == |s.args| {
      NoArgument(toks, rparen);
    } else {
      var arg, ends := Text(s.args[k]), {EndComma, EndRParen};
      if k + 1 == |s.args| {
        ReadGrouped(toks, i, s.args[k], ends);
        LastArgument(toks, i, Tree(s.args[k]), rparen);
      } else {
        AtThree(toks, i, arg, Oper(Comma), ArgsText(s, k + 1));
        ReadGrouped(toks, i, s.args[k], ends);
        ReadArguments(toks, i + |arg| + 1, s, k + 1, rparen);
        NextArgument(toks, i, Tree(s.args[k]), i + |arg|, Trees(s, k + 1), rparen);
      }
    }
  }

  lemma NoArgument(toks: seq<Token>, rparen: nat)
    requires rparen < |toks|
    ensures Arguments(toks, rparen, rparen) == Done(([], 0))
    ensures Arguments(toks, rparen + 1, rparen) == Done(([], 0))
  {
  }

  lemma LastArgument(toks: seq<Token>, i: nat, e: Expr, rparen: nat)
    requires i < rparen < |toks| && Parse(toks, i, {EndComma, EndRParen}) == Parsed(e, rparen)
    ensures Arguments(toks, i, rparen) == Done(([e] + [], 0))
  {
    hide Parse;
    NoArgument(toks, rparen);
  }

  lemma NextArgument(toks: seq<Token>, i: nat, e: Expr, j: nat, rest: seq<Expr>, rparen: nat)
    requires i < rparen < |toks| && Parse(toks, i, {EndComma, EndRParen}) == Parsed(e, j)
    requires Arguments(toks, j + 1, rparen) == Done((rest, 0))
    ensures Arguments(toks, i, rparen) == Done(([e] + rest, 0))
  {
    hide Parse;
  }

  // ------------------------------------------------------------ the grammar

  /** A phrase followed by a token that ends expressions, be it an expression of any
      kind or, where a comma ends it, one without a comma operator outside brackets,
      is parsed as its tree, up to that token and without a diagnostic. */
  lemma ReadPhrase(toks: seq<Token>, i: nat, s: Syntax, ends: set<EndType>)
    requires Is(s, if EndComma in ends then Assignment else Expression) && At(toks, i, Text(s))
    requires i + |Text(s)| < |toks| && Ends(toks[i + |Text(s)|], ends)
    ensures Parse(toks, i, ends) == Parsed(Tree(s), i + |Text(s)|)
  {
    hide Parse, Text, At, Ends, Is, Grouped;
    TablesAreGrammar(s, if EndComma in ends then Assignment else Expression);
    ReadGrouped(toks, i, s, ends);
  }

  /** The grammar is not ambiguous: phrases of the same tokens have the same tree. */
  lemma Unambiguous(s: Syntax, s': Syntax)
    requires Is(s, Expression) && Is(s', Expression) && Text(s) == Text(s')
    ensures Tree(s) == Tree(s')
  {
    hide Parse, Text, Is;
    var ts := Text(s);
    var toks := ts + [RParen];
    assert toks[0..|ts|] == ts;
    ReadPhrase(toks, 0, s, {EndRParen});
    ReadPhrase(toks, 0, s', {EndRParen});
  }
}
