/** What every run of the parser keeps, on any tokens. */
module ExprRuns {
  import opened ExprOps
  import opened ExprParser

  function Binaries(ops: seq<Pending>): (n: nat)
    ensures n <= |ops|
  {
    if |ops| == 0 then 0 else Binaries(ops[..|ops| - 1]) + if IsBinary(ops[|ops| - 1].op) then 1 else 0
  }

  /** One tree on the output for each pending binary operator, and one more when an
      operand has just been read. */
  predicate Balanced(s: State)
  {
    |s.out| == Binaries(s.ops) + if s.mode then 0 else 1
  }

  /** Applying the top operator. */
  lemma ApplyBalanced(s: State)
    requires Balanced(s) && |s.ops| > 0
    ensures var (out, d) := Apply(s.ops[|s.ops| - 1], s.out);
            && (d == 0 ==> Balanced(State(s.i, out, s.ops[..|s.ops| - 1], s.mode, s.diags + d)))
            && (!s.mode ==> d == 0)
  {
  }

  /** Popping keeps the balance as long as no operator lacks operands, and after an
      operand none does. */
  lemma {:induction false} PopBalanced(s: State, p: int)
    requires Balanced(s)
    ensures PopWhile(s, p).diags == s.diags ==> Balanced(PopWhile(s, p))
    ensures !s.mode ==> PopWhile(s, p).diags == s.diags
    decreases |s.ops|
  {
    hide Prec, Pops, Apply, Balanced;
    if |s.ops| > 0 && Pops(Prec(s.ops[|s.ops| - 1].op), p) {
      var (out, d) := Apply(s.ops[|s.ops| - 1], s.out);
      var t := State(s.i, out, s.ops[..|s.ops| - 1], s.mode, s.diags + d);
      ApplyBalanced(s);
      assert PopWhile(s, p) == PopWhile(t, p);
      if d == 0 { PopBalanced(t, p); }
    }
  }

  /** Pushing an operator from a balanced state. */
  lemma PushBalanced(s: State, op: Pending, mode: bool, i: nat)
    requires Balanced(s) && (if IsBinary(op.op) then !s.mode && mode else s.mode == mode)
    ensures PushOp(s, op).diags == s.diags ==>
            Balanced(State(i, PushOp(s, op).out, PushOp(s, op).ops, mode, s.diags))
  {
    hide PopWhile;
    PopBalanced(s, Prec(op.op));
    var t := PopWhile(s, Prec(op.op));
    assert (t.ops + [op])[..|t.ops|] == t.ops;
  }

  /** A turn without a new diagnostic keeps the balance. */
  lemma StepBalanced(toks: seq<Token>, s: State)
    requires s.i < |toks| && Balanced(s)
    ensures Step(toks, s).Done? && Step(toks, s).value.diags == s.diags ==> Balanced(Step(toks, s).value)
  {
    hide PopWhile, PushOp, Prec, Parse, Arguments, TwinFrom;
    var r := Step(toks, s);
    if r.Done? && r.value.diags == s.diags {
      match toks[s.i] {
        case Oper(t) =>
          var (op, _) := ToExprOp(t, s.mode);
          PushBalanced(s, Pending(op, []), !op.Postfix?, s.i + 1);
          assert s.(diags := s.diags + 0) == s;
        case LParen =>
          if !s.mode { CallBalanced(toks, s); }
        case LSquare =>
          SubscriptBalanced(toks, s);
        case _ =>
      }
    }
  }

  /** A call or a subscript is pushed after an operand. */
  lemma BracketBalanced(s: State, d: nat, op: Pending, i: nat)
    requires Balanced(s) && !s.mode && !IsBinary(op.op)
    requires PushOp(s.(diags := s.diags + d), op).diags == s.diags
    ensures var p := PushOp(s.(diags := s.diags + d), op);
            Balanced(State(i, p.out, p.ops, false, p.diags))
  {
    hide PushOp, Balanced;
    assert d == 0 && s.(diags := s.diags + d) == s;
    PushBalanced(s, op, false, i);
  }

  lemma CallBalanced(toks: seq<Token>, s: State)
    requires s.i < |toks| && toks[s.i] == LParen && Balanced(s) && !s.mode
    requires CallStep(toks, s).Done? && CallStep(toks, s).value.diags == s.diags
    ensures Balanced(CallStep(toks, s).value)
  {
    hide PushOp, Prec, Parse, Arguments, TwinFrom, Balanced;
    var twin := TwinFrom(toks, s.i + 1, 0, LParen, RParen);
    if twin.Found? {
      var args := Arguments(toks, s.i + 1, twin.at);
      BracketBalanced(s, args.value.1, Pending(Call, args.value.0), twin.at + 1);
    }
  }

  lemma SubscriptBalanced(toks: seq<Token>, s: State)
    requires s.i < |toks| && toks[s.i] == LSquare && Balanced(s)
    requires SubscriptStep(toks, s).Done? && SubscriptStep(toks, s).value.diags == s.diags
    ensures Balanced(SubscriptStep(toks, s).value)
  {
    hide PushOp, Prec, Parse, TwinFrom, Balanced;
    var twin := TwinFrom(toks, s.i + 1, 0, LSquare, RSquare);
    var idx := Parse(toks, s.i + 1, {EndRSquare});
    if !s.mode {
      var here := if twin.Missing? then 1 else 0;
      BracketBalanced(s, idx.value.2 + here, Pending(Subscript, [idx.value.0]),
                      if twin.Found? then twin.at + 1 else s.i + 1);
    }
  }

  /** So does a whole run. */
  lemma {:induction false} RunBalanced(toks: seq<Token>, s: State, ends: set<EndType>)
    requires Balanced(s)
    ensures Run(toks, s, ends).Done? && Run(toks, s, ends).value.diags == s.diags ==> Balanced(Run(toks, s, ends).value)
    decreases |toks| - s.i
  {
    hide Step, Ends, Balanced;
    if s.i < |toks| && !Ends(toks[s.i], ends) {
      var r := Step(toks, s);
      if r.Done? && r.value.diags == s.diags {
        StepBalanced(toks, s);
        RunBalanced(toks, r.value, ends);
      }
    }
  }

  /** After a run without diagnostics the parser ends with one tree, and without a
      diagnostic, exactly when the last thing read was an operand; then the mismatch
      of operators and operands is out of reach. */
  lemma CleanParse(toks: seq<Token>, i: nat, ends: set<EndType>)
    ensures var run := Run(toks, State(i, [], [], true, 0), ends);
            run.Done? && run.value.diags == 0 ==>
              ((Parse(toks, i, ends).Done? && Parse(toks, i, ends).value.2 == 0) <==> !run.value.mode)
  {
    hide PopWhile, Run;
    var s0 := State(i, [], [], true, 0);
    RunBalanced(toks, s0, ends);
    var run := Run(toks, s0, ends);
    if run.Done? && run.value.diags == 0 {
      PopBalanced(run.value, FlushAll);
      Flushed(run.value);
    }
  }

  /** Flushing leaves nothing pending. */
  lemma {:induction false} Flushed(s: State)
    ensures PopWhile(s, FlushAll).ops == []
    decreases |s.ops|
  {
    if |s.ops| > 0 {
      var top := s.ops[|s.ops| - 1];
      var (out, d) := Apply(top, s.out);
      Flushed(State(s.i, out, s.ops[..|s.ops| - 1], s.mode, s.diags + d));
    }
  }

  // ------------------------------------------------- runs that go wrong

  lemma TakeOperand(toks: seq<Token>, s: State, ends: set<EndType>, id: nat)
    requires s.i < |toks| && toks[s.i] == Operand(id) && s.mode
    ensures Run(toks, s, ends) == Run(toks, State(s.i + 1, s.out + [Leaf(id)], s.ops, false, s.diags), ends)
  {
  }

  lemma TakeOperator(toks: seq<Token>, s: State, ends: set<EndType>, tok: TokOp, op: ExprOp, t: State)
    requires s.i < |toks| && toks[s.i] == Oper(tok) && tok != Comma && ToExprOp(tok, s.mode) == (op, false)
    requires PushOp(s, Pending(op, [])) == t
    ensures Run(toks, s, ends) == Run(toks, State(s.i + 1, t.out, t.ops, !op.Postfix?, t.diags), ends)
  {
    hide PushOp, ToExprOp;
    assert s.(diags := s.diags + 0) == s;
  }

  lemma PushesOn(s: State, op: Pending)
    requires |s.ops| > 0 ==> !Pops(Prec(s.ops[|s.ops| - 1].op), Prec(op.op))
    ensures PushOp(s, op) == s.(ops := s.ops + [op])
  {
  }

  lemma PopsOne(s: State, top: Pending, op: Pending)
    requires s.ops == [top] && Pops(Prec(top.op), Prec(op.op))
    ensures var (out, d) := Apply(top, s.out);
            PushOp(s, op) == State(s.i, out, [op], s.mode, s.diags + d)
  {
    var (out, d) := Apply(top, s.out);
    var t := State(s.i, out, [], s.mode, s.diags + d);
    assert s.ops[..0] == [];
    assert PopWhile(t, Prec(op.op)) == t;
  }

  /** a . - b: the prefix operator pops the selection before its right operand has
      come; that is diagnosed, and the parser stops at the mismatch. */
  lemma PrefixPopsSelection(a: nat, b: nat)
    ensures Parse([Operand(a), Oper(MembSel), Oper(Sub), Operand(b), RParen], 0, {EndRParen}) == Mismatch
  {
    hide *;
    var toks, ends := [Operand(a), Oper(MembSel), Oper(Sub), Operand(b), RParen], {EndRParen};
    var minus := Pending(Prefix(Sub), []);
    var end := State(4, [Leaf(a)] + [Leaf(b)], [minus], false, 1);
    TakeSelection(toks, a, ends);
    TakeMinus(toks, a, b, ends);
    ParenEnds();
    LastState(toks, end, ends);
    ParseOf(toks, 0, ends, end);
    NotBinary();
    PopsLast(end, minus);
  }

  lemma TakeSelection(toks: seq<Token>, a: nat, ends: set<EndType>)
    requires |toks| > 1 && toks[0] == Operand(a) && toks[1] == Oper(MembSel)
    ensures Run(toks, State(0, [], [], true, 0), ends)
         == Run(toks, State(2, [Leaf(a)], [Pending(Binary(MembSel), [])], true, 0), ends)
  {
    hide *;
    var select, la := Pending(Binary(MembSel), []), [Leaf(a)];
    SelectionOverMinus();
    assert [] + [Leaf(a)] == la;
    TakeOperand(toks, State(0, [], [], true, 0), ends, a);
    PushesOn(State(1, la, [], false, 0), select);
    assert [] + [select] == [select];
    TakeOperator(toks, State(1, la, [], false, 0), ends, MembSel, Binary(MembSel), State(1, la, [select], false, 0));
  }

  lemma TakeMinus(toks: seq<Token>, a: nat, b: nat, ends: set<EndType>)
    requires |toks| > 3 && toks[2] == Oper(Sub) && toks[3] == Operand(b)
    ensures Run(toks, State(2, [Leaf(a)], [Pending(Binary(MembSel), [])], true, 0), ends)
         == Run(toks, State(4, [Leaf(a)] + [Leaf(b)], [Pending(Prefix(Sub), [])], false, 1), ends)
  {
    hide *;
    var select, minus, la := Pending(Binary(MembSel), []), Pending(Prefix(Sub), []), [Leaf(a)];
    SelectionOverMinus();
    LacksOperand(select, la);
    PopsOne(State(2, la, [select], true, 0), select, minus);
    TakeOperator(toks, State(2, la, [select], true, 0), ends, Sub, Prefix(Sub), State(2, la, [minus], true, 1));
    TakeOperand(toks, State(3, la, [minus], true, 1), ends, b);
  }

  lemma LacksOperand(op: Pending, out: seq<Expr>)
    requires op.op.Binary? && |out| == 1
    ensures Apply(op, out) == (out, 1)
  {
  }

  lemma ParseOf(toks: seq<Token>, i: nat, ends: set<EndType>, s: State)
    requires Run(toks, State(i, [], [], true, 0), ends) == Done(s)
    ensures Parse(toks, i, ends) == Finish(s)
  {
    hide Run;
  }

  lemma SelectionOverMinus()
    ensures Pops(Prec(Binary(MembSel)), Prec(Prefix(Sub)))
    ensures !Pops(Prec(Postfix(Inc)), Prec(Binary(ScopeRes)))
    ensures ToExprOp(MembSel, false) == (Binary(MembSel), false) && ToExprOp(Sub, true) == (Prefix(Sub), false)
    ensures ToExprOp(Inc, false) == (Postfix(Inc), false) && ToExprOp(ScopeRes, false) == (Binary(ScopeRes), false)
  {
  }

  lemma LastState(toks: seq<Token>, s: State, ends: set<EndType>)
    requires s.i < |toks| && Ends(toks[s.i], ends)
    ensures Run(toks, s, ends) == Done(s)
  {
  }

  lemma PopsLast(s: State, top: Pending)
    requires s.ops == [top] && |s.out| == 2 && !IsBinary(top.op)
    ensures Finish(s) == Mismatch
  {
    var (out, d) := Apply(top, s.out);
    var t := State(s.i, out, [], s.mode, s.diags + d);
    assert s.ops[..0] == [];
    assert PopWhile(s, FlushAll) == PopWhile(t, FlushAll) == t;
  }

  /** a + b . - c: with a sum pending there is an operand more for the selection to
      take, so nothing is diagnosed; the tree is (a . b) + (- c). */
  lemma SelectionTakesSum(a: nat, b: nat, c: nat)
    ensures Parse([Operand(a), Oper(Add), Operand(b), Oper(MembSel), Oper(Sub), Operand(c), RParen], 0, {EndRParen})
         == Done((Node(Binary(Add), [Node(Binary(MembSel), [Leaf(a), Leaf(b)]), Node(Prefix(Sub), [Leaf(c)])]), 6, 0))
  {
    hide *;
    var toks, ends := [Operand(a), Oper(Add), Operand(b), Oper(MembSel), Oper(Sub), Operand(c), RParen], {EndRParen};
    var sum, minus := Pending(Binary(Add), []), Pending(Prefix(Sub), []);
    var ab := Node(Binary(MembSel), [Leaf(a), Leaf(b)]);
    var end := State(6, [ab] + [Leaf(c)], [sum] + [minus], false, 0);
    TakeSumAndSelection(toks, a, b, ends);
    TakeMinusAfter(toks, a, b, c, ends);
    ParenEnds();
    LastState(toks, end, ends);
    ParseOf(toks, 0, ends, end);
    FinishPrefixed(end, sum, minus, ab, Leaf(c));
  }

  lemma TakeSumAndSelection(toks: seq<Token>, a: nat, b: nat, ends: set<EndType>)
    requires |toks| > 4 && toks[0] == Operand(a) && toks[1] == Oper(Add) && toks[2] == Operand(b) && toks[3] == Oper(MembSel)
    ensures var sum, select := Pending(Binary(Add), []), Pending(Binary(MembSel), []);
            Run(toks, State(0, [], [], true, 0), ends)
            == Run(toks, State(4, [Leaf(a)] + [Leaf(b)], [sum] + [select], true, 0), ends)
  {
    hide *;
    TakeInfixAfter(toks, State(0, [], [], true, 0), a, Add, ends);
    assert [] + [Leaf(a)] == [Leaf(a)] && [] + [Pending(Binary(Add), [])] == [Pending(Binary(Add), [])];
    TakeInfixAfter(toks, State(2, [Leaf(a)], [Pending(Binary(Add), [])], true, 0), b, MembSel, ends);
  }

  /** An operand and an infix operator that pops nothing. */
  lemma TakeInfixAfter(toks: seq<Token>, s: State, id: nat, tok: TokOp, ends: set<EndType>)
    requires s.i + 1 < |toks| && toks[s.i] == Operand(id) && toks[s.i + 1] == Oper(tok) && s.mode
    requires tok == Add || tok == MembSel
    requires s.ops == [] || (s.ops == [Pending(Binary(Add), [])] && tok == MembSel)
    ensures Run(toks, s, ends)
         == Run(toks, State(s.i + 2, s.out + [Leaf(id)], s.ops + [Pending(Binary(tok), [])], true, s.diags), ends)
  {
    hide *;
    SumUnderSelection();
    TakeOperand(toks, s, ends, id);
    var t := State(s.i + 1, s.out + [Leaf(id)], s.ops, false, s.diags);
    PushesOn(t, Pending(Binary(tok), []));
    InfixGoesOn(tok);
    TakeOperator(toks, t, ends, tok, Binary(tok), t.(ops := t.ops + [Pending(Binary(tok), [])]));
  }

  lemma InfixGoesOn(tok: TokOp)
    ensures Binary(tok) != Postfix(tok) && !Binary(tok).Postfix?
  {
  }

  lemma TakeMinusAfter(toks: seq<Token>, a: nat, b: nat, c: nat, ends: set<EndType>)
    requires |toks| > 5 && toks[4] == Oper(Sub) && toks[5] == Operand(c)
    ensures var sum, select, minus := Pending(Binary(Add), []), Pending(Binary(MembSel), []), Pending(Prefix(Sub), []);
            Run(toks, State(4, [Leaf(a)] + [Leaf(b)], [sum] + [select], true, 0), ends)
            == Run(toks, State(6, [Node(Binary(MembSel), [Leaf(a), Leaf(b)])] + [Leaf(c)], [sum] + [minus], false, 0), ends)
  {
    hide *;
    var sum, select, minus := Pending(Binary(Add), []), Pending(Binary(MembSel), []), Pending(Prefix(Sub), []);
    var ab := Node(Binary(MembSel), [Leaf(a), Leaf(b)]);
    SumUnderSelection();
    PopsSecond(State(4, [Leaf(a)] + [Leaf(b)], [sum] + [select], true, 0), sum, select, minus, Leaf(a), Leaf(b));
    TakeOperator(toks, State(4, [Leaf(a)] + [Leaf(b)], [sum] + [select], true, 0), ends, Sub, Prefix(Sub),
                 State(4, [ab], [sum] + [minus], true, 0));
    TakeOperand(toks, State(5, [ab], [sum] + [minus], true, 0), ends, c);
  }

  lemma SumUnderSelection()
    ensures ToExprOp(Add, false) == (Binary(Add), false) && ToExprOp(MembSel, false) == (Binary(MembSel), false)
    ensures ToExprOp(Sub, true) == (Prefix(Sub), false)
    ensures !Pops(Prec(Binary(Add)), Prec(Binary(MembSel))) && !Pops(Prec(Binary(Add)), Prec(Prefix(Sub)))
    ensures Pops(Prec(Binary(MembSel)), Prec(Prefix(Sub)))
  {
  }

  lemma PopsSecond(s: State, first: Pending, second: Pending, op: Pending, x: Expr, y: Expr)
    requires s.ops == [first] + [second] && s.out == [x] + [y] && second.op.Binary?
    requires Pops(Prec(second.op), Prec(op.op)) && !Pops(Prec(first.op), Prec(op.op))
    ensures PushOp(s, op) == State(s.i, [Node(second.op, [x, y])], [first] + [op], s.mode, s.diags)
  {
    hide Prec, Pops;
    var t := State(s.i, [Node(second.op, [x, y])], [first], s.mode, s.diags);
    assert s.ops[..1] == [first] && s.out[..0] == [] && [] + t.out == t.out;
    assert PopWhile(s, Prec(op.op)) == PopWhile(t, Prec(op.op)) == t;
  }

  lemma FinishPrefixed(s: State, sum: Pending, minus: Pending, x: Expr, y: Expr)
    requires sum == Pending(Binary(Add), []) && minus == Pending(Prefix(Sub), [])
    requires s.ops == [sum] + [minus] && s.out == [x] + [y]
    ensures Finish(s) == Done((Node(Binary(Add), [x, Node(Prefix(Sub), [y])]), s.i, s.diags))
  {
    var ny := Node(Prefix(Sub), [y]);
    var t := State(s.i, [x] + [ny], [sum], s.mode, s.diags);
    assert s.ops[..1] == [sum] && s.out[..1] == [x] && [y] + [] == [y];
    assert PopWhile(s, FlushAll) == PopWhile(t, FlushAll);
    var all := [Node(Binary(Add), [x, ny])];
    var u := State(s.i, all, [], s.mode, s.diags);
    assert t.ops[..0] == [] && t.out[..0] == [] && [] + all == all;
    assert PopWhile(t, FlushAll) == PopWhile(u, FlushAll) == u;
  }

  /** a ++ :: b: the scope operator binds tighter than the pending increment, which
      ends up around the whole. */
  lemma IncrementOfScope(a: nat, b: nat)
    ensures Parse([Operand(a), Oper(Inc), Oper(ScopeRes), Operand(b), RParen], 0, {EndRParen})
         == Done((Node(Postfix(Inc), [Node(Binary(ScopeRes), [Leaf(a), Leaf(b)])]), 4, 0))
  {
    hide *;
    var toks, ends := [Operand(a), Oper(Inc), Oper(ScopeRes), Operand(b), RParen], {EndRParen};
    var inc, scope := Pending(Postfix(Inc), []), Pending(Binary(ScopeRes), []);
    var end := State(4, [Leaf(a)] + [Leaf(b)], [inc] + [scope], false, 0);
    TakeIncrement(toks, a, ends);
    TakeScope(toks, [Leaf(a)], b, ends);
    ParenEnds();
    LastState(toks, end, ends);
    ParseOf(toks, 0, ends, end);
    NotBinary();
    PopsTwo(end, inc, scope, Leaf(a), Leaf(b));
  }

  lemma TakeIncrement(toks: seq<Token>, a: nat, ends: set<EndType>)
    requires |toks| > 1 && toks[0] == Operand(a) && toks[1] == Oper(Inc)
    ensures Run(toks, State(0, [], [], true, 0), ends)
         == Run(toks, State(2, [Leaf(a)], [Pending(Postfix(Inc), [])], false, 0), ends)
  {
    hide *;
    var inc, la := Pending(Postfix(Inc), []), [Leaf(a)];
    SelectionOverMinus();
    assert [] + [Leaf(a)] == la;
    TakeOperand(toks, State(0, [], [], true, 0), ends, a);
    PushesOn(State(1, la, [], false, 0), inc);
    assert [] + [inc] == [inc];
    TakeOperator(toks, State(1, la, [], false, 0), ends, Inc, Postfix(Inc), State(1, la, [inc], false, 0));
  }

  lemma TakeScope(toks: seq<Token>, la: seq<Expr>, b: nat, ends: set<EndType>)
    requires |toks| > 3 && toks[2] == Oper(ScopeRes) && toks[3] == Operand(b)
    ensures var inc, scope := Pending(Postfix(Inc), []), Pending(Binary(ScopeRes), []);
            Run(toks, State(2, la, [inc], false, 0), ends) ==
            Run(toks, State(4, la + [Leaf(b)], [inc] + [scope], false, 0), ends)
  {
    hide *;
    var inc, scope := Pending(Postfix(Inc), []), Pending(Binary(ScopeRes), []);
    SelectionOverMinus();
    PushesOn(State(2, la, [inc], false, 0), scope);
    TakeOperator(toks, State(2, la, [inc], false, 0), ends, ScopeRes, Binary(ScopeRes),
                 State(2, la, [inc] + [scope], false, 0));
    TakeOperand(toks, State(3, la, [inc] + [scope], true, 0), ends, b);
  }

  lemma ParenEnds()
    ensures Ends(RParen, {EndRParen})
  {
  }

  lemma NotBinary()
    ensures IsBinary(Binary(ScopeRes)) && !IsBinary(Postfix(Inc)) && !IsBinary(Prefix(Sub))
  {
  }

  lemma PopsTwo(s: State, first: Pending, second: Pending, x: Expr, y: Expr)
    requires s.ops == [first] + [second] && s.out == [x] + [y]
    requires IsBinary(second.op) && !IsBinary(first.op) && first.args == []
    ensures Finish(s) == Done((Node(first.op, [Node(second.op, [x, y])]), s.i, s.diags))
  {
    var inner := Node(second.op, [x, y]);
    assert s.ops[..1] == [first] && s.out[..0] == [];
    var t := State(s.i, [inner], [first], s.mode, s.diags);
    assert [] + [inner] == [inner];
    assert PopWhile(s, FlushAll) == PopWhile(t, FlushAll);
    var u := State(s.i, [Node(first.op, [inner])], [], s.mode, s.diags);
    assert [first][..0] == [] && [inner] + [] == [inner] && [inner][..0] == [];
    assert PopWhile(t, FlushAll) == PopWhile(u, FlushAll) == u;
  }
}
