/** The parser as the loops it is written as; each computes the parsing function. */
module ExprParserLoops {
  import opened ExprOps
  import opened ExprParser

  /** The popping loop. */
  method PopOperators(s: State, p: int) returns (t: State)
    ensures t == PopWhile(s, p)
  {
    t := s;
    while |t.ops| > 0 && Pops(Prec(t.ops[|t.ops| - 1].op), p)
      invariant PopWhile(s, p) == PopWhile(t, p)
      decreases |t.ops|
    {
      var (out, d) := Apply(t.ops[|t.ops| - 1], t.out);
      t := State(t.i, out, t.ops[..|t.ops| - 1], t.mode, t.diags + d);
    }
  }

  /** Collects the arguments between lparen and rparen. */
  method ParseFuncCallArgs(toks: seq<Token>, lparen: nat, rparen: nat) returns (r: Outcome<(seq<Expr>, nat)>)
    requires lparen < rparen < |toks|
    ensures r == Arguments(toks, lparen + 1, rparen)
    decreases |toks| - lparen, 0
  {
    hide Parse, Arguments;
    var args: seq<Expr>, diags := [], 0;
    var i := lparen + 1;
    PrependNothing(Arguments(toks, i, rparen));
    while i < rparen
      invariant lparen < i
      invariant Arguments(toks, lparen + 1, rparen) == Prepend(args, diags, Arguments(toks, i, rparen))
      decreases rparen - i
    {
      var arg := ParseExprImpl(toks, i, {EndComma, EndRParen});
      ArgumentsStep(toks, i, rparen, args, diags);
      match arg {
        case Done((e, j, d)) =>
          args, diags := args + [e], diags + d;
          i := j + 1;
        case Overrun => return Overrun;
        case Mismatch => return Mismatch;
      }
    }
    r := Done((args, diags));
    NoMoreArguments(toks, i, rparen, args, diags);
  }

  lemma PrependNothing(rest: Outcome<(seq<Expr>, nat)>)
    ensures Prepend([], 0, rest) == rest
  {
    if rest.Done? { assert [] + rest.value.0 == rest.value.0; }
  }

  lemma NoMoreArguments(toks: seq<Token>, i: nat, rparen: nat, args: seq<Expr>, diags: nat)
    requires rparen < |toks| && rparen <= i
    ensures Prepend(args, diags, Arguments(toks, i, rparen)) == Done((args, diags))
  {
    assert args + [] == args;
  }

  function Prepend(args: seq<Expr>, diags: nat, rest: Outcome<(seq<Expr>, nat)>): Outcome<(seq<Expr>, nat)>
  {
    match rest
    case Done((more, d)) => Done((args + more, diags + d))
    case Overrun => Overrun
    case Mismatch => Mismatch
  }

  lemma ArgumentsStep(toks: seq<Token>, i: nat, rparen: nat, args: seq<Expr>, diags: nat)
    requires i < rparen < |toks|
    ensures match Parse(toks, i, {EndComma, EndRParen})
            case Done((e, j, d)) =>
              Prepend(args, diags, Arguments(toks, i, rparen))
              == Prepend(args + [e], diags + d, Arguments(toks, j + 1, rparen))
            case Overrun => Prepend(args, diags, Arguments(toks, i, rparen)) == Overrun
            case Mismatch => Prepend(args, diags, Arguments(toks, i, rparen)) == Mismatch
  {
    var first := Parse(toks, i, {EndComma, EndRParen});
    if first.Done? {
      var rest := Arguments(toks, first.value.1 + 1, rparen);
      if rest.Done? {
        assert args + ([first.value.0] + rest.value.0) == (args + [first.value.0]) + rest.value.0;
      }
    }
  }

  method TakeSubscript(toks: seq<Token>, s: State) returns (r: Outcome<State>)
    requires s.i < |toks| && toks[s.i] == LSquare
    ensures r == SubscriptStep(toks, s)
    decreases |toks| - s.i, 1
  {
    hide PushOp, Parse, TwinFrom;
    var twin := FindTwin(toks, s.i, LSquare, RSquare);
    if twin.PastEnd? { return Overrun; }
    var idx := ParseExprImpl(toks, s.i + 1, {EndRSquare});
    match idx {
      case Done((e, _, d)) =>
        var here := (if s.mode then 1 else 0) + (if twin.Missing? then 1 else 0);
        var next := if twin.Found? then twin.at + 1 else s.i + 1;
        r := PushAndGo(s, Pending(Subscript, [e]), d + here, next);
      case Overrun => return Overrun;
      case Mismatch => return Mismatch;
    }
  }

  method TakeSubExpr(toks: seq<Token>, s: State) returns (r: Outcome<State>)
    requires s.i < |toks| && toks[s.i] == LParen
    ensures r == SubExpr(toks, s)
    decreases |toks| - s.i, 1
  {
    hide PushOp, Parse, TwinFrom;
    var twin := FindTwin(toks, s.i, LParen, RParen);
    if twin.PastEnd? { return Overrun; }
    var sub := ParseExprImpl(toks, s.i + 1, {EndRParen});
    match sub {
      case Done((e, j, d)) =>
        r := Done(State(j + 1, s.out + [e], s.ops, false, s.diags + d + if twin.Missing? then 1 else 0));
      case Overrun => return Overrun;
      case Mismatch => return Mismatch;
    }
  }

  method TakeCall(toks: seq<Token>, s: State) returns (r: Outcome<State>)
    requires s.i < |toks| && toks[s.i] == LParen
    ensures r == CallStep(toks, s)
    decreases |toks| - s.i, 1
  {
    hide PushOp, Arguments, TwinFrom;
    var twin := FindTwin(toks, s.i, LParen, RParen);
    match twin {
      case PastEnd => return Overrun;
      case Missing => r := PushAndGo(s, Pending(Call, []), 1, s.i + 1);
      case Found(rparen) =>
        var args := ParseFuncCallArgs(toks, s.i, rparen);
        match args {
          case Done((es, d)) => r := PushAndGo(s, Pending(Call, es), d, rparen + 1);
          case Overrun => return Overrun;
          case Mismatch => return Mismatch;
        }
    }
  }

  /** Sends an operator that takes the place of an operand through the yard and
      goes on at token i. */
  method PushAndGo(s: State, op: Pending, diags: nat, i: nat) returns (r: Outcome<State>)
    ensures var p := PushOp(s.(diags := s.diags + diags), op);
            r == Done(State(i, p.out, p.ops, false, p.diags))
  {
    var t := PopOperators(s.(diags := s.diags + diags), Prec(op.op));
    r := Done(State(i, t.out, t.ops + [op], false, t.diags));
  }

  /** The shunting yard. */
  method ParseExprImpl(toks: seq<Token>, start: nat, ends: set<EndType>) returns (r: Outcome<(Expr, nat, nat)>)
    ensures r == Parse(toks, start, ends)
    decreases |toks| - start, 4
  {
    hide Step, Ends, PopWhile, Prec, ToExprOp;
    var s := State(start, [], [], true, 0);
    while true
      invariant start <= s.i
      invariant Run(toks, s, ends) == Run(toks, State(start, [], [], true, 0), ends)
      decreases |toks| - s.i
    {
      if s.i >= |toks| { return Overrun; }
      if Ends(toks[s.i], ends) { break; }
      var next := TakeToken(toks, s);
      match next {
        case Done(t) => s := t;
        case Overrun => return Overrun;
        case Mismatch => return Mismatch;
      }
    }
    var t := PopOperators(s, FlushAll);
    r := if |t.out| == 1 then Done((t.out[0], t.i, t.diags)) else Mismatch;
  }

  /** One turn of the loop. */
  method TakeToken(toks: seq<Token>, s: State) returns (r: Outcome<State>)
    requires s.i < |toks|
    ensures r == Step(toks, s)
    decreases |toks| - s.i, 2
  {
    hide PopWhile, Prec, ToExprOp, SubExpr, CallStep, SubscriptStep;
    match toks[s.i] {
      case Operand(id) =>
        if !s.mode {
          r := Done(State(s.i + 1, s.out, s.ops, false, s.diags + 1));
        } else {
          r := Done(State(s.i + 1, s.out + [Leaf(id)], s.ops, false, s.diags));
        }
      case Oper(tok) =>
        var (op, misplaced) := ToExprOp(tok, s.mode);
        var t := PopOperators(s.(diags := s.diags + if misplaced then 1 else 0), Prec(op));
        r := Done(State(s.i + 1, t.out, t.ops + [Pending(op, [])], !op.Postfix?, t.diags));
      case LParen =>
        if s.mode { r := TakeSubExpr(toks, s); } else { r := TakeCall(toks, s); }
      case LSquare => r := TakeSubscript(toks, s);
      case _ => r := Done(s.(i := s.i + 1));
    }
  }
}
