/** The shunting-yard parser: an output stack of trees, a stack of pending
    operators, and a mode that says whether an operand is expected next. */
module ExprParser {
  import opened ExprOps

  datatype Token = Operand(id: nat) | Oper(op: TokOp) | LParen | RParen | LSquare | RSquare | End | Other(id: nat)

  /** A token type as it appears in a list of types that end an expression. */
  datatype EndType = EndRParen | EndRSquare | EndComma | EndOther(id: nat)

  predicate Ends(t: Token, ends: set<EndType>)
  {
    match t
    case RParen => EndRParen in ends
    case RSquare => EndRSquare in ends
    case Oper(op) => op == Comma && EndComma in ends
    case Other(id) => EndOther(id) in ends
    case _ => false
  }

  datatype Expr = Leaf(id: nat) | Node(op: ExprOp, args: seq<Expr>)

  /** A pending operator; a call or a subscript brings arguments with it. */
  datatype Pending = Pending(op: ExprOp, args: seq<Expr>)

  /** The parser's state: the next token, the two stacks, the mode, and how many
      diagnostics there have been. */
  datatype State = State(i: nat, out: seq<Expr>, ops: seq<Pending>, mode: bool, diags: nat)

  /** A parse ends with a result, reads past the tokens because no ending token
      comes, or stops at the mismatch of operators and operands. */
  datatype Outcome<T> = Done(value: T) | Overrun | Mismatch

  // ------------------------------------------------------------ finding a twin

  predicate IsBracketPair(l: Token, r: Token)
  {
    (l == LParen && r == RParen) || (l == LSquare && r == RSquare)
  }

  datatype Twin = Found(at: nat) | Missing | PastEnd

  /** The token that closes the bracket opened before i, by counting depth. */
  function TwinFrom(toks: seq<Token>, i: nat, depth: nat, l: Token, r: Token): (t: Twin)
    ensures t.Found? ==> i <= t.at < |toks| && toks[t.at] == r
    decreases |toks| - i
  {
    if i >= |toks| then PastEnd
    else if toks[i] == End then Missing
    else if toks[i] == l then TwinFrom(toks, i + 1, depth + 1, l, r)
    else if toks[i] == r then
      if depth == 0 then Found(i) else TwinFrom(toks, i + 1, depth - 1, l, r)
    else TwinFrom(toks, i + 1, depth, l, r)
  }

  /** Brackets opened less brackets closed from i to j. */
  function Nesting(toks: seq<Token>, i: nat, j: nat, l: Token, r: Token): int
    requires j <= |toks|
    decreases j - i
  {
    if i >= j then 0
    else (if toks[i] == l then 1 else if toks[i] == r then -1 else 0) + Nesting(toks, i + 1, j, l, r)
  }

  /** The twin is the closing bracket before which as many have been closed as opened,
      counting those open at i, and never more; and the input does not end before. */
  lemma {:induction false} TwinExact(toks: seq<Token>, i: nat, depth: nat, l: Token, r: Token, at: nat)
    requires IsBracketPair(l, r) && i <= at < |toks|
    ensures TwinFrom(toks, i, depth, l, r) == Found(at) <==>
            && toks[at] == r && depth + Nesting(toks, i, at, l, r) == 0
            && forall k :: i <= k < at ==> toks[k] != End && 0 <= depth + Nesting(toks, i, k, l, r)
    decreases at - i
  {
    if i < at && toks[i] != End {
      var depth' := depth + Nesting(toks, i, i + 1, l, r);
      NestingFrom(toks, i, at, l, r);
      if depth' >= 0 {
        TwinExact(toks, i + 1, depth', l, r, at);
      } else if i + 1 < at {
        assert depth + Nesting(toks, i, i + 1, l, r) < 0;
      }
    }
  }

  /** The twin is missing when the input ends before it, and the search runs past the
      tokens when neither comes. */
  lemma {:induction false} TwinMissing(toks: seq<Token>, i: nat, depth: nat, l: Token, r: Token, at: nat)
    requires IsBracketPair(l, r) && i <= at < |toks|
    requires toks[at] == End && forall k :: i <= k < at ==> toks[k] != End
    ensures TwinFrom(toks, i, depth, l, r) == Missing <==> !exists k :: i <= k < at && TwinFrom(toks, i, depth, l, r) == Found(k)
    ensures !TwinFrom(toks, i, depth, l, r).PastEnd?
    decreases at - i
  {
    if i < at && !(toks[i] == r && depth == 0) {
      var depth' := if toks[i] == l then depth + 1 else if toks[i] == r then depth - 1 else depth;
      TwinMissing(toks, i + 1, depth', l, r, at);
    }
  }

  lemma NestingFrom(toks: seq<Token>, i: nat, j: nat, l: Token, r: Token)
    requires i < j <= |toks|
    ensures forall k :: i < k <= j ==> Nesting(toks, i, k, l, r) == Nesting(toks, i, i + 1, l, r) + Nesting(toks, i + 1, k, l, r)
  {
    assert Nesting(toks, i + 1, i + 1, l, r) == 0;
  }

  /** The search itself. */
  method FindTwin(toks: seq<Token>, left: nat, l: Token, r: Token) returns (t: Twin)
    requires l != r && l != End && r != End
    ensures t == TwinFrom(toks, left + 1, 0, l, r)
  {
    var depth := 0;
    var i := left + 1;
    while i < |toks| && toks[i] != End
      invariant TwinFrom(toks, left + 1, 0, l, r) == TwinFrom(toks, i, depth, l, r)
      invariant 0 <= depth
      decreases |toks| - i
    {
      if toks[i] == l {
        depth := depth + 1;
      } else if toks[i] == r {
        if depth == 0 { return Found(i); }
        depth := depth - 1;
      }
      i := i + 1;
    }
    t := if i >= |toks| then PastEnd else Missing;
  }

  // ------------------------------------------------------------ popping operators

  /** Applies a pending operator to the trees on top of the output; without enough
      of them the operator is dropped with a diagnostic. */
  function Apply(p: Pending, out: seq<Expr>): (r: (seq<Expr>, nat))
  {
    var n := |out|;
    if IsBinary(p.op) then
      if n < 2 then (out, 1) else (out[..n - 2] + [Node(p.op, [out[n - 2], out[n - 1]])], 0)
    else if n < 1 then (out, 1)
    else (out[..n - 1] + [Node(p.op, [out[n - 1]] + p.args)], 0)
  }

  /** Pops operators while they precede one of precedence p; with p below every
      precedence, all of them. */
  function PopWhile(s: State, p: int): (r: State)
    ensures r.i == s.i && r.mode == s.mode && |r.ops| <= |s.ops| && s.diags <= r.diags
    decreases |s.ops|
  {
    if |s.ops| == 0 then s else
      var top := s.ops[|s.ops| - 1];
      if Pops(Prec(top.op), p) then
        var (out, d) := Apply(top, s.out);
        PopWhile(State(s.i, out, s.ops[..|s.ops| - 1], s.mode, s.diags + d), p)
      else s
  }

  /** Below every precedence. */
  const FlushAll: int := -1

  /** Sends an operator through the yard. */
  function PushOp(s: State, op: Pending): (r: State)
    ensures r.i == s.i && s.diags <= r.diags && |r.ops| > 0 && r.ops[|r.ops| - 1] == op && r.mode == s.mode
  {
    var t := PopWhile(s, Prec(op.op));
    t.(ops := t.ops + [op])
  }

  // ---------------------------------------------------------- the parsing functions

  /** Takes one token that does not end the expression. */
  function Step(toks: seq<Token>, s: State): (r: Outcome<State>)
    requires s.i < |toks|
    ensures r.Done? ==> s.i < r.value.i && s.diags <= r.value.diags
    decreases |toks| - s.i, 2
  {
    match toks[s.i]
    case Operand(id) =>
      if s.mode then Done(State(s.i + 1, s.out + [Leaf(id)], s.ops, false, s.diags))
      else Done(State(s.i + 1, s.out, s.ops, false, s.diags + 1))
    case Oper(t) =>
      var (op, misplaced) := ToExprOp(t, s.mode);
      var p := PushOp(s.(diags := s.diags + if misplaced then 1 else 0), Pending(op, []));
      Done(State(s.i + 1, p.out, p.ops, !op.Postfix?, p.diags))
    case LParen => if s.mode then SubExpr(toks, s) else CallStep(toks, s)
    case LSquare => SubscriptStep(toks, s)
    case _ => Done(s.(i := s.i + 1))
  }

  /** A parenthesised expression: an operand. */
  function SubExpr(toks: seq<Token>, s: State): (r: Outcome<State>)
    requires s.i < |toks| && toks[s.i] == LParen
    ensures r.Done? ==> s.i < r.value.i && s.diags <= r.value.diags
    decreases |toks| - s.i, 1
  {
    var twin := TwinFrom(toks, s.i + 1, 0, LParen, RParen);
    if twin.PastEnd? then Overrun else
      match Parse(toks, s.i + 1, {EndRParen})
      case Done((e, j, d)) =>
        Done(State(j + 1, s.out + [e], s.ops, false, s.diags + d + if twin.Missing? then 1 else 0))
      case Overrun => Overrun
      case Mismatch => Mismatch
  }

  /** A call: a postfix operator that brings its arguments. */
  function CallStep(toks: seq<Token>, s: State): (r: Outcome<State>)
    requires s.i < |toks| && toks[s.i] == LParen
    ensures r.Done? ==> s.i < r.value.i && s.diags <= r.value.diags
    decreases |toks| - s.i, 1
  {
    match TwinFrom(toks, s.i + 1, 0, LParen, RParen)
    case PastEnd => Overrun
    case Missing =>
      var p := PushOp(s.(diags := s.diags + 1), Pending(Call, []));
      Done(State(s.i + 1, p.out, p.ops, false, p.diags))
    case Found(rparen) =>
      match Arguments(toks, s.i + 1, rparen)
      case Done((args, d)) =>
        var p := PushOp(s.(diags := s.diags + d), Pending(Call, args));
        Done(State(rparen + 1, p.out, p.ops, false, p.diags))
      case Overrun => Overrun
      case Mismatch => Mismatch
  }

  /** The arguments from token i up to the closing parenthesis. */
  function Arguments(toks: seq<Token>, i: nat, rparen: nat): (r: Outcome<(seq<Expr>, nat)>)
    requires rparen < |toks|
    decreases |toks| - i, 5
  {
    if i >= rparen then Done(([], 0)) else
      match Parse(toks, i, {EndComma, EndRParen})
      case Done((arg, j, d)) =>
        (match Arguments(toks, j + 1, rparen)
         case Done((rest, d')) => Done(([arg] + rest, d + d'))
         case Overrun => Overrun
         case Mismatch => Mismatch)
      case Overrun => Overrun
      case Mismatch => Mismatch
  }

  /** A subscript: likewise, with one argument. */
  function SubscriptStep(toks: seq<Token>, s: State): (r: Outcome<State>)
    requires s.i < |toks| && toks[s.i] == LSquare
    ensures r.Done? ==> s.i < r.value.i && s.diags <= r.value.diags
    decreases |toks| - s.i, 1
  {
    var twin := TwinFrom(toks, s.i + 1, 0, LSquare, RSquare);
    if twin.PastEnd? then Overrun else
      match Parse(toks, s.i + 1, {EndRSquare})
      case Done((idx, j, d)) =>
        var here := (if s.mode then 1 else 0) + (if twin.Missing? then 1 else 0);
        var p := PushOp(s.(diags := s.diags + d + here), Pending(Subscript, [idx]));
        Done(State(if twin.Found? then twin.at + 1 else s.i + 1, p.out, p.ops, false, p.diags))
      case Overrun => Overrun
      case Mismatch => Mismatch
  }

  /** Takes tokens up to one that ends the expression. */
  function Run(toks: seq<Token>, s: State, ends: set<EndType>): (r: Outcome<State>)
    ensures r.Done? ==> s.i <= r.value.i < |toks| && Ends(toks[r.value.i], ends) && s.diags <= r.value.diags
    decreases |toks| - s.i, 3
  {
    if s.i >= |toks| then Overrun
    else if Ends(toks[s.i], ends) then Done(s)
    else
      match Step(toks, s)
      case Done(t) => Run(toks, t, ends)
      case Overrun => Overrun
      case Mismatch => Mismatch
  }

  /** Applies what is pending; one tree has to be left. */
  function Finish(s: State): Outcome<(Expr, nat, nat)>
  {
    var t := PopWhile(s, FlushAll);
    if |t.out| == 1 then Done((t.out[0], t.i, t.diags)) else Mismatch
  }

  /** Parses the expression that starts at token i: its tree, the token that ends
      it, and the number of diagnostics. */
  function Parse(toks: seq<Token>, i: nat, ends: set<EndType>): (r: Outcome<(Expr, nat, nat)>)
    ensures r.Done? ==> i <= r.value.1 < |toks| && Ends(toks[r.value.1], ends)
    decreases |toks| - i, 4
  {
    match Run(toks, State(i, [], [], true, 0), ends)
    case Done(s) => Finish(s)
    case Overrun => Overrun
    case Mismatch => Mismatch
  }
}
