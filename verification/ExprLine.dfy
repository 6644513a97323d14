/** Trees and pending operators as the tokens they stand for, from left to right,
    and what popping keeps of them. */
module ExprLine {
  import opened ExprOps
  import opened ExprParser
  import opened ExprRuns

  // ------------------------------------------------------------------- yields

  function OpToken(op: ExprOp): Token
  {
    match op
    case Binary(t) => Oper(t)
    case Prefix(t) => Oper(t)
    case Postfix(t) => Oper(t)
    case Call => LParen
    case Subscript => LSquare
  }

  /** The tokens of a tree from left to right. */
  function Yield(e: Expr): seq<Token>
    decreases e, 1
  {
    match e
    case Leaf(id) => [Operand(id)]
    case Node(op, args) =>
      if |args| == 0 then [OpToken(op)]
      else if op.Prefix? then [OpToken(op)] + YieldFrom(e, 0)
      else Yield(args[0]) + ([OpToken(op)] + YieldFrom(e, 1))
  }

  /** Those of the operands from k on, with commas between them. */
  function YieldFrom(e: Expr, k: nat): seq<Token>
    requires e.Node? && k <= |e.args|
    decreases e, 0, |e.args| - k
  {
    if k == |e.args| then [] else Yield(e.args[k]) + (CommaIf(k + 1 < |e.args|) + YieldFrom(e, k + 1))
  }

  function CommaIf(more: bool): seq<Token>
  {
    if more then [Oper(Comma)] else []
  }

  function YieldAll(es: seq<Expr>): seq<Token>
  {
    if |es| == 0 then [] else Yield(es[0]) + (CommaIf(1 < |es|) + YieldAll(es[1..]))
  }

  lemma {:induction false} YieldFromAll(e: Expr, k: nat)
    requires e.Node? && k <= |e.args|
    ensures YieldFrom(e, k) == YieldAll(e.args[k..])
    decreases |e.args| - k
  {
    hide Yield;
    if k < |e.args| {
      YieldFromAll(e, k + 1);
      assert e.args[k..][1..] == e.args[k + 1..];
    }
  }

  lemma YieldOne(x: Expr)
    ensures YieldAll([x]) == Yield(x)
  {
    hide Yield;
    assert [x][1..] == [];
    assert Yield(x) + ([] + []) == Yield(x);
  }

  /** A pending operator and the arguments it brings. */
  function Suffix(p: Pending): (s: seq<Token>)
    ensures |s| > 0 && s[0] == OpToken(p.op)
  {
    [OpToken(p.op)] + YieldAll(p.args)
  }

  /** The yield of an operator applied to its operand and its arguments. */
  lemma YieldNode(p: Pending, x: Expr)
    ensures p.op.Prefix? && p.args == [] ==> Yield(Node(p.op, [x] + p.args)) == [OpToken(p.op)] + Yield(x)
    ensures !p.op.Prefix? ==> Yield(Node(p.op, [x] + p.args)) == Yield(x) + Suffix(p)
  {
    var e := Node(p.op, [x] + p.args);
    YieldFromAll(e, 1);
    assert e.args[1..] == p.args;
    if p.op.Prefix? && p.args == [] {
      YieldFromAll(e, 0);
      assert e.args[0..] == [x];
      YieldOne(x);
    }
  }

  // ------------------------------------------------------- the pending operators

  /** Pending right after their operand. */
  predicate IsSuffix(p: Pending)
  {
    (p.op.Postfix? && CanPostfix(p.op.tok)) || p.op.Call? || p.op.Subscript?
  }

  /** A prefix or a binary operator in its place. */
  predicate Sound(p: Pending)
  {
    p.args == [] && ((p.op.Binary? && !IsUnaryTok(p.op.tok)) || (p.op.Prefix? && CanPrefix(p.op.tok)))
  }

  function Drop<T>(s: seq<T>): seq<T>
    requires |s| > 0
  {
    s[..|s| - 1]
  }

  function Last<T>(s: seq<T>): T
    requires |s| > 0
  {
    s[|s| - 1]
  }

  predicate Plain(ops: seq<Pending>)
  {
    forall k :: 0 <= k < |ops| ==> Sound(ops[k])
  }

  /** A suffix is pending on top, or under operators of the highest precedence
      only. */
  predicate Stacked(ops: seq<Pending>, mode: bool)
  {
    |ops| == 0 ||
    if IsSuffix(Last(ops)) then !mode && Plain(Drop(ops))
    else Sound(Last(ops)) &&
         if Prec(Last(ops).op) == 15 then Stacked(Drop(ops), !IsBinary(Last(ops).op)) else Plain(Drop(ops))
  }

  lemma {:induction false} PlainStacked(ops: seq<Pending>, mode: bool)
    requires Plain(ops)
    ensures Stacked(ops, mode)
    decreases |ops|
  {
    hide Prec;
    if |ops| > 0 {
      assert Sound(ops[|ops| - 1]);
      PlainStacked(Drop(ops), !IsBinary(Last(ops).op));
    }
  }

  lemma StackedBelow(ops: seq<Pending>, mode: bool)
    requires Stacked(ops, mode) && |ops| > 0
    ensures Stacked(Drop(ops), false)
    ensures !IsSuffix(Last(ops)) ==> Stacked(Drop(ops), !IsBinary(Last(ops).op))
    ensures IsSuffix(Last(ops)) ==> !mode && Plain(Drop(ops))
  {
    hide Prec;
    var below := Drop(ops);
    if Plain(below) {
      PlainStacked(below, true);
      PlainStacked(below, false);
    }
  }

  /** Once nothing more is popped for an operator below the highest precedence, no
      suffix is left. */
  lemma NoSuffixLeft(ops: seq<Pending>, p: int)
    requires Stacked(ops, false) && (|ops| > 0 ==> !Pops(Prec(Last(ops).op), p)) && p < 15
    ensures Plain(ops)
  {
    if |ops| > 0 {
      assert Prec(Last(ops).op) < 14;
      assert Sound(Last(ops)) && Plain(Drop(ops));
      forall k | 0 <= k < |ops| ensures Sound(ops[k]) {
        if k < |ops| - 1 { assert Sound(Drop(ops)[k]); }
      }
    }
  }

  // -------------------------------------------------- the stacks, linearised

  /** The trees and the pending operators from left to right, up to where the next
      token goes; a suffix is left out. */
  function Body(out: seq<Expr>, ops: seq<Pending>, mode: bool): seq<Token>
    decreases |ops|, if mode then 0 else 1
  {
    if !mode then
      if |ops| > 0 && IsSuffix(Last(ops)) then Body(out, Drop(ops), false)
      else if |out| == 0 then []
      else Body(Drop(out), ops, true) + Yield(Last(out))
    else if |ops| == 0 || IsSuffix(Last(ops)) then []
    else Body(out, Drop(ops), !IsBinary(Last(ops).op)) + [OpToken(Last(ops).op)]
  }

  /** What comes after: the suffix. */
  function Right(ops: seq<Pending>): seq<Token>
  {
    if |ops| == 0 then []
    else if IsSuffix(Last(ops)) then Suffix(Last(ops)) + Right(Drop(ops))
    else Right(Drop(ops))
  }

  function Line(out: seq<Expr>, ops: seq<Pending>, mode: bool): seq<Token>
  {
    Body(out, ops, mode) + Right(ops)
  }

  /** The part of the line that is settled: nothing that comes can get before it. */
  function Settled(s: State): seq<Token>
  {
    if !s.mode && |s.ops| > 0 && IsSuffix(Last(s.ops)) then Line(s.out, s.ops, false) else Body(s.out, s.ops, s.mode)
  }

  lemma {:induction false} PlainRight(ops: seq<Pending>)
    requires Plain(ops)
    ensures Right(ops) == []
    decreases |ops|
  {
    if |ops| > 0 {
      assert Sound(ops[|ops| - 1]);
      PlainRight(Drop(ops));
    }
  }

  lemma BodyOperand(out: seq<Expr>, ops: seq<Pending>)
    requires |out| > 0 && (|ops| > 0 ==> !IsSuffix(Last(ops)))
    ensures Body(out, ops, false) == Body(Drop(out), ops, true) + Yield(Last(out))
  {
    hide Yield;
  }

  lemma BodyOperator(out: seq<Expr>, ops: seq<Pending>)
    requires |ops| > 0
    ensures !IsSuffix(Last(ops)) ==>
            Body(out, ops, true) == Body(out, Drop(ops), !IsBinary(Last(ops).op)) + [OpToken(Last(ops).op)]
            && Right(ops) == Right(Drop(ops))
    ensures IsSuffix(Last(ops)) ==>
            Body(out, ops, false) == Body(out, Drop(ops), false) && Right(ops) == Suffix(Last(ops)) + Right(Drop(ops))
  {
    hide Yield, Suffix;
  }

  // ------------------------------------------------------------------- lengths

  function Weight(out: seq<Expr>, ops: seq<Pending>): nat
    decreases |out| + |ops|
  {
    if |ops| > 0 then Weight(out, Drop(ops)) + |Suffix(Last(ops))|
    else if |out| > 0 then Weight(Drop(out), ops) + |Yield(Last(out))|
    else 0
  }

  lemma {:induction false} WeightOut(out: seq<Expr>, e: Expr, ops: seq<Pending>)
    ensures Weight(out + [e], ops) == Weight(out, ops) + |Yield(e)|
    decreases |ops|
  {
    hide Yield, Suffix;
    if |ops| > 0 {
      WeightOut(out, e, Drop(ops));
    } else {
      assert Drop(out + [e]) == out;
    }
  }

  lemma WeightOp(out: seq<Expr>, ops: seq<Pending>, op: Pending)
    ensures Weight(out, ops + [op]) == Weight(out, ops) + |Suffix(op)|
  {
    hide Yield, Suffix;
    assert Drop(ops + [op]) == ops;
  }

  lemma SoundSuffix(p: Pending)
    requires Sound(p)
    ensures Suffix(p) == [OpToken(p.op)]
  {
  }

  /** The line has every token on the stacks. */
  lemma {:induction false} LineWeight(out: seq<Expr>, ops: seq<Pending>, mode: bool)
    requires Stacked(ops, mode) && |out| == Binaries(ops) + if mode then 0 else 1
    ensures |Line(out, ops, mode)| == Weight(out, ops)
    decreases |ops|, if mode then 0 else 1
  {
    hide Yield, Suffix, Stacked, Weight;
    if !mode && (|ops| == 0 || !IsSuffix(Last(ops))) {
      AnyMode(ops);
      LineWeight(Drop(out), ops, true);
      BodyOperand(out, ops);
      assert Drop(out) + [Last(out)] == out;
      WeightOut(Drop(out), Last(out), ops);
    } else if |ops| > 0 {
      StackedBelow(ops, mode);
      TopSound(ops, mode);
      var mode' := if IsSuffix(Last(ops)) then false else !IsBinary(Last(ops).op);
      LineWeight(out, Drop(ops), mode');
      BodyOperator(out, ops);
      assert Drop(ops) + [Last(ops)] == ops;
      WeightOp(out, Drop(ops), Last(ops));
      if !IsSuffix(Last(ops)) { SoundSuffix(Last(ops)); }
    } else {
      NoWeight(out, ops);
    }
  }

  lemma NoWeight(out: seq<Expr>, ops: seq<Pending>)
    requires |out| == 0 && |ops| == 0
    ensures Weight(out, ops) == 0
  {
  }

  lemma AnyMode(ops: seq<Pending>)
    requires Stacked(ops, false) && (|ops| > 0 ==> !IsSuffix(Last(ops)))
    ensures Stacked(ops, true)
  {
  }

  lemma TopSound(ops: seq<Pending>, mode: bool)
    requires Stacked(ops, mode) && |ops| > 0
    ensures mode ==> !IsSuffix(Last(ops))
    ensures !IsSuffix(Last(ops)) ==> Sound(Last(ops)) && (IsBinary(Last(ops).op) || Last(ops).op.Prefix?)
  {
  }

  /** Applying an operator loses no token. */
  lemma ApplyWeight(out: seq<Expr>, ops: seq<Pending>, mode: bool)
    requires |ops| > 0 && Stacked(ops, mode) && Apply(Last(ops), out).1 == 0
    ensures Weight(Apply(Last(ops), out).0, Drop(ops)) == Weight(out, ops)
  {
    hide Yield, Suffix, Stacked, Weight;
    TopSound(ops, mode);
    var top, below, x := Last(ops), Drop(ops), Last(out);
    assert below + [top] == ops && Drop(out) + [x] == out;
    WeightOp(out, below, top);
    WeightOut(Drop(out), x, below);
    if IsBinary(top.op) {
      var y := Last(Drop(out));
      var rest := Drop(Drop(out));
      assert rest + [y] == Drop(out) && [y] + [x] == [y, x] && rest == out[..|out| - 2];
      WeightOut(rest, y, below);
      WeightOut(rest, Node(top.op, [y] + [x]), below);
      YieldNode(Pending(top.op, [x]), y);
      SuffixOf(top.op, x);
      SoundSuffix(top);
    } else {
      WeightOut(Drop(out), Node(top.op, [x] + top.args), below);
      YieldNode(top, x);
      if top.op.Prefix? { SoundSuffix(top); }
    }
  }

  lemma SuffixOf(op: ExprOp, x: Expr)
    ensures Suffix(Pending(op, [x])) == [OpToken(op)] + Yield(x)
  {
    hide Yield;
    YieldOne(x);
  }

  // ------------------------------------------------------------------- popping

  /** Below a suffix, if there is one. */
  function Core(ops: seq<Pending>): seq<Pending>
  {
    if |ops| > 0 && IsSuffix(Last(ops)) then Drop(ops) else ops
  }

  lemma CoreBody(out: seq<Expr>, ops: seq<Pending>)
    requires |out| > 0 && Stacked(ops, false)
    ensures Body(out, ops, false) == Body(Drop(out), Core(ops), true) + Yield(Last(out))
  {
    hide Yield, Suffix, Stacked, Body;
    if |ops| > 0 && IsSuffix(Last(ops)) {
      BodyOperator(out, ops);
      StackedBelow(ops, false);
      PlainTop(Drop(ops));
    }
    BodyOperand(out, Core(ops));
  }

  lemma ApplyBinaryKeeps(out: seq<Expr>, ops: seq<Pending>)
    requires |out| >= 2 && |ops| > 0 && Stacked(ops, false) && IsBinary(Last(ops).op)
    ensures Line(Apply(Last(ops), out).0, Drop(ops), false) == Line(out, ops, false)
  {
    hide Body, Right, Stacked, Apply, Yield, Core;
    var top, rest, below := Last(ops), Drop(ops), Drop(out);
    TopSound(ops, false);
    StackedBelow(ops, false);
    AppliedBinary(top, out);
    BodyOperand(out, ops);
    BodyOperator(below, ops);
    CoreBody(below, rest);
    CoreBody(Apply(top, out).0, rest);
    Regroup(Body(Drop(below), Core(rest), true), Yield(Last(below)), [OpToken(top.op)], Yield(Last(out)));
  }

  lemma AppliedBinary(top: Pending, out: seq<Expr>)
    requires |out| >= 2 && IsBinary(top.op)
    ensures var out' := Apply(top, out).0;
            |out'| > 0 && Drop(out') == Drop(Drop(out))
            && Yield(Last(out')) == Yield(Last(Drop(out))) + ([OpToken(top.op)] + Yield(Last(out)))
  {
    hide Yield;
    YieldBinary(top.op, Last(Drop(out)), Last(out));
  }

  lemma YieldBinary(op: ExprOp, l: Expr, r: Expr)
    requires op.Binary?
    ensures Yield(Node(op, [l, r])) == Yield(l) + ([OpToken(op)] + Yield(r))
  {
    hide Yield, Suffix;
    YieldNode(Pending(op, [r]), l);
    SuffixOf(op, r);
    assert [l] + [r] == [l, r];
  }

  lemma Regroup(a: seq<Token>, b: seq<Token>, c: seq<Token>, d: seq<Token>)
    ensures ((a + b) + c) + d == a + (b + (c + d))
  {
  }

  lemma ApplySuffixKeeps(out: seq<Expr>, ops: seq<Pending>)
    requires |out| >= 1 && |ops| > 0 && Stacked(ops, false) && IsSuffix(Last(ops))
    ensures Line(Apply(Last(ops), out).0, Drop(ops), false) == Line(out, ops, false)
  {
    hide Yield, Body, Suffix, Stacked, Right, Plain;
    StackedBelow(ops, false);
    var top, rest, x, out' := Last(ops), Drop(ops), Last(out), Apply(Last(ops), out).0;
    YieldNode(top, x);
    assert Drop(out') == Drop(out) && Last(out') == Node(top.op, [x] + top.args);
    PlainTop(rest);
    PlainRight(rest);
    BodyOperator(out, ops);
    BodyOperand(out, rest);
    BodyOperand(out', rest);
  }

  lemma PlainTop(ops: seq<Pending>)
    requires Plain(ops)
    ensures |ops| > 0 ==> !IsSuffix(Last(ops))
  {
    if |ops| > 0 { assert Sound(ops[|ops| - 1]); }
  }

  lemma ApplyPrefixKeeps(out: seq<Expr>, ops: seq<Pending>)
    requires |out| >= 1 && |ops| > 0 && Stacked(ops, false) && !IsBinary(Last(ops).op) && !IsSuffix(Last(ops))
    ensures Line(Apply(Last(ops), out).0, Drop(ops), false) == Line(out, ops, false)
  {
    hide Yield, Body, Stacked, Right;
    TopSound(ops, false);
    StackedBelow(ops, false);
    var top, rest, x, out' := Last(ops), Drop(ops), Last(out), Apply(Last(ops), out).0;
    YieldNode(top, x);
    assert Drop(out') == Drop(out) && Last(out') == Node(top.op, [x] + top.args);
    if |rest| > 0 { TopSound(rest, true); }
    BodyOperand(out, ops);
    BodyOperator(Drop(out), ops);
    BodyOperand(out', rest);
    Regroup2(Body(Drop(out), rest, true), [OpToken(top.op)], Yield(x));
  }

  lemma Regroup2(a: seq<Token>, b: seq<Token>, c: seq<Token>)
    ensures (a + b) + c == a + (b + c)
  {
  }

  /** After an operand, applying the top operator keeps the line. */
  lemma ApplyKeeps(s: State)
    requires Balanced(s) && Stacked(s.ops, false) && !s.mode && |s.ops| > 0
    ensures var (out, d) := Apply(Last(s.ops), s.out);
            && d == 0 && Stacked(Drop(s.ops), false)
            && Balanced(State(s.i, out, Drop(s.ops), false, s.diags))
            && Line(out, Drop(s.ops), false) == Line(s.out, s.ops, false)
  {
    hide Yield, Line, Stacked;
    StackedBelow(s.ops, false);
    if IsBinary(Last(s.ops).op) {
      ApplyBinaryKeeps(s.out, s.ops);
    } else {
      if IsSuffix(Last(s.ops)) { ApplySuffixKeeps(s.out, s.ops); } else { ApplyPrefixKeeps(s.out, s.ops); }
    }
  }

  /** So does popping, which adds no diagnostic. */
  lemma {:induction false} PopKeeps(s: State, p: int)
    requires Balanced(s) && Stacked(s.ops, false) && !s.mode
    ensures var t := PopWhile(s, p);
            && t.diags == s.diags && Balanced(t) && Stacked(t.ops, false)
            && Line(t.out, t.ops, false) == Line(s.out, s.ops, false)
            && (|t.ops| > 0 ==> !Pops(Prec(Last(t.ops).op), p))
    decreases |s.ops|
  {
    hide Line, Balanced, Stacked, Apply, Prec;
    if |s.ops| > 0 && Pops(Prec(Last(s.ops).op), p) {
      ApplyKeeps(s);
      var (out, d) := Apply(Last(s.ops), s.out);
      PopKeeps(State(s.i, out, Drop(s.ops), s.mode, s.diags + d), p);
    }
  }

  /** Where an operand is expected, popping without a diagnostic loses no token but
      leaves another operator on top. */
  lemma {:induction false} PopMoves(s: State, p: int)
    requires Balanced(s) && Stacked(s.ops, false) && s.mode && PopWhile(s, p).diags == s.diags
    ensures var t := PopWhile(s, p);
            && Balanced(t) && Stacked(t.ops, false) && Weight(t.out, t.ops) == Weight(s.out, s.ops)
            && (|t.ops| > 0 ==> !Pops(Prec(Last(t.ops).op), p))
            && (t != s ==> |s.ops| > 0 && Pops(Prec(Last(s.ops).op), p) && |t.ops| > 0)
    decreases |s.ops|
  {
    hide Weight, Stacked, Prec, Apply;
    if |s.ops| > 0 && Pops(Prec(Last(s.ops).op), p) {
      var (out, d) := Apply(Last(s.ops), s.out);
      var u := State(s.i, out, Drop(s.ops), s.mode, s.diags + d);
      assert PopWhile(s, p) == PopWhile(u, p);
      ApplyBalance(s);
      StackedBelow(s.ops, false);
      ApplyWeight(s.out, s.ops, false);
      PopMoves(u, p);
    }
  }

  lemma ApplyBalance(s: State)
    requires Balanced(s) && s.mode && |s.ops| > 0 && Apply(Last(s.ops), s.out).1 == 0
    ensures var (out, _) := Apply(Last(s.ops), s.out);
            Balanced(State(s.i, out, Drop(s.ops), true, s.diags)) && |out| > 0
  {
  }
}
