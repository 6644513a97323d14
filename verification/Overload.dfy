/** Choosing among overloaded functions: the viable ones are sorted with a
    comparator that reports only the first argument it favours, and the first one
    wins. */
module Overload {
  import opened Options
  import opened Sorting

  datatype Param<P> = Param(ty: P, hasDefault: bool)

  datatype Func<P> = Func(id: nat, params: seq<Param<P>>, variadic: bool)

  // -------------------------------------------------------------- viability

  /** The call passes a number of arguments the function can take. */
  predicate ParamsViable<P>(f: Func<P>, nArgs: nat)
  {
    var n := |f.params|;
    n == nArgs || (f.variadic && n < nArgs) || (n > nArgs && f.params[nArgs].hasDefault)
  }

  predicate Viable<A, P>(f: Func<P>, args: seq<A>, canConvert: (A, P) -> bool)
  {
    && ParamsViable(f, |args|)
    && forall i :: 0 <= i < |args| && i < |f.params| ==> canConvert(args[i], f.params[i].ty)
  }

  /** The language rule for defaults: section 8.3.6 of ISO/IEC 14882:2011. */
  predicate DefaultsTrail<P>(f: Func<P>)
  {
    forall i, j :: 0 <= i < j < |f.params| && f.params[i].hasDefault ==> f.params[j].hasDefault
  }

  /** Every argument has a place and every parameter gets a value: section 13.3.2 of
      ISO/IEC 14882:2011. */
  predicate Callable<A, P>(f: Func<P>, args: seq<A>, canConvert: (A, P) -> bool)
  {
    && (|f.params| < |args| ==> f.variadic)
    && forall i :: 0 <= i < |f.params| ==>
         if i < |args| then canConvert(args[i], f.params[i].ty) else f.params[i].hasDefault
  }

  /** Only the first parameter without an argument is asked for its default, which
      is enough where defaults are trailing and not elsewhere. */
  lemma ViableIsCallable<A, P>(f: Func<P>, args: seq<A>, canConvert: (A, P) -> bool)
    ensures Callable(f, args, canConvert) ==> Viable(f, args, canConvert)
    ensures Viable(f, args, canConvert) ==>
            (Callable(f, args, canConvert) <==> forall j :: |args| < j < |f.params| ==> f.params[j].hasDefault)
    ensures DefaultsTrail(f) ==> (Viable(f, args, canConvert) <==> Callable(f, args, canConvert))
  {
    if |args| < |f.params| {
      assert Callable(f, args, canConvert) ==> f.params[|args|].hasDefault;
      assert Viable(f, args, canConvert) ==> f.params[|args|].hasDefault;
    }
  }

  method IsFuncViable<A, P>(f: Func<P>, args: seq<A>, canConvert: (A, P) -> bool) returns (r: bool)
    ensures r <==> Viable(f, args, canConvert)
    ensures DefaultsTrail(f) ==> (r <==> Callable(f, args, canConvert))
  {
    ViableIsCallable(f, args, canConvert);
    if !ParamsViable(f, |args|) { return false; }
    var n := if |args| < |f.params| then |args| else |f.params|;
    for i := 0 to n
      invariant forall k :: 0 <= k < i ==> canConvert(args[k], f.params[k].ty)
    {
      if !canConvert(args[i], f.params[i].ty) { return false; }
    }
    r := true;
  }

  /** The viable functions, in order. */
  function Filtered<A(!new), P(!new)>(funcs: seq<Func<P>>, args: seq<A>, canConvert: (A, P) -> bool): (r: seq<Func<P>>)
    ensures forall f :: f in r <==> f in funcs && Viable(f, args, canConvert)
  {
    if |funcs| == 0 then [] else
      var last := funcs[|funcs| - 1];
      Filtered(funcs[..|funcs| - 1], args, canConvert) + if Viable(last, args, canConvert) then [last] else []
  }

  method ViableFuncs<A(!new), P(!new)>(funcs: seq<Func<P>>, args: seq<A>, canConvert: (A, P) -> bool) returns (r: seq<Func<P>>)
    ensures r == Filtered(funcs, args, canConvert)
  {
    r := [];
    for i := 0 to |funcs|
      invariant r == Filtered(funcs[..i], args, canConvert)
    {
      assert funcs[..i + 1][..i] == funcs[..i];
      var viable := IsFuncViable(funcs[i], args, canConvert);
      if viable { r := r + [funcs[i]]; }
    }
    assert funcs[..|funcs|] == funcs;
  }

  // ------------------------------------------------------------- comparison

  /** f takes argument i by a better conversion than g; what is left to an ellipsis
      is worse than any conversion. */
  predicate Better<A, P>(f: Func<P>, g: Func<P>, args: seq<A>, rank: (A, P) -> int, i: nat)
  {
    && i < |args| && i < |f.params|
    && (i < |g.params| ==> rank(args[i], f.params[i].ty) < rank(args[i], g.params[i].ty))
  }

  predicate SomewhereBetter<A, P>(f: Func<P>, g: Func<P>, args: seq<A>, rank: (A, P) -> int)
  {
    exists i: nat | i < |args| :: Better(f, g, args, rank, i)
  }

  /** No argument is worse, and some argument is better: section 13.3.3 of ISO/IEC
      14882:2011. */
  predicate Dominates<A, P>(f: Func<P>, g: Func<P>, args: seq<A>, rank: (A, P) -> int)
  {
    SomewhereBetter(f, g, args, rank) && !SomewhereBetter(g, f, args, rank)
  }

  function Compared<A, P>(a: Func<P>, b: Func<P>, args: seq<A>, rank: (A, P) -> int): int
  {
    if SomewhereBetter(a, b, args, rank) then -1
    else if SomewhereBetter(b, a, args, rank) then 1
    else 0
  }

  /** The comparator's loop. */
  method CompareViableFuncs<A, P>(a: Func<P>, b: Func<P>, args: seq<A>, rank: (A, P) -> int) returns (r: int)
    ensures r == Compared(a, b, args, rank)
  {
    var hasBetter := false;
    var i := 0;
    while i < |args|
      invariant 0 <= i <= |args|
      invariant forall k: nat :: k < i ==> !Better(a, b, args, rank, k)
      invariant hasBetter <==> exists k: nat | k < i :: Better(b, a, args, rank, k)
    {
      var inA, inB := i >= |a.params|, i >= |b.params|;
      if inA && inB {
        break;
      } else if inB {
        assert Better(a, b, args, rank, i);
        return -1;
      } else if inA {
        assert Better(b, a, args, rank, i);
        hasBetter := true;
      } else {
        var aRank, bRank := rank(args[i], a.params[i].ty), rank(args[i], b.params[i].ty);
        if aRank < bRank {
          assert Better(a, b, args, rank, i);
          return -1;
        } else if aRank > bRank {
          assert Better(b, a, args, rank, i);
          hasBetter := true;
        }
      }
      i := i + 1;
    }
    r := if hasBetter then 1 else 0;
  }

  /** The comparator is not an order of its own: it can put each of two functions
      before the other. */
  lemma BothBefore()
    ensures var f, g := Func(0, [Param(0, false), Param(1, false)], false), Func(1, [Param(1, false), Param(0, false)], false);
            var rank := (a: int, p: int) => if a == p then 1 else 2;
            Compared(f, g, [0, 0], rank) == -1 && Compared(g, f, [0, 0], rank) == -1
  {
    var f, g := Func(0, [Param(0, false), Param(1, false)], false), Func(1, [Param(1, false), Param(0, false)], false);
    var rank := (a: int, p: int) => if a == p then 1 else 2;
    assert Better(f, g, [0, 0], rank, 0);
    assert Better(g, f, [0, 0], rank, 1);
  }

  /** But what it reports as greater is dominance, which is a strict partial
      order. */
  lemma GreaterIsDominance<A(!new), P(!new)>(args: seq<A>, rank: (A, P) -> int)
    ensures IsOrder((x: Func<P>, y: Func<P>) => Compared(x, y, args, rank))
  {
    var comp := (x: Func<P>, y: Func<P>) => Compared(x, y, args, rank);
    forall x: Func<P>, y: Func<P>, z: Func<P> | comp(x, y) > 0 && comp(y, z) > 0 ensures comp(x, z) > 0 {
      DominanceTransitive(z, y, x, args, rank);
    }
  }

  lemma DominanceTransitive<A, P>(f: Func<P>, g: Func<P>, h: Func<P>, args: seq<A>, rank: (A, P) -> int)
    requires Dominates(f, g, args, rank) && Dominates(g, h, args, rank)
    ensures Dominates(f, h, args, rank)
  {
    var i: nat :| i < |args| && Better(f, g, args, rank, i);
    assert !Better(h, g, args, rank, i);
    assert Better(f, h, args, rank, i);
    forall k: nat | k < |args| ensures !Better(h, f, args, rank, k) {
      assert !Better(g, f, args, rank, k) && !Better(h, g, args, rank, k);
    }
  }

  /** d dominates every other one of the functions. */
  ghost predicate Best<A(!new), P(!new)>(d: Func<P>, funcs: seq<Func<P>>, args: seq<A>, rank: (A, P) -> int)
  {
    d in funcs && forall g :: g in funcs && g != d ==> Dominates(d, g, args, rank)
  }

  lemma BestIsTop<A(!new), P(!new)>(d: Func<P>, funcs: seq<Func<P>>, args: seq<A>, rank: (A, P) -> int)
    requires Best(d, funcs, args, rank)
    ensures IsTop(funcs, d, (x: Func<P>, y: Func<P>) => Compared(x, y, args, rank))
  {
    forall x | x in funcs ensures Compared(d, x, args, rank) <= 0 {
      if x == d {
        assert forall i: nat :: !Better(d, d, args, rank, i);
      }
    }
  }

  /** The functions obey the language rule for defaults. */
  ghost predicate AllTrail<P(!new)>(funcs: seq<Func<P>>)
  {
    forall f :: f in funcs ==> DefaultsTrail(f)
  }

  /** d dominates every other function that can be called. */
  ghost predicate BestCallable<A(!new), P(!new)>(d: Func<P>, funcs: seq<Func<P>>, args: seq<A>,
                                                 canConvert: (A, P) -> bool, rank: (A, P) -> int)
  {
    && d in funcs && Callable(d, args, canConvert)
    && forall g :: g in funcs && g != d && Callable(g, args, canConvert) ==> Dominates(d, g, args, rank)
  }

  /** The overload chosen: a viable function no other viable one dominates, and the
      one that dominates all the others whenever there is one, in whatever order
      the functions were declared; nothing only if nothing is viable.  Where defaults
      are trailing the viable functions are those that can be called. */
  method BestViableFunc<A(!new), P(!new)>(args: seq<A>, funcs: seq<Func<P>>, canConvert: (A, P) -> bool, rank: (A, P) -> int)
    returns (r: Option<Func<P>>)
    ensures r.None? <==> forall f :: f in funcs ==> !Viable(f, args, canConvert)
    ensures r.Some? ==> r.value in funcs && Viable(r.value, args, canConvert)
    ensures r.Some? ==> forall g :: g in funcs && Viable(g, args, canConvert) ==> !Dominates(g, r.value, args, rank)
    ensures r.Some? ==> forall d :: Best(d, Filtered(funcs, args, canConvert), args, rank) ==> r.value == d
    ensures AllTrail(funcs) ==>
            && (r.None? <==> forall f :: f in funcs ==> !Callable(f, args, canConvert))
            && (r.Some? ==> Callable(r.value, args, canConvert))
            && (r.Some? ==> forall g :: g in funcs && Callable(g, args, canConvert) ==> !Dominates(g, r.value, args, rank))
            && forall d :: BestCallable(d, funcs, args, canConvert, rank) ==> r == Some(d)
  {
    hide Filtered, Viable, Dominates, IsOrder, IsTop, SomewhereBetter, Callable, DefaultsTrail;
    var viable := ViableFuncs(funcs, args, canConvert);
    if AllTrail(funcs) { AllCallable(funcs, args, canConvert); }
    if |viable| == 0 {
      NoneViable(funcs, args, canConvert);
      return None;
    }
    var arr := new Func<P>[|viable|](i requires 0 <= i < |viable| => viable[i]);
    assert arr[..] == viable;
    var comp := (x: Func<P>, y: Func<P>) => Compared(x, y, args, rank);
    Qsort(arr, comp);
    GreaterIsDominance(args, rank);
    FirstOfSorted(viable, arr[..], args, rank);
    r := Some(arr[0]);
    forall d | AllTrail(funcs) && BestCallable(d, funcs, args, canConvert, rank) ensures r == Some(d) {
      assert Best(d, viable, args, rank);
    }
  }

  lemma AllCallable<A, P(!new)>(funcs: seq<Func<P>>, args: seq<A>, canConvert: (A, P) -> bool)
    requires AllTrail(funcs)
    ensures forall f :: f in funcs ==> (Viable(f, args, canConvert) <==> Callable(f, args, canConvert))
  {
    forall f | f in funcs ensures Viable(f, args, canConvert) <==> Callable(f, args, canConvert) {
      ViableIsCallable(f, args, canConvert);
    }
  }

  lemma NoneViable<A(!new), P(!new)>(funcs: seq<Func<P>>, args: seq<A>, canConvert: (A, P) -> bool)
    requires |Filtered(funcs, args, canConvert)| == 0
    ensures forall f :: f in funcs ==> !Viable(f, args, canConvert)
  {
    hide Filtered;
    assert forall f :: f !in Filtered(funcs, args, canConvert);
  }

  lemma FirstOfSorted<A(!new), P(!new)>(viable: seq<Func<P>>, sorted: seq<Func<P>>, args: seq<A>, rank: (A, P) -> int)
    requires |viable| > 0 && multiset(sorted) == multiset(viable)
    requires var comp := (x: Func<P>, y: Func<P>) => Compared(x, y, args, rank);
             && |sorted| == |viable|
             && NoInversion(sorted, 0, |sorted|, comp)
             && forall top :: IsTop(viable, top, comp) ==> sorted[0] == top
    ensures sorted[0] in viable
    ensures forall g :: g in viable ==> !Dominates(g, sorted[0], args, rank)
    ensures forall d :: Best(d, viable, args, rank) ==> sorted[0] == d
  {
    hide IsTop, Better;
    var comp := (x: Func<P>, y: Func<P>) => Compared(x, y, args, rank);
    assert sorted[0] in multiset(sorted);
    forall g | g in viable ensures !Dominates(g, sorted[0], args, rank) {
      assert g in multiset(sorted);
      var j :| 0 <= j < |sorted| && sorted[j] == g;
      if j > 0 { assert comp(sorted[0], sorted[j]) <= 0; }
    }
    forall d | Best(d, viable, args, rank) ensures sorted[0] == d {
      BestIsTop(d, viable, args, rank);
    }
  }
}
