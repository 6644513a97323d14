/** The quicksort of the compiler's containers.  The comparator is any function;
    comp(x, y) > 0 says that y is to stand before x. */
module Sorting {

  /** b is a with the elements from lo to hi rearranged. */
  ghost predicate Permuted<T>(a: seq<T>, b: seq<T>, lo: int, hi: int)
  {
    && 0 <= lo <= hi <= |a| == |b|
    && a[..lo] == b[..lo] && a[hi..] == b[hi..]
    && multiset(a[lo..hi]) == multiset(b[lo..hi])
  }

  lemma PermutedWiden<T>(a: seq<T>, b: seq<T>, lo: int, hi: int, lo': int, hi': int)
    requires Permuted(a, b, lo, hi) && 0 <= lo' <= lo && hi <= hi' <= |a|
    ensures Permuted(a, b, lo', hi')
  {
    forall k | 0 <= k < lo || hi <= k < |a| ensures a[k] == b[k] {
      if k < lo {
        assert a[k] == a[..lo][k] && b[k] == b[..lo][k];
      } else {
        assert a[k] == a[hi..][k - hi] && b[k] == b[hi..][k - hi];
      }
    }
    assert a[lo'..hi'] == a[lo'..lo] + a[lo..hi] + a[hi..hi'];
    assert b[lo'..hi'] == b[lo'..lo] + b[lo..hi] + b[hi..hi'];
    assert a[lo'..lo] == b[lo'..lo] && a[hi..hi'] == b[hi..hi'];
  }

  lemma SwapPermutes<T>(a: seq<T>, i: int, j: int, lo: int, hi: int)
    requires 0 <= lo <= i <= j < hi <= |a|
    ensures Permuted(a, a[i := a[j]][j := a[i]], lo, hi)
  {
    var b := a[i := a[j]][j := a[i]];
    if i < j {
      SwapInParts(a, i, j, lo, hi);
      ExchangeKeeps(a[lo..hi], b[lo..hi], a[lo..i], a[i], a[i + 1..j], a[j], a[j + 1..hi]);
    } else {
      assert b == a;
    }
  }

  lemma SwapInParts<T>(a: seq<T>, i: int, j: int, lo: int, hi: int)
    requires 0 <= lo <= i < j < hi <= |a|
    ensures var b := a[i := a[j]][j := a[i]];
            && a[lo..hi] == a[lo..i] + [a[i]] + a[i + 1..j] + [a[j]] + a[j + 1..hi]
            && b[lo..hi] == a[lo..i] + [a[j]] + a[i + 1..j] + [a[i]] + a[j + 1..hi]
            && b[..lo] == a[..lo] && b[hi..] == a[hi..]
  {
  }

  lemma ExchangeKeeps<T>(a: seq<T>, b: seq<T>, left: seq<T>, x: T, mid: seq<T>, y: T, right: seq<T>)
    requires a == left + [x] + mid + [y] + right && b == left + [y] + mid + [x] + right
    ensures multiset(a) == multiset(b)
  {
  }

  /** A rearranged stretch has the same members. */
  lemma PermutedMembers<T>(a: seq<T>, b: seq<T>, lo: int, hi: int, x: T)
    requires Permuted(a, b, lo, hi)
    ensures x in a[lo..hi] <==> x in b[lo..hi]
  {
    assert x in a[lo..hi] <==> x in multiset(a[lo..hi]);
    assert x in b[lo..hi] <==> x in multiset(b[lo..hi]);
  }

  method Swap<T>(v: array<T>, i: int, j: int, ghost lo: int, ghost hi: int)
    requires 0 <= lo <= i <= j < hi <= v.Length
    modifies v
    ensures v[i] == old(v[j]) && v[j] == old(v[i])
    ensures forall k :: 0 <= k < v.Length && k != i && k != j ==> v[k] == old(v[k])
    ensures Permuted(old(v[..]), v[..], lo, hi)
  {
    SwapPermutes(v[..], i, j, lo, hi);
    ghost var was := v[..];
    v[i], v[j] := v[j], v[i];
    assert v[..] == was[i := was[j]][j := was[i]];
  }

  lemma PermutedTrans<T>(a: seq<T>, b: seq<T>, c: seq<T>, lo: int, hi: int)
    requires Permuted(a, b, lo, hi) && Permuted(b, c, lo, hi)
    ensures Permuted(a, c, lo, hi)
  {
  }

  /** Gathers what is to stand before the leftmost element next to it, up to
      index last. */
  method Gather<T>(v: array<T>, left: int, right: int, comp: (T, T) -> int) returns (last: int)
    requires 0 <= left < right < v.Length
    modifies v
    ensures left <= last <= right && Permuted(old(v[..]), v[..], left, right + 1)
    ensures forall k :: left < k <= last ==> comp(v[left], v[k]) > 0
    ensures forall k :: last < k <= right ==> comp(v[left], v[k]) <= 0
  {
    hide Permuted;
    ghost var start := v[..];
    PermutedSelf(start, left, right + 1);
    last := left;
    for i := left + 1 to right + 1
      invariant left <= last < i && Permuted(start, v[..], left, right + 1)
      invariant forall k :: left < k <= last ==> comp(v[left], v[k]) > 0
      invariant forall k :: last < k < i ==> comp(v[left], v[k]) <= 0
    {
      if comp(v[left], v[i]) > 0 {
        last := last + 1;
        ghost var now := v[..];
        Swap(v, last, i, left, right + 1);
        PermutedTrans(start, now, v[..], left, right + 1);
      }
    }
  }

  lemma PermutedSelf<T>(a: seq<T>, lo: int, hi: int)
    requires 0 <= lo <= hi <= |a|
    ensures Permuted(a, a, lo, hi)
  {
  }

  /** Moves what is to stand before the middle element to the left of it, and
      returns where it ends up. */
  method Partition<T>(v: array<T>, left: int, right: int, comp: (T, T) -> int) returns (last: int)
    requires 0 <= left < right < v.Length
    modifies v
    ensures left <= last <= right && Permuted(old(v[..]), v[..], left, right + 1)
    ensures forall k :: left <= k < last ==> comp(v[last], v[k]) > 0
    ensures forall k :: last < k <= right ==> comp(v[last], v[k]) <= 0
  {
    hide Permuted;
    var mid := (left + right) / 2;
    ghost var start := v[..];
    Swap(v, left, mid, left, right + 1);
    ghost var chosen := v[..];
    last := Gather(v, left, right, comp);
    ghost var gathered := v[..];
    PermutedTrans(start, chosen, gathered, left, right + 1);
    PutBack(v, left, last, right, comp);
    PermutedTrans(start, gathered, v[..], left, right + 1);
  }

  /** Puts the middle element between what was gathered and the rest. */
  method PutBack<T>(v: array<T>, left: int, last: int, right: int, comp: (T, T) -> int)
    requires 0 <= left <= last <= right < v.Length
    requires forall k :: left < k <= last ==> comp(v[left], v[k]) > 0
    requires forall k :: last < k <= right ==> comp(v[left], v[k]) <= 0
    modifies v
    ensures Permuted(old(v[..]), v[..], left, right + 1)
    ensures forall k :: left <= k < last ==> comp(v[last], v[k]) > 0
    ensures forall k :: last < k <= right ==> comp(v[last], v[k]) <= 0
  {
    hide Permuted;
    Swap(v, left, last, left, right + 1);
  }

  // ---------------------------------------------------- what sorting promises

  /** "Stands before" is a strict partial order. */
  ghost predicate IsOrder<T(!new)>(comp: (T, T) -> int)
  {
    && (forall x, y, z :: comp(x, y) > 0 && comp(y, z) > 0 ==> comp(x, z) > 0)
    && (forall x, y :: comp(x, y) > 0 ==> comp(y, x) <= 0)
  }

  /** No element has one behind it that is to stand before it. */
  ghost predicate NoInversion<T>(s: seq<T>, lo: int, hi: int, comp: (T, T) -> int)
    requires 0 <= lo && hi <= |s|
  {
    forall i, j :: lo <= i < j < hi ==> comp(s[i], s[j]) <= 0
  }

  /** top is to stand before every other member, and none before it; the comparator
      need not be consistent otherwise. */
  ghost predicate IsTop<T>(s: seq<T>, top: T, comp: (T, T) -> int)
  {
    && top in s
    && (forall x :: x in s && x != top ==> comp(x, top) > 0)
    && (forall x :: x in s ==> comp(top, x) <= 0)
  }

  /** The stretch is split at last by the comparison with the element there. */
  ghost predicate SplitAt<T>(s: seq<T>, lo: int, last: int, hi: int, comp: (T, T) -> int)
  {
    && 0 <= lo <= last < hi <= |s|
    && (forall x :: x in s[lo..last] ==> comp(s[last], x) > 0)
    && (forall x :: x in s[last + 1..hi] ==> comp(s[last], x) <= 0)
  }

  lemma SplitOf<T>(s: seq<T>, lo: int, last: int, hi: int, comp: (T, T) -> int)
    requires 0 <= lo <= last < hi <= |s|
    requires forall k :: lo <= k < last ==> comp(s[last], s[k]) > 0
    requires forall k :: last < k < hi ==> comp(s[last], s[k]) <= 0
    ensures SplitAt(s, lo, last, hi, comp)
  {
  }

  lemma SameStretch<T>(a: seq<T>, b: seq<T>, lo: int, hi: int, i: int, j: int)
    requires Permuted(a, b, lo, hi) && 0 <= i <= j <= |a| && (j <= lo || hi <= i)
    ensures a[i..j] == b[i..j]
  {
    forall k | i <= k < j ensures a[k] == b[k] {
      if j <= lo {
        assert a[k] == a[..lo][k] && b[k] == b[..lo][k];
      } else {
        assert a[k] == a[hi..][k - hi] && b[k] == b[hi..][k - hi];
      }
    }
  }

  /** Rearranging both sides keeps the split. */
  lemma SplitKept<T>(a: seq<T>, b: seq<T>, c: seq<T>, lo: int, last: int, hi: int, comp: (T, T) -> int)
    requires SplitAt(a, lo, last, hi, comp)
    requires Permuted(a, b, lo, last) && Permuted(b, c, last + 1, hi)
    ensures SplitAt(c, lo, last, hi, comp) && c[lo..last] == b[lo..last] && c[last] == a[last]
  {
    SameStretch(a, b, lo, last, last, last + 1);
    SameStretch(b, c, last + 1, hi, last, last + 1);
    SameStretch(b, c, last + 1, hi, lo, last);
    SameStretch(a, b, lo, last, last + 1, hi);
    assert a[last..last + 1][0] == c[last..last + 1][0];
    forall x | x in c[lo..last] ensures x in a[lo..last] {
      PermutedMembers(a, b, lo, last, x);
    }
    var m := last + 1;
    forall x | x in c[m..hi] ensures x in a[m..hi] {
      PermutedMembers(b, c, m, hi, x);
    }
  }

  lemma JoinSorted<T(!new)>(s: seq<T>, lo: int, last: int, hi: int, comp: (T, T) -> int)
    requires IsOrder(comp) && SplitAt(s, lo, last, hi, comp)
    requires NoInversion(s, lo, last, comp) && NoInversion(s, last + 1, hi, comp)
    ensures NoInversion(s, lo, hi, comp)
  {
    forall i, j | lo <= i < j < hi ensures comp(s[i], s[j]) <= 0 {
      if i < last {
        assert s[i] == s[lo..last][i - lo];
        assert comp(s[last], s[i]) > 0;
      }
      if last < j {
        assert s[j] == s[last + 1..hi][j - last - 1];
        assert comp(s[last], s[j]) <= 0;
      }
    }
  }

  ghost predicate TopOf<T>(s: seq<T>, lo: int, hi: int, top: T, comp: (T, T) -> int)
  {
    0 <= lo <= hi <= |s| && IsTop(s[lo..hi], top, comp)
  }

  /** A top element is the one the split is at, with nothing before it, or is among
      what stands before that one. */
  lemma TopGoesLeft<T>(a: seq<T>, s: seq<T>, lo: int, last: int, hi: int, top: T, comp: (T, T) -> int)
    requires Permuted(a, s, lo, hi) && SplitAt(s, lo, last, hi, comp) && TopOf(a, lo, hi, top, comp)
    ensures if s[last] == top then last == lo else lo < last && TopOf(s, lo, last, top, comp)
  {
    forall x ensures x in a[lo..hi] <==> x in s[lo..hi] {
      PermutedMembers(a, s, lo, hi, x);
    }
    assert s[lo..hi] == s[lo..last] + [s[last]] + s[last + 1..hi];
    assert s[last] == s[lo..hi][last - lo];
    if lo < last {
      assert s[lo..last][0] == s[lo] && s[lo] in s[lo..hi];
    }
    if s[last] != top {
      assert comp(s[last], top) > 0;
      assert top !in s[last + 1..hi];
      assert top in s[lo..last];
    }
  }

  /** What sorting the stretch of a from lo to hi makes of it. */
  ghost predicate SortedBy<T(!new)>(a: seq<T>, s: seq<T>, lo: int, hi: int, comp: (T, T) -> int)
  {
    && Permuted(a, s, lo, hi)
    && (IsOrder(comp) ==> NoInversion(s, lo, hi, comp))
    && (lo < hi ==> forall top :: TopOf(a, lo, hi, top, comp) ==> s[lo] == top)
  }

  /** Splitting, then sorting both sides, sorts. */
  lemma SortedSides<T(!new)>(start: seq<T>, part: seq<T>, mid: seq<T>, end: seq<T>, lo: int, last: int, hi: int, comp: (T, T) -> int)
    requires Permuted(start, part, lo, hi) && SplitAt(part, lo, last, hi, comp)
    requires SortedBy(part, mid, lo, last, comp) && SortedBy(mid, end, last + 1, hi, comp)
    ensures SortedBy(start, end, lo, hi, comp)
  {
    hide Permuted, SplitAt, TopOf, NoInversion, IsOrder;
    SplitKept(part, mid, end, lo, last, hi, comp);
    SidesPermute(start, part, mid, end, lo, last, hi);
    if IsOrder(comp) {
      StretchSorted(mid, end, lo, last, hi, comp);
      JoinSorted(end, lo, last, hi, comp);
    }
    forall top | TopOf(start, lo, hi, top, comp) ensures end[lo] == top {
      TopGoesLeft(start, part, lo, last, hi, top, comp);
      if lo < last { FirstOf(mid, end, lo, last); }
    }
  }

  lemma SidesPermute<T>(start: seq<T>, part: seq<T>, mid: seq<T>, end: seq<T>, lo: int, last: int, hi: int)
    requires Permuted(start, part, lo, hi) && lo <= last < hi
    requires Permuted(part, mid, lo, last) && Permuted(mid, end, last + 1, hi)
    ensures Permuted(start, end, lo, hi) && |mid| == |end| && 0 <= lo && hi <= |end|
  {
    PermutedWiden(part, mid, lo, last, lo, hi);
    PermutedWiden(mid, end, last + 1, hi, lo, hi);
    PermutedTrans(start, part, mid, lo, hi);
    PermutedTrans(start, mid, end, lo, hi);
  }

  lemma FirstOf<T>(b: seq<T>, c: seq<T>, lo: int, last: int)
    requires 0 <= lo < last <= |b| == |c| && c[lo..last] == b[lo..last]
    ensures b[lo] == c[lo]
  {
    assert b[lo] == b[lo..last][0] && c[lo] == c[lo..last][0];
  }

  lemma StretchSorted<T>(b: seq<T>, c: seq<T>, lo: int, last: int, hi: int, comp: (T, T) -> int)
    requires 0 <= lo <= last <= |b| == |c| && c[lo..last] == b[lo..last] && NoInversion(b, lo, last, comp)
    ensures NoInversion(c, lo, last, comp)
  {
    forall i, j | lo <= i < j < last ensures comp(c[i], c[j]) <= 0 {
      assert c[i] == c[lo..last][i - lo] == b[i] && c[j] == c[lo..last][j - lo] == b[j];
    }
  }

  method QsortImpl<T(!new)>(v: array<T>, left: int, right: int, comp: (T, T) -> int)
    requires 0 <= left && right < v.Length && left <= right + 1
    modifies v
    ensures SortedBy(old(v[..]), v[..], left, right + 1, comp)
    decreases right - left + 1
  {
    hide Permuted, SplitAt, SortedBy;
    ghost var start := v[..];
    if left >= right {
      AlreadySorted(start, left, right + 1, comp);
      return;
    }
    var last := Partition(v, left, right, comp);
    ghost var part := v[..];
    SplitOf(part, left, last, right + 1, comp);
    QsortImpl(v, left, last - 1, comp);
    ghost var mid := v[..];
    QsortImpl(v, last + 1, right, comp);
    SortedSides(start, part, mid, v[..], left, last, right + 1, comp);
  }

  lemma AlreadySorted<T(!new)>(s: seq<T>, lo: int, hi: int, comp: (T, T) -> int)
    requires 0 <= lo <= hi <= |s| && hi <= lo + 1
    ensures SortedBy(s, s, lo, hi, comp)
  {
  }

  /** Sorts the array: a rearrangement with no inversion when the comparator is an
      order, and with the top element first whenever there is one, order or not. */
  method Qsort<T(!new)>(v: array<T>, comp: (T, T) -> int)
    modifies v
    ensures multiset(v[..]) == multiset(old(v[..]))
    ensures IsOrder(comp) ==> NoInversion(v[..], 0, v.Length, comp)
    ensures 0 < v.Length ==> forall top :: IsTop(old(v[..]), top, comp) ==> v[0] == top
  {
    ghost var start := v[..];
    QsortImpl(v, 0, v.Length - 1, comp);
    assert v[..][0..v.Length] == v[..] && start[0..v.Length] == start;
    forall top | IsTop(start, top, comp) ensures 0 < v.Length && v[0] == top {
      assert TopOf(start, 0, v.Length, top, comp);
    }
  }
}
