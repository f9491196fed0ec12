/** The vector and search helpers of src/sphinxstd.h the other modules call. */
module Vectors {

  ghost predicate Sorted(s: seq<int>) {
    forall i, j :: 0 <= i < j < |s| ==> s[i] <= s[j]
  }

  ghost predicate Ascending(s: seq<int>) {
    forall i, j :: 0 <= i < j < |s| ==> s[i] < s[j]
  }

  ghost predicate Distinct<T>(s: seq<T>) {
    forall i, j :: 0 <= i < j < |s| ==> s[i] != s[j]
  }

  /** CSphVector::RemoveFast: the tail takes the place of the removed element. */
  function RemoveFast<T>(s: seq<T>, i: nat): (r: seq<T>)
    requires i < |s|
    ensures |r| == |s| - 1
    ensures forall k :: 0 <= k < i ==> r[k] == s[k]
    ensures i < |r| ==> r[i] == s[|s| - 1]
    ensures forall k :: i < k < |r| ==> r[k] == s[k]
  {
    s[i := s[|s| - 1]][..|s| - 1]
  }

  lemma RemoveFastElements<T>(s: seq<T>, i: nat)
    requires i < |s|
    ensures multiset(RemoveFast(s, i)) == multiset(s) - multiset{s[i]}
    ensures forall x :: x in RemoveFast(s, i) ==> x in s
    ensures forall x :: x in s && x != s[i] ==> x in RemoveFast(s, i)
    ensures Distinct(s) ==> Distinct(RemoveFast(s, i)) && s[i] !in RemoveFast(s, i)
  {
    RemoveFastMultiset(s, i);
    var r := RemoveFast(s, i);
    assert forall x :: x in r <==> x in multiset(r);
    assert forall x :: x in s <==> x in multiset(s);
  }

  lemma SwapOut<T>(front: seq<T>, x: T, back: seq<T>, y: T)
    ensures multiset(front + [y] + back) == multiset(front + [x] + back + [y]) - multiset{x}
  {
  }

  lemma RemoveFastMultiset<T>(s: seq<T>, i: nat)
    requires i < |s|
    ensures multiset(RemoveFast(s, i)) == multiset(s) - multiset{s[i]}
  {
    hide RemoveFast;
    var last := |s| - 1;
    assert s == s[..last] + [s[last]];
    if i < last {
      var front, back := s[..i], s[i + 1..last];
      assert s == front + [s[i]] + back + [s[last]];
      assert RemoveFast(s, i) == front + [s[last]] + back;
      SwapOut(front, s[i], back, s[last]);
    } else {
      assert RemoveFast(s, i) == s[..last];
    }
  }

  /** sphBinarySearch over the inclusive range lo..hi; -1 stands for a null result. */
  method BinarySearch(a: seq<int>, lo: int, hi: int, ref: int) returns (at: int)
    requires 0 <= lo && hi < |a|
    requires lo <= hi ==> Sorted(a[lo..hi + 1])
    ensures at == -1 || (lo <= at <= hi && a[at] == ref)
    ensures at == -1 <==> (hi < lo || ref !in a[lo..hi + 1])
  {
    if hi < lo {
      return -1;
    }
    InRange(a, lo, hi, ref);
    if a[lo] == ref {
      return lo;
    }
    if a[hi] == ref {
      return hi;
    }
    hide Sorted;
    var s, e := lo, hi;
    while e - s > 1
      invariant lo <= s <= e <= hi
      invariant forall k :: lo <= k <= hi && a[k] == ref ==> s < k < e
      decreases e - s
    {
      if ref < a[s] || a[e] < ref {
        break;
      }
      var mid := s + (e - s) / 2;
      if ref == a[mid] {
        return mid;
      }
      if ref < a[mid] {
        e := mid;
      } else {
        s := mid;
      }
    }
    at := -1;
  }

  /** A sorted range of a vector, by the vector's own positions. */
  lemma InRange(a: seq<int>, lo: int, hi: int, ref: int)
    requires 0 <= lo <= hi < |a| && Sorted(a[lo..hi + 1])
    ensures forall i, j :: lo <= i <= j <= hi ==> a[i] <= a[j]
    ensures ref in a[lo..hi + 1] <==> exists k :: lo <= k <= hi && a[k] == ref
  {
    var range := a[lo..hi + 1];
    forall i, j | lo <= i <= j <= hi ensures a[i] <= a[j] {
      assert a[i] == range[i - lo] && a[j] == range[j - lo];
    }
    if k :| lo <= k <= hi && a[k] == ref {
      assert range[k - lo] == ref;
    }
  }

  /** Sort: any ordering algorithm; only this contract is relied on. */
  method Sort(s: seq<int>) returns (r: seq<int>)
    ensures Sorted(r) && multiset(r) == multiset(s)
    ensures Distinct(s) ==> Ascending(r)
    ensures forall x :: x in r <==> x in s
  {
    r := [];
    for i := 0 to |s|
      invariant Sorted(r) && multiset(r) == multiset(s[..i])
    {
      assert s[..i + 1] == s[..i] + [s[i]];
      r := Insert(r, s[i]);
    }
    assert s[..|s|] == s;
    assert forall x :: x in r <==> x in multiset(r);
    if Distinct(s) {
      StaysDistinct(s, r);
    }
  }

  lemma OneAscends(s: seq<int>)
    requires |s| <= 1
    ensures Ascending(s)
  {
  }

  lemma AscendsOn(s: seq<int>, x: int)
    requires Ascending(s) && (s != [] ==> s[|s| - 1] < x)
    ensures Ascending(s + [x])
  {
  }

  /** sphUniq on sorted data: keeps the first of equal neighbours. */
  method Uniq(s: seq<int>) returns (r: seq<int>)
    requires Sorted(s)
    ensures Ascending(r) && forall x :: x in r <==> x in s
  {
    hide Ascending;
    r := s;
    if |s| == 0 {
      OneAscends(s);
      return;
    }
    var src, dst := 1, 1;
    OneAscends(r[..dst]);
    while src < |s|
      invariant 1 <= dst <= src <= |s| == |r|
      invariant r[src..] == s[src..] && r[dst - 1] == s[src - 1]
      invariant Ascending(r[..dst]) && forall x :: x in r[..dst] <==> x in s[..src]
    {
      assert forall k :: src <= k < |r| ==> r[k] == r[src..][k - src] == s[src..][k - src];
      assert s[..src + 1] == s[..src] + [s[src]];
      if r[dst - 1] == r[src] {
        assert r[dst - 1] in r[..dst];
      } else {
        assert r[dst := r[src]][..dst + 1] == r[..dst] + [r[src]];
        AscendsOn(r[..dst], r[src]);
        r := r[dst := r[src]];
        dst := dst + 1;
      }
      assert forall k :: src < k < |r| ==> r[k] == s[k];
      src := src + 1;
    }
    assert s[..|s|] == s;
    r := r[..dst];
  }

  method Insert(s: seq<int>, x: int) returns (r: seq<int>)
    requires Sorted(s)
    ensures Sorted(r) && multiset(r) == multiset(s) + multiset{x}
  {
    var k := 0;
    while k < |s| && s[k] < x
      invariant 0 <= k <= |s| && forall j :: 0 <= j < k ==> s[j] < x
    {
      k := k + 1;
    }
    InsertAt(s, k, x);
    r := s[..k] + [x] + s[k..];
  }

  lemma InsertAt(s: seq<int>, k: nat, x: int)
    requires Sorted(s) && k <= |s|
    requires forall j :: 0 <= j < k ==> s[j] < x
    requires k < |s| ==> x <= s[k]
    ensures Sorted(s[..k] + [x] + s[k..])
    ensures multiset(s[..k] + [x] + s[k..]) == multiset(s) + multiset{x}
  {
    InsertedElements(s[..k], x, s[k..]);
    assert s == s[..k] + s[k..];
    InsertedOrder(s, k, x);
  }

  lemma InsertedOrder(s: seq<int>, k: nat, x: int)
    requires Sorted(s) && k <= |s|
    requires forall j :: 0 <= j < k ==> s[j] < x
    requires k < |s| ==> x <= s[k]
    ensures Sorted(s[..k] + [x] + s[k..])
  {
    var r := s[..k] + [x] + s[k..];
    forall i, j | 0 <= i < j < |r| ensures r[i] <= r[j] {
      assert i != k ==> r[i] == s[if i < k then i else i - 1];
      assert j != k ==> r[j] == s[if j < k then j else j - 1];
    }
  }

  lemma InsertedElements<T>(a: seq<T>, x: T, b: seq<T>)
    ensures multiset(a + [x] + b) == multiset(a + b) + multiset{x}
  {
  }

  lemma {:induction false} Occurrences(s: seq<int>)
    ensures Distinct(s) <==> forall x :: multiset(s)[x] <= 1
  {
    if s == [] {
      return;
    }
    var front, x := s[..|s| - 1], s[|s| - 1];
    assert s == front + [x];
    Occurrences(front);
    if Distinct(s) {
      assert x !in front;
    } else if Distinct(front) {
      var i, j :| 0 <= i < j < |s| && s[i] == s[j];
      assert j == |s| - 1 && front[i] == x;
      assert multiset(s)[x] > 1;
    } else {
      var y :| multiset(front)[y] > 1;
      assert multiset(s)[y] > 1;
    }
  }

  lemma StaysDistinct(s: seq<int>, r: seq<int>)
    requires Distinct(s) && multiset(r) == multiset(s)
    ensures Distinct(r)
  {
    Occurrences(s);
    Occurrences(r);
  }

  /** Sum of f over a vector. */
  function SumBy<T>(s: seq<T>, f: T -> int): int {
    if s == [] then 0 else f(s[0]) + SumBy(s[1..], f)
  }

  lemma {:induction false} SumConcat<T>(a: seq<T>, b: seq<T>, f: T -> int)
    ensures SumBy(a + b, f) == SumBy(a, f) + SumBy(b, f)
  {
    if a == [] {
      assert a + b == b;
    } else {
      assert (a + b)[1..] == a[1..] + b;
      SumConcat(a[1..], b, f);
    }
  }

  lemma SumSnoc<T>(s: seq<T>, x: T, f: T -> int)
    ensures SumBy(s + [x], f) == SumBy(s, f) + f(x)
  {
    SumConcat(s, [x], f);
    assert [x][1..] == [];
  }

  /** Splitting off the last element. */
  lemma SumLast<T>(s: seq<T>, f: T -> int)
    requires s != []
    ensures SumBy(s, f) == SumBy(s[..|s| - 1], f) + f(s[|s| - 1])
  {
    assert s == s[..|s| - 1] + [s[|s| - 1]];
    SumSnoc(s[..|s| - 1], s[|s| - 1], f);
  }

  lemma {:induction false} SumUpdate<T>(s: seq<T>, i: nat, x: T, f: T -> int)
    requires i < |s|
    ensures SumBy(s[i := x], f) == SumBy(s, f) - f(s[i]) + f(x)
  {
    if i == 0 {
      assert s[0 := x][1..] == s[1..];
    } else {
      assert s[i := x][1..] == s[1..][i - 1 := x];
      SumUpdate(s[1..], i - 1, x, f);
    }
  }

  lemma {:induction false} SumNonNegative<T>(s: seq<T>, f: T -> int)
    requires forall x <- s :: f(x) >= 0
    ensures SumBy(s, f) >= 0
  {
    if s != [] {
      SumNonNegative(s[1..], f);
    }
  }

  /** Splitting off the first element of a tail. */
  lemma SumFirst<T>(s: seq<T>, i: nat, f: T -> int)
    requires i < |s|
    ensures SumBy(s[i..], f) == f(s[i]) + SumBy(s[i + 1..], f)
  {
    assert s[i..][1..] == s[i + 1..];
  }

  lemma SumWithout<T>(b: seq<T>, i: nat, f: T -> int)
    requires i < |b|
    ensures SumBy(b, f) == f(b[i]) + SumBy(b[..i] + b[i + 1..], f)
  {
    hide SumBy;
    assert b == b[..i] + [b[i]] + b[i + 1..];
    SumConcat(b[..i] + [b[i]], b[i + 1..], f);
    SumSnoc(b[..i], b[i], f);
    SumConcat(b[..i], b[i + 1..], f);
  }

  lemma SameWithout<T>(a: seq<T>, b: seq<T>, i: nat)
    requires a != [] && i < |b| && multiset(a) == multiset(b) && b[i] == a[0]
    ensures multiset(a[1..]) == multiset(b[..i] + b[i + 1..])
  {
    var x, rest := b[i], b[..i] + b[i + 1..];
    assert multiset(a[1..]) + multiset{x} == multiset(a) by {
      assert a == [x] + a[1..];
    }
    assert multiset(rest) + multiset{x} == multiset(b) by {
      InsertedElements(b[..i], x, b[i + 1..]);
      assert b == b[..i] + [x] + b[i + 1..];
    }
    assert multiset(a[1..]) == multiset(a) - multiset{x};
    assert multiset(rest) == multiset(b) - multiset{x};
  }

  /** A sum does not depend on the order. */
  lemma {:induction false} SumPermuted<T>(a: seq<T>, b: seq<T>, f: T -> int)
    requires multiset(a) == multiset(b)
    ensures SumBy(a, f) == SumBy(b, f)
    decreases |a|
  {
    if a == [] {
      assert |multiset(b)| == 0;
    } else {
      assert a[0] in multiset(b);
      var i :| 0 <= i < |b| && b[i] == a[0];
      SameWithout(a, b, i);
      SumWithout(b, i, f);
      SumPermuted(a[1..], b[..i] + b[i + 1..], f);
    }
  }
}
