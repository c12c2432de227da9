/** Array.prototype.sort: a stable sort by a comparator, which is given by what it puts strictly before what. */
module Sorting {
  /** Behind everything that x does not come before. */
  function Insert<T>(s: seq<T>, x: T, before: (T, T) -> bool): (r: seq<T>)
    ensures |r| == |s| + 1
  {
    if s != [] && before(x, s[|s| - 1]) then Insert(s[..|s| - 1], x, before) + [s[|s| - 1]] else s + [x]
  }

  function Sort<T>(s: seq<T>, before: (T, T) -> bool): (r: seq<T>)
    ensures |r| == |s|
  {
    if s == [] then [] else Insert(Sort(s[..|s| - 1], before), s[|s| - 1], before)
  }

  /** What a comparator has to satisfy for sorting to be determined. */
  ghost predicate WeakOrder<T(!new)>(before: (T, T) -> bool) {
    && (forall a, b :: before(a, b) ==> !before(b, a))
    && (forall a, b, c :: before(a, b) ==> before(a, c) || before(c, b))
  }

  ghost predicate InOrder<T>(s: seq<T>, before: (T, T) -> bool) {
    forall i, j :: 0 <= i < j < |s| ==> !before(s[j], s[i])
  }

  lemma {:induction false} InsertSplits<T(!new)>(s: seq<T>, x: T, before: (T, T) -> bool) returns (k: nat)
    requires WeakOrder(before) && InOrder(s, before)
    ensures k <= |s| && Insert(s, x, before) == s[..k] + [x] + s[k..]
    ensures (forall i :: 0 <= i < k ==> !before(x, s[i])) && (forall i :: k <= i < |s| ==> before(x, s[i]))
    ensures InOrder(Insert(s, x, before), before)
  {
    k := InsertPlace(s, x, before);
    InOrderThere(s, x, before, k);
  }

  lemma InOrderThere<T(!new)>(s: seq<T>, x: T, before: (T, T) -> bool, k: nat)
    requires WeakOrder(before) && InOrder(s, before) && k <= |s|
    requires (forall i :: 0 <= i < k ==> !before(x, s[i])) && (forall i :: k <= i < |s| ==> before(x, s[i]))
    ensures InOrder(s[..k] + [x] + s[k..], before)
  {
  }

  lemma {:induction false} InsertPlace<T(!new)>(s: seq<T>, x: T, before: (T, T) -> bool) returns (k: nat)
    requires WeakOrder(before) && InOrder(s, before)
    ensures k <= |s| && Insert(s, x, before) == s[..k] + [x] + s[k..]
    ensures (forall i :: 0 <= i < k ==> !before(x, s[i])) && (forall i :: k <= i < |s| ==> before(x, s[i]))
  {
    k := |s|;
    assert s[..k] + [x] + s[k..] == s + [x];
    if s != [] {
      var t, last := s[..|s| - 1], s[|s| - 1];
      if before(x, last) {
        k := InsertPlace(t, x, before);
        assert s[..k] == t[..k] && s[k..] == t[k..] + [last];
        assert s[..k] + [x] + s[k..] == (t[..k] + [x] + t[k..]) + [last];
        forall i | k <= i < |s| ensures before(x, s[i]) { if i < |t| { assert s[i] == t[i]; } }
      } else {
        forall i | 0 <= i < |s| ensures !before(x, s[i]) { LastDecides(s, x, before, i); }
      }
    }
  }

  lemma LastDecides<T(!new)>(s: seq<T>, x: T, before: (T, T) -> bool, i: nat)
    requires WeakOrder(before) && InOrder(s, before) && i < |s| && !before(x, s[|s| - 1])
    ensures !before(x, s[i])
  {
  }

  lemma {:induction false} SortSorts<T(!new)>(s: seq<T>, before: (T, T) -> bool)
    requires WeakOrder(before)
    ensures InOrder(Sort(s, before), before) && multiset(Sort(s, before)) == multiset(s)
  {
    if s != [] {
      hide WeakOrder, InOrder, Insert;
      assert s == s[..|s| - 1] + [s[|s| - 1]];
      SortSorts(s[..|s| - 1], before);
      var t := Sort(s[..|s| - 1], before);
      var k := InsertSplits(t, s[|s| - 1], before);
      assert t == t[..k] + t[k..];
    }
  }

  lemma {:induction false} SortOfSorted<T>(s: seq<T>, before: (T, T) -> bool)
    requires InOrder(s, before)
    ensures Sort(s, before) == s
  {
    if s != [] {
      assert s == s[..|s| - 1] + [s[|s| - 1]];
      SortOfSorted(s[..|s| - 1], before);
      if |s| > 1 { assert !before(s[|s| - 1], s[|s| - 2]); }
    }
  }

  lemma SameMembers<T>(a: seq<T>, b: seq<T>)
    requires multiset(a) == multiset(b)
    ensures forall x :: x in a <==> x in b
  {
    assert forall x :: x in a <==> x in multiset(a);
    assert forall x :: x in b <==> x in multiset(b);
  }

  /** What occurs only once occurs only once in any rearrangement. */
  lemma StillOnce<T>(s: seq<T>, r: seq<T>, i: nat, j: nat)
    requires (forall a, b :: 0 <= a < b < |s| ==> s[a] != s[b]) && multiset(r) == multiset(s) && i < j < |r|
    ensures r[i] != r[j]
  {
    if r[i] == r[j] {
      CountTwo(r, i, j);
      CountOne(s, r[i]);
      assert false;
    }
  }

  lemma CountTwo<T>(r: seq<T>, i: nat, j: nat)
    requires i < j < |r| && r[i] == r[j]
    ensures multiset(r)[r[i]] >= 2
  {
    assert r == r[..i] + [r[i]] + r[i + 1..j] + [r[j]] + r[j + 1..];
  }

  lemma CountOne<T>(s: seq<T>, x: T)
    requires forall a, b :: 0 <= a < b < |s| ==> s[a] != s[b]
    ensures multiset(s)[x] <= 1
  {
    if x in s {
      var i :| 0 <= i < |s| && s[i] == x;
      assert s == s[..i] + [x] + s[i + 1..];
      assert x !in s[..i] && x !in s[i + 1..];
    }
  }
}
