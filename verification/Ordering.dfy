/** JavaScript's `<` on strings: lexicographic by code unit. */
module Ordering {

  predicate StrLess(a: string, b: string) {
    if b == "" then false
    else if a == "" then true
    else a[0] < b[0] || (a[0] == b[0] && StrLess(a[1..], b[1..]))
  }

  predicate StrAtMost(a: string, b: string) { a == b || StrLess(a, b) }

  lemma {:induction false} StrIrreflexive(a: string)
    ensures !StrLess(a, a)
  {
    if a != "" { StrIrreflexive(a[1..]); }
  }

  lemma {:induction false} StrTransitive(a: string, b: string, c: string)
    requires StrLess(a, b) && StrLess(b, c)
    ensures StrLess(a, c)
  {
    if a != "" && a[0] == b[0] == c[0] { StrTransitive(a[1..], b[1..], c[1..]); }
  }

  lemma {:induction false} StrTotal(a: string, b: string)
    ensures a == b || StrLess(a, b) || StrLess(b, a)
  {
    if a != "" && b != "" && a[0] == b[0] {
      StrTotal(a[1..], b[1..]);
      assert a == [a[0]] + a[1..] && b == [b[0]] + b[1..];
    }
  }

  lemma StrAsymmetric(a: string, b: string)
    requires StrLess(a, b)
    ensures !StrLess(b, a) && a != b
  {
  }

  /** What the order is: two strings agree up to some place, and there the first one ends or has the lower code. */
  predicate FirstDiffer(a: string, b: string, k: nat) {
    k <= |a| && k < |b| && a[..k] == b[..k] && (k == |a| || a[k] < b[k])
  }

  lemma {:induction false} StrLessIff(a: string, b: string)
    ensures StrLess(a, b) <==> exists k: nat :: FirstDiffer(a, b, k)
  {
    if a == "" || b == "" || a[0] < b[0] {
      if b != "" { assert FirstDiffer(a, b, 0); }
    } else {
      if a[0] == b[0] {
        StrLessIff(a[1..], b[1..]);
        if StrLess(a[1..], b[1..]) {
          var k: nat :| FirstDiffer(a[1..], b[1..], k);
          assert a == [a[0]] + a[1..] && b == [b[0]] + b[1..];
          assert a[..k + 1] == [a[0]] + a[1..][..k] && b[..k + 1] == [b[0]] + b[1..][..k];
          assert FirstDiffer(a, b, k + 1);
        }
      }
      if exists k: nat :: FirstDiffer(a, b, k) {
        var k: nat :| FirstDiffer(a, b, k);
        assert k > 0;
        assert a[..k][0] == a[0] && b[..k][0] == b[0];
        assert a[1..][..k - 1] == a[..k][1..] && b[1..][..k - 1] == b[..k][1..];
        assert FirstDiffer(a[1..], b[1..], k - 1);
      }
    }
  }
}
