/** The geohash of src/core/DataStore.js with coordinates as real numbers: fifty halvings, alternately of the
    longitude and the latitude range, written five to a character. */
module GeoHash {
  import opened Numbers

  const BASE32: string := "0123456789bcdefghjkmnpqrstuvwxyz"

  // ---------- halving one range ----------

  /** What is left of [lo, hi] after k halvings towards x. */
  function Interval(lo: real, hi: real, x: real, k: nat): (real, real) {
    if k == 0 then (lo, hi)
    else
      var (a, b) := Interval(lo, hi, x, k - 1);
      if x >= (a + b) / 2.0 then ((a + b) / 2.0, b) else (a, (a + b) / 2.0)
  }

  /** The outcome of halving number k: x is in the upper half. */
  predicate Bit(lo: real, hi: real, x: real, k: nat) {
    var (a, b) := Interval(lo, hi, x, k);
    x >= (a + b) / 2.0
  }

  /** The outcomes of the first k halvings, read as a binary number. */
  function Index(lo: real, hi: real, x: real, k: nat): nat {
    if k == 0 then 0 else 2 * Index(lo, hi, x, k - 1) + (if Bit(lo, hi, x, k - 1) then 1 else 0)
  }

  /** Where part n of width w starts. */
  function Cut(lo: real, w: real, n: nat): real { lo + n as real * w }

  lemma CutDoubles(lo: real, w: real, n: nat)
    ensures Cut(lo, 2.0 * w, n) == Cut(lo, w, 2 * n)
    ensures (Cut(lo, w, 2 * n) + Cut(lo, w, 2 * n + 2)) / 2.0 == Cut(lo, w, 2 * n + 1)
  {
  }

  lemma CutAscends(lo: real, w: real, n: nat, m: nat)
    requires w >= 0.0 && n <= m
    ensures Cut(lo, w, n) <= Cut(lo, w, m)
  {
  }

  /** x is in part n of `count` parts of width w from lo on, each without its upper end; points outside belong
      to the first or the last part. */
  predicate InPart(lo: real, w: real, count: nat, x: real, n: nat) {
    n < count && (n == 0 || Cut(lo, w, n) <= x) && (n == count - 1 || x < Cut(lo, w, n + 1))
  }

  function Width(lo: real, hi: real, k: nat): real { (hi - lo) / Pow2(k) as real }

  lemma Halved(lo: real, hi: real, k: nat)
    requires k > 0
    ensures 2.0 * Width(lo, hi, k) == Width(lo, hi, k - 1)
  {
  }

  /** The bisection finds the part of the range that x lies in. */
  lemma {:induction false} IndexIsPart(lo: real, hi: real, x: real, k: nat)
    requires lo < hi
    ensures var w := Width(lo, hi, k); var n := Index(lo, hi, x, k);
            InPart(lo, w, Pow2(k), x, n) && Interval(lo, hi, x, k) == (Cut(lo, w, n), Cut(lo, w, n + 1))
    decreases k
  {
    hide Cut, Width;
    if k == 0 {
      WholeRange(lo, hi);
    } else {
      IndexIsPart(lo, hi, x, k - 1);
      Halved(lo, hi, k);
      var w, n := Width(lo, hi, k), Index(lo, hi, x, k - 1);
      CutDoubles(lo, w, n);
      CutDoubles(lo, w, n + 1);
    }
  }

  lemma WholeRange(lo: real, hi: real)
    ensures Cut(lo, Width(lo, hi, 0), 0) == lo && Cut(lo, Width(lo, hi, 0), 1) == hi
  {
  }

  /** A point lies in one part only. */
  lemma PartIsUnique(lo: real, w: real, count: nat, x: real, n: nat, m: nat)
    requires w > 0.0 && InPart(lo, w, count, x, n) && InPart(lo, w, count, x, m)
    ensures n == m
  {
    hide Cut;
    if n < m {
      CutAscends(lo, w, n + 1, m);
    } else if m < n {
      CutAscends(lo, w, m + 1, n);
    }
  }

  /** The part of the range [lo, hi] that x lies in, by division. */
  function Part(lo: real, hi: real, x: real, count: nat): nat
    requires lo < hi && count > 0
  {
    var n := ((x - lo) / (hi - lo) * count as real).Floor;
    if n < 0 then 0 else if n >= count then count - 1 else n
  }

  /** HALVING IS DIVISION. The bisection finds the number of the part by comparisons alone. */
  lemma IndexIsDivision(lo: real, hi: real, x: real, k: nat)
    requires lo < hi
    ensures Index(lo, hi, x, k) == Part(lo, hi, x, Pow2(k))
  {
    IndexIsPart(lo, hi, x, k);
    WidthPositive(lo, hi, k);
    PartInPart(lo, hi, x, Pow2(k));
    PartIsUnique(lo, Width(lo, hi, k), Pow2(k), x, Index(lo, hi, x, k), Part(lo, hi, x, Pow2(k)));
  }

  lemma WidthPositive(lo: real, hi: real, k: nat)
    requires lo < hi
    ensures Width(lo, hi, k) > 0.0
  {
  }

  lemma PartInPart(lo: real, hi: real, x: real, count: nat)
    requires lo < hi && count > 0
    ensures InPart(lo, (hi - lo) / count as real, count, x, Part(lo, hi, x, count))
  {
    var d, c := hi - lo, count as real;
    var w := d / c;
    var q := (x - lo) / d * c;
    assert q * w == x - lo by { Cancel(x - lo, d, c); }
    assert w > 0.0;
    var n := Part(lo, hi, x, count);
    if n > 0 { Scale(n as real, q, w); }
    if n < count - 1 {
      assert q < (n + 1) as real;
      assert q * w < (n + 1) as real * w;
    }
  }

  lemma Cancel(y: real, d: real, c: real)
    requires d > 0.0 && c > 0.0
    ensures (y / d * c) * (d / c) == y
  {
  }

  lemma Scale(a: real, b: real, w: real)
    requires a <= b && w > 0.0
    ensures a * w <= b * w
  {
  }

  /** The interval always contains the point, if the range did. */
  lemma {:induction false} IntervalContains(lo: real, hi: real, x: real, k: nat)
    requires lo <= x <= hi
    ensures var (a, b) := Interval(lo, hi, x, k); a <= x <= b && (b - a) * Pow2(k) as real == hi - lo
    decreases k
  {
    hide Pow2;
    Pow2Doubles(k);
    if k > 0 {
      IntervalContains(lo, hi, x, k - 1);
      var (a, b) := Interval(lo, hi, x, k - 1);
      HalfOfTwice(a, b, Pow2(k - 1) as real, Pow2(k) as real);
    }
  }

  lemma Pow2Doubles(k: nat)
    ensures if k == 0 then Pow2(k) == 1 else Pow2(k) == 2 * Pow2(k - 1)
  {
  }

  lemma HalfOfTwice(a: real, b: real, p: real, twice: real)
    requires twice == 2.0 * p
    ensures ((a + b) / 2.0 - a) * twice == (b - a) * p && (b - (a + b) / 2.0) * twice == (b - a) * p
  {
  }

  /** Equal outcomes, equal numbers, equal intervals. */
  lemma {:induction false} SameBitsSameIndex(lo: real, hi: real, x: real, y: real, k: nat)
    ensures Index(lo, hi, x, k) == Index(lo, hi, y, k) <==>
                forall j: nat :: j < k ==> Bit(lo, hi, x, j) == Bit(lo, hi, y, j)
    ensures Index(lo, hi, x, k) == Index(lo, hi, y, k) ==> Interval(lo, hi, x, k) == Interval(lo, hi, y, k)
    decreases k
  {
    if k > 0 { SameBitsSameIndex(lo, hi, x, y, k - 1); }
  }

  // ---------- the string ----------

  /** Outcome i of the fifty: longitude first, then in turns. */
  predicate Outcome(lat: real, lon: real, i: nat) {
    if i % 2 == 0 then Bit(-180.0, 180.0, lon, i / 2) else Bit(-90.0, 90.0, lat, i / 2)
  }

  /** Outcomes `start` up to `end` as a binary number. */
  function Group(lat: real, lon: real, start: nat, end: nat): nat
    requires start <= end
    decreases end
  {
    if start == end then 0 else 2 * Group(lat, lon, start, end - 1) + (if Outcome(lat, lon, end - 1) then 1 else 0)
  }

  lemma {:induction false} GroupBound(lat: real, lon: real, start: nat, end: nat)
    requires start <= end
    ensures Group(lat, lon, start, end) < Pow2(end - start)
    decreases end
  {
    if start < end { GroupBound(lat, lon, start, end - 1); }
  }

  /** The number of each group of five outcomes says what they were. */
  lemma {:induction false} SameGroup(lat1: real, lon1: real, lat2: real, lon2: real, start: nat, end: nat)
    requires start <= end
    ensures Group(lat1, lon1, start, end) == Group(lat2, lon2, start, end) <==>
            forall i: nat :: start <= i < end ==> Outcome(lat1, lon1, i) == Outcome(lat2, lon2, i)
    decreases end
  {
    if start < end { SameGroup(lat1, lon1, lat2, lon2, start, end - 1); }
  }

  lemma Base32Ascends(n: nat)
    requires n < 31
    ensures |BASE32| == 32 && BASE32[n] < BASE32[n + 1]
  {
  }

  lemma {:induction false} Base32IsInjective(n: nat, m: nat)
    requires n < m < 32
    ensures |BASE32| == 32 && BASE32[n] < BASE32[m]
    decreases m
  {
    Base32Ascends(m - 1);
    if n < m - 1 { Base32IsInjective(n, m - 1); }
  }

  predicate IsChar(lat: real, lon: real, c: char, j: nat) {
    var n := Group(lat, lon, 5 * j, 5 * j + 5);
    n < |BASE32| && c == BASE32[n]
  }

  /** Ten characters for the fifty outcomes, and a zero. */
  predicate IsHash(lat: real, lon: real, hash: string) {
    |hash| == 11 && hash[10] == '0' && forall j :: 0 <= j < 10 ==> IsChar(lat, lon, hash[j], j)
  }

  /** The five-bit number of a group of which `bit` outcomes are known, the missing ones being zero. */
  function Partial(lat: real, lon: real, i: nat, bit: nat): nat
    requires bit <= 5 && bit <= i
  {
    Group(lat, lon, i - bit, i) * Pow2(5 - bit)
  }

  lemma PartialContinues(lat: real, lon: real, i: nat, bit: nat)
    requires bit < 5 && bit <= i
    ensures Partial(lat, lon, i + 1, bit + 1)
                == Partial(lat, lon, i, bit) + (if Outcome(lat, lon, i) then Pow2(4 - bit) else 0)
    ensures Partial(lat, lon, i + 1, 0) == 0
  {
    hide Outcome;
    var g, b := Group(lat, lon, i - bit, i), if Outcome(lat, lon, i) then 1 else 0;
    assert Group(lat, lon, i - bit, i + 1) == 2 * g + b;
    Appended(g, b, Pow2(4 - bit));
  }

  lemma Appended(g: nat, b: nat, p: nat)
    ensures (2 * g + b) * p == g * (2 * p) + b * p
  {
  }

  lemma FullIsChar(lat: real, lon: real, j: nat)
    ensures |BASE32| == 32 && Partial(lat, lon, 5 * j + 5, 5) < 32
    ensures IsChar(lat, lon, BASE32[Partial(lat, lon, 5 * j + 5, 5)], j)
  {
    GroupBound(lat, lon, 5 * j, 5 * j + 5);
    assert Pow2(5) == 32 && Pow2(0) == 1;
  }

  lemma NextInterval(lo: real, hi: real, x: real, k: nat)
    ensures var (a, b) := Interval(lo, hi, x, k); var mid := (a + b) / 2.0;
            Interval(lo, hi, x, k + 1) == if x >= mid then (mid, b) else (a, mid)
    ensures var (a, b) := Interval(lo, hi, x, k); Bit(lo, hi, x, k) <==> x >= (a + b) / 2.0
  {
  }

  /** What step i does to the two ranges. */
  lemma Step(lat: real, lon: real, i: nat)
    ensures i % 2 == 0 ==>
              (Outcome(lat, lon, i) <==> Bit(-180.0, 180.0, lon, i / 2))
              && (i + 1) / 2 == i / 2 && (i + 2) / 2 == i / 2 + 1
    ensures i % 2 == 1 ==>
              (Outcome(lat, lon, i) <==> Bit(-90.0, 90.0, lat, i / 2))
              && (i + 1) / 2 == i / 2 + 1 && (i + 2) / 2 == (i + 1) / 2
  {
  }

  lemma Start(lat: real, lon: real)
    ensures Interval(-180.0, 180.0, lon, 0) == (-180.0, 180.0) && Interval(-90.0, 90.0, lat, 0) == (-90.0, 90.0)
    ensures Partial(lat, lon, 0, 0) == 0
  {
  }

  method EncodeHash(lat: real, lon: real) returns (hash: string)
    ensures IsHash(lat, lon, hash)
  {
    hide Interval, Partial, Outcome, IsChar, Bit, Pow2;
    var minLat, maxLat, minLon, maxLon := -90.0, 90.0, -180.0, 180.0;
    hash := "";
    var isLon := true;
    var bit, ch := 0, 0;
    Start(lat, lon);
    for i := 0 to 50
      invariant isLon == (i % 2 == 0) && 0 <= bit < 5 && 5 * |hash| + bit == i
      invariant (minLon, maxLon) == Interval(-180.0, 180.0, lon, (i + 1) / 2)
      invariant (minLat, maxLat) == Interval(-90.0, 90.0, lat, i / 2)
      invariant ch == Partial(lat, lon, i, bit)
      invariant forall j :: 0 <= j < |hash| ==> IsChar(lat, lon, hash[j], j)
    {
      Step(lat, lon, i);
      PartialContinues(lat, lon, i, bit);
      if isLon {
        NextInterval(-180.0, 180.0, lon, i / 2);
        var mid := (minLon + maxLon) / 2.0;
        if lon >= mid {
          ch := ch + Pow2(4 - bit);
          minLon := mid;
        } else {
          maxLon := mid;
        }
      } else {
        NextInterval(-90.0, 90.0, lat, i / 2);
        var mid := (minLat + maxLat) / 2.0;
        if lat >= mid {
          ch := ch + Pow2(4 - bit);
          minLat := mid;
        } else {
          maxLat := mid;
        }
      }
      isLon := !isLon;
      bit := bit + 1;
      if bit == 5 {
        FullIsChar(lat, lon, |hash|);
        hash := hash + [BASE32[ch]];
        bit := 0;
        ch := 0;
      }
    }
    while |hash| < 11
      invariant 10 <= |hash| <= 11 && (|hash| == 11 ==> hash[10] == '0')
      invariant forall j :: 0 <= j < 10 ==> IsChar(lat, lon, hash[j], j)
    {
      hash := hash + "0";
    }
  }

  // ---------- what a hash spells ----------

  /** Binary digit `back` of n, counted from the last one */
  predicate Digit(n: nat, back: nat) { n / Pow2(back) % 2 == 1 }

  lemma DigitOfTwice(n: nat, b: nat, back: nat)
    requires b < 2
    ensures Digit(2 * n + b, 0) <==> b == 1
    ensures Digit(2 * n + b, back + 1) <==> Digit(n, back)
  {
    assert (2 * n + b) / 1 == 2 * n + b;
    var p := Pow2(back);
    var q, r := n / p, n % p;
    ProductOf(n, p, q, r);
    TwiceOf(q, p);
    assert 2 * n + b == q * (2 * p) + (2 * r + b);
    QuotientIs(2 * n + b, 2 * p, q, 2 * r + b);
  }

  lemma ProductOf(n: nat, p: nat, q: nat, r: nat)
    requires p > 0 && q == n / p && r == n % p
    ensures n == q * p + r && r < p
  {
  }

  lemma TwiceOf(q: nat, p: nat)
    ensures q * (2 * p) == 2 * (q * p)
  {
  }

  lemma QuotientIs(x: int, n: int, q: int, r: int)
    requires x == q * n + r && 0 <= r < n
    ensures x / n == q
  {
    var d := x / n - q;
    assert n * d == r - x % n by { assert n * (x / n) == n * q + n * d; }
    assert d >= 1 ==> n * d >= n;
    assert d <= -1 ==> n * d <= -n;
  }

  lemma {:induction false} IndexDigits(lo: real, hi: real, x: real, k: nat, j: nat)
    requires j < k
    ensures Digit(Index(lo, hi, x, k), k - 1 - j) <==> Bit(lo, hi, x, j)
    decreases k
  {
    hide Bit, Digit;
    DigitOfTwice(Index(lo, hi, x, k - 1), if Bit(lo, hi, x, k - 1) then 1 else 0, if j < k - 1 then k - 2 - j else 0);
    if j < k - 1 { IndexDigits(lo, hi, x, k - 1, j); }
  }

  lemma {:induction false} GroupDigits(lat: real, lon: real, start: nat, end: nat, i: nat)
    requires start <= i < end
    ensures Digit(Group(lat, lon, start, end), end - 1 - i) <==> Outcome(lat, lon, i)
    decreases end
  {
    hide Outcome, Digit;
    DigitOfTwice(Group(lat, lon, start, end - 1), if Outcome(lat, lon, end - 1) then 1 else 0,
                 if i < end - 1 then end - 2 - i else 0);
    if i < end - 1 { GroupDigits(lat, lon, start, end - 1, i); }
  }

  /** THE HASH SPELLS THE CELL. Digit d of character j, of five from the highest on, is number 5 j + d of fifty: the
      even ones are the binary digits of the longitude's part of 2^25, the odd ones those of the latitude's, each
      from the highest on. */
  lemma HashSpells(lat: real, lon: real, hash: string, j: nat, d: nat)
    requires IsHash(lat, lon, hash) && j < 10 && d < 5
    ensures exists n: nat :: n < 32 && n < |BASE32| && hash[j] == BASE32[n]
              && (Digit(n, 4 - d) <==>
                  var i := 5 * j + d;
                  if i % 2 == 0 then Digit(Part(-180.0, 180.0, lon, Pow2(25)), 24 - i / 2)
                  else Digit(Part(-90.0, 90.0, lat, Pow2(25)), 24 - i / 2))
  {
    hide Digit, Part, Index, Bit, Group;
    var n, i := Group(lat, lon, 5 * j, 5 * j + 5), 5 * j + d;
    assert IsChar(lat, lon, hash[j], j);
    GroupDigits(lat, lon, 5 * j, 5 * j + 5, i);
    IndexDigits(-180.0, 180.0, lon, 25, i / 2);
    IndexDigits(-90.0, 90.0, lat, 25, i / 2);
    IndexIsDivision(-180.0, 180.0, lon, 25);
    IndexIsDivision(-90.0, 90.0, lat, 25);
    assert |BASE32| == 32;
  }

  /** Character n of the digits and small letters in order, without a, i, l and o */
  function Letter(n: nat): char
    requires n < 32
  {
    if n < 10 then '0' + n as char
    else if n < 17 then 'b' + (n - 10) as char
    else if n < 19 then 'j' + (n - 17) as char
    else if n < 21 then 'm' + (n - 19) as char
    else 'p' + (n - 21) as char
  }

  /** The alphabet is just those. */
  lemma AlphabetIs(n: nat)
    requires n < 32
    ensures |BASE32| == 32 && BASE32[n] == Letter(n)
  {
    if n < 16 { AlphabetStarts(n); } else { AlphabetEnds(n); }
  }

  lemma AlphabetStarts(n: nat)
    requires n < 16
    ensures |BASE32| == 32 && BASE32[n] == Letter(n)
  {
  }

  lemma AlphabetEnds(n: nat)
    requires 16 <= n < 32
    ensures |BASE32| == 32 && BASE32[n] == Letter(n)
  {
  }

  // ---------- what equal hashes mean ----------

  lemma SameChars(lat1: real, lon1: real, lat2: real, lon2: real, hash1: string, hash2: string)
    requires IsHash(lat1, lon1, hash1) && IsHash(lat2, lon2, hash2)
    ensures hash1 == hash2 <==>
            forall j: nat :: j < 10 ==> SameNumber(lat1, lon1, lat2, lon2, j)
  {
    hide Group;
    forall j: nat | j < 10
      ensures hash1[j] == hash2[j] <==> SameNumber(lat1, lon1, lat2, lon2, j)
    {
      assert IsChar(lat1, lon1, hash1[j], j) && IsChar(lat2, lon2, hash2[j], j);
      var n, m := Group(lat1, lon1, 5 * j, 5 * j + 5), Group(lat2, lon2, 5 * j, 5 * j + 5);
      if n < m { Base32IsInjective(n, m); } else if m < n { Base32IsInjective(m, n); }
    }
    if forall j :: 0 <= j < 10 ==> hash1[j] == hash2[j] {
      assert hash1[..10] == hash2[..10];
      assert hash1 == hash1[..10] + "0" && hash2 == hash2[..10] + "0";
    }
  }

  predicate SameOutcome(lat1: real, lon1: real, lat2: real, lon2: real, i: nat) {
    Outcome(lat1, lon1, i) == Outcome(lat2, lon2, i)
  }

  predicate SameNumber(lat1: real, lon1: real, lat2: real, lon2: real, j: nat) {
    Group(lat1, lon1, 5 * j, 5 * j + 5) == Group(lat2, lon2, 5 * j, 5 * j + 5)
  }

  lemma SameOutcomes(lat1: real, lon1: real, lat2: real, lon2: real, hash1: string, hash2: string)
    requires IsHash(lat1, lon1, hash1) && IsHash(lat2, lon2, hash2)
    ensures hash1 == hash2 <==> forall i: nat :: i < 50 ==> SameOutcome(lat1, lon1, lat2, lon2, i)
  {
    hide Group, Outcome, IsHash;
    SameChars(lat1, lon1, lat2, lon2, hash1, hash2);
    if forall j: nat :: j < 10 ==> SameNumber(lat1, lon1, lat2, lon2, j) {
      forall i: nat | i < 50 ensures SameOutcome(lat1, lon1, lat2, lon2, i) {
        assert SameNumber(lat1, lon1, lat2, lon2, i / 5);
        SameGroup(lat1, lon1, lat2, lon2, 5 * (i / 5), 5 * (i / 5) + 5);
      }
    }
    if forall i: nat :: i < 50 ==> SameOutcome(lat1, lon1, lat2, lon2, i) {
      forall j: nat | j < 10 ensures SameNumber(lat1, lon1, lat2, lon2, j) {
        forall i: nat | 5 * j <= i < 5 * j + 5 ensures Outcome(lat1, lon1, i) == Outcome(lat2, lon2, i) {
          assert SameOutcome(lat1, lon1, lat2, lon2, i);
        }
        SameGroup(lat1, lon1, lat2, lon2, 5 * j, 5 * j + 5);
      }
    }
  }

  /** SAME CELL. Two points, anywhere, hash alike exactly when they lie in the same of 2^25 equal parts of the
      longitude range and the same of 2^25 equal parts of the latitude range. */
  lemma EqualHashIff(lat1: real, lon1: real, lat2: real, lon2: real, hash1: string, hash2: string)
    requires IsHash(lat1, lon1, hash1) && IsHash(lat2, lon2, hash2)
    ensures hash1 == hash2 <==>
            Part(-180.0, 180.0, lon1, Pow2(25)) == Part(-180.0, 180.0, lon2, Pow2(25)) &&
            Part(-90.0, 90.0, lat1, Pow2(25)) == Part(-90.0, 90.0, lat2, Pow2(25))
  {
    hide Bit, IsHash, Part, Index, Pow2;
    SameOutcomes(lat1, lon1, lat2, lon2, hash1, hash2);
    OutcomesAreBits(lat1, lon1, lat2, lon2);
    SameBitsSameIndex(-180.0, 180.0, lon1, lon2, 25);
    SameBitsSameIndex(-90.0, 90.0, lat1, lat2, 25);
    IndexIsDivision(-180.0, 180.0, lon1, 25);
    IndexIsDivision(-180.0, 180.0, lon2, 25);
    IndexIsDivision(-90.0, 90.0, lat1, 25);
    IndexIsDivision(-90.0, 90.0, lat2, 25);
  }

  lemma OutcomesAreBits(lat1: real, lon1: real, lat2: real, lon2: real)
    ensures (forall i: nat :: i < 50 ==> SameOutcome(lat1, lon1, lat2, lon2, i)) <==>
            (forall j: nat :: j < 25 ==> Bit(-180.0, 180.0, lon1, j) == Bit(-180.0, 180.0, lon2, j)) &&
            (forall j: nat :: j < 25 ==> Bit(-90.0, 90.0, lat1, j) == Bit(-90.0, 90.0, lat2, j))
  {
    hide Bit;
    if forall i: nat :: i < 50 ==> SameOutcome(lat1, lon1, lat2, lon2, i) {
      forall j: nat | j < 25
        ensures Bit(-180.0, 180.0, lon1, j) == Bit(-180.0, 180.0, lon2, j)
                    && Bit(-90.0, 90.0, lat1, j) == Bit(-90.0, 90.0, lat2, j)
      {
        assert SameOutcome(lat1, lon1, lat2, lon2, 2 * j);
        assert SameOutcome(lat1, lon1, lat2, lon2, 2 * j + 1);
        assert (2 * j + 1) / 2 == j;
      }
    }
  }

  function Distance(x: real, y: real): real { if x < y then y - x else x - y }

  lemma SamePartNear(lo: real, hi: real, x: real, y: real, k: nat)
    requires lo < hi && lo <= x <= hi && lo <= y <= hi
    ensures Part(lo, hi, x, Pow2(k)) == Part(lo, hi, y, Pow2(k)) ==> Distance(x, y) * Pow2(k) as real <= hi - lo
  {
    hide Interval, Index, Part;
    IndexIsDivision(lo, hi, x, k);
    IndexIsDivision(lo, hi, y, k);
    SameBitsSameIndex(lo, hi, x, y, k);
    IntervalContains(lo, hi, x, k);
    IntervalContains(lo, hi, y, k);
    var (a, b) := Interval(lo, hi, x, k);
    if Part(lo, hi, x, Pow2(k)) == Part(lo, hi, y, Pow2(k)) { Scale(Distance(x, y), b - a, Pow2(k) as real); }
  }

  lemma Pow2Of25()
    ensures Pow2(25) == 33554432
  {
    assert Pow2(5) == 32 && Pow2(10) == 1024 && Pow2(15) == 32768 && Pow2(20) == 1048576;
  }

  /** NEARNESS. Points on the map that hash alike are at most 360/2^25 degrees of longitude and 180/2^25 degrees
      of latitude apart. */
  lemma EqualHashNear(lat1: real, lon1: real, lat2: real, lon2: real, hash1: string, hash2: string)
    requires IsHash(lat1, lon1, hash1) && IsHash(lat2, lon2, hash2) && hash1 == hash2
    requires -180.0 <= lon1 <= 180.0 && -180.0 <= lon2 <= 180.0 && -90.0 <= lat1 <= 90.0 && -90.0 <= lat2 <= 90.0
    ensures Distance(lon1, lon2) <= 360.0 / 33554432.0 && Distance(lat1, lat2) <= 180.0 / 33554432.0
  {
    hide IsHash, Part, Pow2;
    Pow2Of25();
    EqualHashIff(lat1, lon1, lat2, lon2, hash1, hash2);
    SamePartNear(-180.0, 180.0, lon1, lon2, 25);
    SamePartNear(-90.0, 90.0, lat1, lat2, 25);
  }
}
