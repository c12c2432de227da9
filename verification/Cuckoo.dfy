/** The cuckoo filter of src/core/DataStore.js. Hashing and Math.random are unknown; what is proved is that
    evictions move fingerprints about without ever changing which class holds how many. */
module Cuckoo {
  import opened Numbers

  // ---------- bit operations on natural numbers ----------

  function Xor(a: nat, b: nat): nat
    decreases a + b
  {
    if a == 0 then b else if b == 0 then a else (a + b) % 2 + 2 * Xor(a / 2, b / 2)
  }

  function And(a: nat, b: nat): nat
    decreases a
  {
    if a == 0 || b == 0 then 0 else (a % 2) * (b % 2) + 2 * And(a / 2, b / 2)
  }

  lemma {:induction false} XorHalves(a: nat, b: nat)
    ensures Xor(a, b) % 2 == (a + b) % 2
    ensures Xor(a, b) / 2 == Xor(a / 2, b / 2)
  {
  }

  lemma ParityUndone(x: nat, a: nat, b: nat)
    requires x % 2 == (a + b) % 2
    ensures (x + b) % 2 == a % 2
  {
  }

  lemma {:induction false} XorUndoes(a: nat, b: nat)
    ensures Xor(Xor(a, b), b) == a
    decreases a + b
  {
    if a > 0 || b > 0 {
      hide Xor;
      XorHalves(a, b);
      XorHalves(Xor(a, b), b);
      XorUndoes(a / 2, b / 2);
      ParityUndone(Xor(a, b), a, b);
      SameHalves(Xor(Xor(a, b), b), a);
    }
  }

  /** The k lowest bits. */
  function Low(a: nat, k: nat): nat
    decreases k
  {
    if k == 0 then 0 else a % 2 + 2 * Low(a / 2, k - 1)
  }

  /** Masking with 2^k - 1 keeps the k lowest bits, which is why the bucket count is a power of two. */
  lemma {:induction false} AndMask(a: nat, k: nat)
    ensures And(a, Pow2(k) - 1) == Low(a, k)
    ensures Low(a, k) < Pow2(k)
    ensures a < Pow2(k) ==> Low(a, k) == a
    decreases k
  {
    if k > 0 {
      AndMask(a / 2, k - 1);
      OneLess(Pow2(k - 1));
      assert a == 0 ==> And(0, Pow2(k - 1) - 1) == 0;
    }
  }

  lemma OneLess(p: nat)
    requires p > 0
    ensures (2 * p - 1) / 2 == p - 1 && (2 * p - 1) % 2 == 1
  {
  }

  lemma LowHalves(a: nat, k: nat)
    requires k > 0
    ensures Low(a, k) % 2 == a % 2 && Low(a, k) / 2 == Low(a / 2, k - 1)
  {
  }

  lemma SameHalves(x: nat, y: nat)
    requires x % 2 == y % 2 && x / 2 == y / 2
    ensures x == y
  {
  }

  lemma SumParity(a: nat, b: nat, c: nat, d: nat)
    requires a % 2 == c % 2 && b % 2 == d % 2
    ensures (a + b) % 2 == (c + d) % 2
  {
  }

  /** XOR works bit by bit: the low bits of the result depend on the low bits only. */
  lemma {:induction false} XorLow(a: nat, b: nat, k: nat)
    ensures Low(Xor(a, b), k) == Xor(Low(a, k), Low(b, k))
    decreases k
  {
    if k > 0 {
      hide Xor, Low;
      XorHalves(a, b);
      XorLow(a / 2, b / 2, k - 1);
      XorHalves(Low(a, k), Low(b, k));
      LowHalves(a, k);
      LowHalves(b, k);
      LowHalves(Xor(a, b), k);
      SumParity(a, b, Low(a, k), Low(b, k));
      SameHalves(Low(Xor(a, b), k), Xor(Low(a, k), Low(b, k)));
    }
  }

  // ---------- buckets and classes ----------

  /** The hash function is a parameter; there are 2^bits buckets. */
  datatype Geometry = Geometry(hash: string -> nat, bits: nat) {
    function NumBuckets(): (n: nat)
      ensures n >= 1
    {
      Pow2(bits)
    }

    function Index(h: nat): (i: nat)
      ensures i < NumBuckets()
    {
      AndMask(h, bits);
      And(h, NumBuckets() - 1)
    }

    function Fingerprint(item: string): nat {
      var h := hash(item);
      var low := And(Xor(h, h / 0x1_0000), 0xff);
      if low == 0 then 1 else low
    }

    function AltIndex(i: nat, fp: nat): (j: nat)
      ensures j < NumBuckets()
    {
      Index(Xor(i, hash(Digits(fp))))
    }

    /** A fingerprint f in bucket i may be moved to AltIndex(i, f) and back: what identifies it is the pair
        of buckets, named by the smaller index, together with f. */
    function ClassOf(i: nat, fp: nat): (nat, nat) {
      (if AltIndex(i, fp) < i then AltIndex(i, fp) else i, fp)
    }

    function ItemClass(item: string): (nat, nat) {
      ClassOf(Index(hash(item)), Fingerprint(item))
    }

    lemma AltIndexInvolution(i: nat, fp: nat)
      requires i < NumBuckets()
      ensures AltIndex(AltIndex(i, fp), fp) == i
    {
      hide Xor, And, Low;
      var h := hash(Digits(fp));
      AndMask(Xor(i, h), bits);
      AndMask(i, bits);
      var j := AltIndex(i, fp);
      XorLow(i, h, bits);
      AndMask(Xor(j, h), bits);
      AndMask(j, bits);
      XorLow(j, h, bits);
      XorUndoes(i, Low(h, bits));
    }

    /** Two places hold the same class exactly when the fingerprints are equal and the buckets paired. */
    lemma SameClassIff(i: nat, f: nat, j: nat, g: nat)
      requires i < NumBuckets() && j < NumBuckets()
      ensures ClassOf(i, f) == ClassOf(j, g) <==> f == g && (i == j || i == AltIndex(j, g))
    {
      AltIndexInvolution(i, f);
      AltIndexInvolution(j, g);
    }
  }

  lemma {:induction false} LowSplits(a: nat, k: nat) returns (q: nat)
    ensures a == q * Pow2(k) + Low(a, k)
    decreases k
  {
    if k == 0 {
      q := a;
    } else {
      q := LowSplits(a / 2, k - 1);
      TwiceThat(q, Pow2(k - 1));
    }
  }

  lemma TwiceThat(q: nat, p: nat)
    ensures q * (2 * p) == 2 * (q * p)
  {
  }

  lemma LowIsRemainder(a: nat, k: nat)
    ensures Low(a, k) == a % Pow2(k)
  {
    hide Low, Pow2;
    AndMask(a, k);
    var q := LowSplits(a, k);
    RemainderIs(a, q, Low(a, k), Pow2(k));
  }

  lemma RemainderIs(a: nat, q: nat, r: nat, n: nat)
    requires a == q * n + r && r < n
    ensures a % n == r
  {
    var q', r' := a / n, a % n;
    assert a == q' * n + r';
    SameRemainder(q, r, q', r', n);
  }

  lemma SameRemainder(q: nat, r: nat, q': nat, r': nat, n: nat)
    requires q * n + r == q' * n + r' && r < n && r' < n
    ensures r == r'
  {
    if q < q' { Apart(q, q', n); } else if q' < q { Apart(q', q, n); }
  }

  lemma Apart(q: nat, q': nat, n: nat)
    requires q < q'
    ensures q * n + n <= q' * n
  {
    var d: nat := q' - q - 1;
    assert q' == q + 1 + d;
    Spread(q, d, n);
  }

  lemma {:induction false} Spread(q: nat, d: nat, n: nat)
    ensures (q + 1 + d) * n >= q * n + n
  {
    if d > 0 {
      Spread(q, d - 1, n);
      assert (q + 1 + d) * n == (q + d) * n + n;
    } else {
      assert (q + 1) * n == q * n + n;
    }
  }

  /** Where an item lies, and as what: its first bucket is the remainder of its hash, its fingerprint the lowest byte
      of the hash XOR the third one, with 1 in place of 0, and the two buckets differ by the hash of the fingerprint. */
  lemma PlacesOf(g: Geometry, item: string)
    ensures var h, fp := g.hash(item), g.Fingerprint(item);
            var folded := Xor(h % 256, h / 0x1_0000 % 256);
            fp == (if folded == 0 then 1 else folded) && 1 <= fp <= 255
            && g.Index(h) == h % g.NumBuckets()
            && g.AltIndex(g.Index(h), fp) == Xor(g.Index(h), g.hash(Digits(fp)) % g.NumBuckets())
  {
    hide Xor, And, Low;
    var h, fp := g.hash(item), g.Fingerprint(item);
    assert Pow2(8) == 256;
    AndMask(Xor(h, h / 0x1_0000), 8);
    XorLow(h, h / 0x1_0000, 8);
    LowIsRemainder(h, 8);
    LowIsRemainder(h / 0x1_0000, 8);
    AndMask(h, g.bits);
    LowIsRemainder(h, g.bits);
    var i, other := g.Index(h), g.hash(Digits(fp));
    AndMask(Xor(i, other), g.bits);
    XorLow(i, other, g.bits);
    AndMask(i, g.bits);
    LowIsRemainder(other, g.bits);
  }

  // ---------- the ledger: how many fingerprints each class holds ----------

  type Class = (nat, nat)

  function Classes(g: Geometry, i: nat, bucket: seq<nat>): (r: seq<Class>)
    ensures |r| == |bucket|
    ensures forall j :: 0 <= j < |r| ==> r[j] == g.ClassOf(i, bucket[j])
  {
    seq(|bucket|, j requires 0 <= j < |bucket| => g.ClassOf(i, bucket[j]))
  }

  function Ledger(g: Geometry, buckets: seq<seq<nat>>): multiset<Class> {
    if buckets == [] then multiset{}
    else
      var n := |buckets| - 1;
      Ledger(g, buckets[..n]) + multiset(Classes(g, n, buckets[n]))
  }

  lemma Cancel(a: multiset<Class>, b: multiset<Class>, c: multiset<Class>)
    requires a + c == b + c
    ensures a == b
  {
    forall x ensures a[x] == b[x] {
      assert (a + c)[x] == (b + c)[x];
    }
  }

  lemma Regroup(a: multiset<Class>, x: multiset<Class>, y: multiset<Class>, b: multiset<Class>, z: multiset<Class>)
    requires a + y == b + z
    ensures (a + x) + y == (b + x) + z
  {
    assert (a + x) + y == (a + y) + x;
    assert (b + x) + z == (b + z) + x;
  }

  lemma {:induction false} LedgerUpdate(g: Geometry, buckets: seq<seq<nat>>, i: nat, bucket: seq<nat>)
    requires i < |buckets|
    ensures Ledger(g, buckets[i := bucket]) + multiset(Classes(g, i, buckets[i]))
         == Ledger(g, buckets) + multiset(Classes(g, i, bucket))
  {
    hide Classes;
    var n := |buckets| - 1;
    if i < n {
      var before := buckets[..n];
      assert buckets[i := bucket][..n] == before[i := bucket];
      LedgerUpdate(g, before, i, bucket);
      Regroup(Ledger(g, before[i := bucket]), multiset(Classes(g, n, buckets[n])), multiset(Classes(g, i, buckets[i])),
              Ledger(g, before), multiset(Classes(g, i, bucket)));
    } else {
      assert buckets[i := bucket][..n] == buckets[..n];
    }
  }

  /** The ledger counts a class exactly when some slot of its two buckets holds its fingerprint. */
  lemma {:induction false} InLedgerIff(g: Geometry, buckets: seq<seq<nat>>, c: Class)
    ensures c in Ledger(g, buckets) <==>
            exists i, j :: 0 <= i < |buckets| && 0 <= j < |buckets[i]| && g.ClassOf(i, buckets[i][j]) == c
  {
    hide Geometry.ClassOf;
    if buckets != [] {
      var n := |buckets| - 1;
      var before := buckets[..n];
      InLedgerIff(g, before, c);
      if c in Ledger(g, before) {
        var i, j :| 0 <= i < |before| && 0 <= j < |before[i]| && g.ClassOf(i, before[i][j]) == c;
        assert g.ClassOf(i, buckets[i][j]) == c;
      } else if c in multiset(Classes(g, n, buckets[n])) {
        var j :| 0 <= j < |buckets[n]| && Classes(g, n, buckets[n])[j] == c;
        assert g.ClassOf(n, buckets[n][j]) == c;
      }
      if exists i, j :: 0 <= i < |buckets| && 0 <= j < |buckets[i]| && g.ClassOf(i, buckets[i][j]) == c {
        var i, j :| 0 <= i < |buckets| && 0 <= j < |buckets[i]| && g.ClassOf(i, buckets[i][j]) == c;
        if i < n {
          assert before[i][j] == buckets[i][j];
        } else {
          assert Classes(g, n, buckets[n])[j] == c;
        }
      }
    }
  }

  lemma {:induction false} ItemInLedgerIff(g: Geometry, buckets: seq<seq<nat>>, item: string)
    requires |buckets| == g.NumBuckets()
    ensures var fp, i1 := g.Fingerprint(item), g.Index(g.hash(item));
            g.ItemClass(item) in Ledger(g, buckets) <==> fp in buckets[i1] || fp in buckets[g.AltIndex(i1, fp)]
  {
    var fp, i1 := g.Fingerprint(item), g.Index(g.hash(item));
    var i2, c := g.AltIndex(i1, fp), g.ItemClass(item);
    InLedgerIff(g, buckets, c);
    g.SameClassIff(i2, fp, i1, fp);
    if fp in buckets[i1] {
      var j :| 0 <= j < |buckets[i1]| && buckets[i1][j] == fp;
      assert g.ClassOf(i1, buckets[i1][j]) == c;
    } else if fp in buckets[i2] {
      var j :| 0 <= j < |buckets[i2]| && buckets[i2][j] == fp;
      assert g.ClassOf(i2, buckets[i2][j]) == c;
    }
    if c in Ledger(g, buckets) {
      var i, j :| 0 <= i < |buckets| && 0 <= j < |buckets[i]| && g.ClassOf(i, buckets[i][j]) == c;
      g.SameClassIff(i, buckets[i][j], i1, fp);
      assert buckets[i][j] in buckets[i];
    }
  }

  lemma {:induction false} PushLedger(g: Geometry, buckets: seq<seq<nat>>, i: nat, fp: nat)
    requires i < |buckets|
    ensures Ledger(g, buckets[i := buckets[i] + [fp]]) == Ledger(g, buckets) + multiset{g.ClassOf(i, fp)}
  {
    hide Ledger;
    var bucket := buckets[i] + [fp];
    LedgerUpdate(g, buckets, i, bucket);
    var was := Classes(g, i, buckets[i]);
    assert Classes(g, i, bucket) == was + [g.ClassOf(i, fp)];
    Cancel(Ledger(g, buckets[i := bucket]), Ledger(g, buckets) + multiset{g.ClassOf(i, fp)}, multiset(was));
  }

  lemma {:induction false} SwapLedger(g: Geometry, buckets: seq<seq<nat>>, i: nat, j: nat, bucket: seq<nat>)
    requires i < |buckets| && j < |buckets[i]| && |bucket| == |buckets[i]| && bucket == buckets[i][j := bucket[j]]
    ensures Ledger(g, buckets[i := bucket]) + multiset{g.ClassOf(i, buckets[i][j])}
         == Ledger(g, buckets) + multiset{g.ClassOf(i, bucket[j])}
  {
    hide Ledger;
    var was, now := Classes(g, i, buckets[i]), Classes(g, i, bucket);
    LedgerUpdate(g, buckets, i, bucket);
    assert now == was[j := now[j]];
    assert multiset(now) + multiset{was[j]} == multiset(was) + multiset{now[j]};
    CancelSwap(Ledger(g, buckets[i := bucket]), Ledger(g, buckets), multiset(was), multiset(now), was[j], now[j]);
  }

  lemma CancelSwap(after: multiset<Class>, before: multiset<Class>, was: multiset<Class>, now: multiset<Class>,
                   x: Class, y: Class)
    requires after + was == before + now && now + multiset{x} == was + multiset{y}
    ensures after + multiset{x} == before + multiset{y}
  {
    forall c ensures (after + multiset{x})[c] == (before + multiset{y})[c] {
      assert (after + was)[c] == (before + now)[c];
      assert (now + multiset{x})[c] == (was + multiset{y})[c];
    }
  }

  lemma {:induction false} SpliceLedger(g: Geometry, buckets: seq<seq<nat>>, i: nat, j: nat)
    requires i < |buckets| && j < |buckets[i]|
    ensures Ledger(g, buckets[i := buckets[i][..j] + buckets[i][j + 1..]]) + multiset{g.ClassOf(i, buckets[i][j])}
         == Ledger(g, buckets)
  {
    hide Ledger;
    var bucket := buckets[i][..j] + buckets[i][j + 1..];
    var was, now := Classes(g, i, buckets[i]), Classes(g, i, bucket);
    LedgerUpdate(g, buckets, i, bucket);
    assert now == was[..j] + was[j + 1..];
    SpliceMultiset(was, j);
    Cancel(Ledger(g, buckets[i := bucket]) + multiset{was[j]}, Ledger(g, buckets), multiset(now));
  }

  lemma SpliceMultiset(s: seq<Class>, j: nat)
    requires j < |s|
    ensures multiset(s[..j] + s[j + 1..]) + multiset{s[j]} == multiset(s)
  {
    assert s == s[..j] + [s[j]] + s[j + 1..];
  }

  // ---------- what one operation does to the buckets ----------

  /** The two buckets an item may lie in */
  function Home(g: Geometry, item: string): nat { g.Index(g.hash(item)) }

  function OtherHome(g: Geometry, item: string): nat { g.AltIndex(Home(g, item), g.Fingerprint(item)) }

  predicate Room(g: Geometry, buckets: seq<seq<nat>>, bucketSize: nat, item: string)
    requires |buckets| == g.NumBuckets()
  {
    |buckets[Home(g, item)]| < bucketSize || |buckets[OtherHome(g, item)]| < bucketSize
  }

  function Push(buckets: seq<seq<nat>>, i: nat, f: nat): seq<seq<nat>>
    requires i < |buckets|
  {
    buckets[i := buckets[i] + [f]]
  }

  /** A fingerprint `f` without a place, in front of bucket `i` */
  datatype Trip = Trip(buckets: seq<seq<nat>>, i: nat, f: nat)

  /** It takes slot `j`; the fingerprint found there goes on to its own other bucket. */
  function Kick(g: Geometry, t: Trip, j: nat): Trip {
    if t.i < |t.buckets| && j < |t.buckets[t.i]| then
      var victim := t.buckets[t.i][j];
      var swapped: seq<nat> := t.buckets[t.i][j := t.f];
      Trip(t.buckets[t.i := swapped], g.AltIndex(t.i, victim), victim)
    else t
  }

  function Kicks(g: Geometry, t: Trip, slots: seq<nat>): Trip {
    if slots == [] then t else Kick(g, Kicks(g, t, slots[..|slots| - 1]), slots[|slots| - 1])
  }

  /** Swaps never change how full a bucket is. */
  lemma {:induction false} KicksKeepSizes(g: Geometry, t: Trip, slots: seq<nat>)
    requires |t.buckets| == g.NumBuckets() && t.i < |t.buckets|
    ensures var u := Kicks(g, t, slots);
            |u.buckets| == |t.buckets| && u.i < |u.buckets|
            && forall i :: 0 <= i < |t.buckets| ==> |u.buckets[i]| == |t.buckets[i]|
    decreases |slots|
  {
    if slots != [] { KicksKeepSizes(g, t, slots[..|slots| - 1]); }
  }

  /** Every bucket that the kicks `slots` came to after the first one was full, except perhaps the last. */
  ghost predicate CameToFull(g: Geometry, t: Trip, slots: seq<nat>, bucketSize: nat) {
    forall k :: 0 < k < |slots| ==>
      var i := Kicks(g, t, slots[..k]).i;
      i < |t.buckets| && |t.buckets[i]| == bucketSize
  }

  /** The kicks `slots` end in a bucket with room, or there were `maxIterations` of them and the last one came to a
      full bucket, too. */
  ghost predicate KicksDo(g: Geometry, bucketSize: nat, maxIterations: nat, start: Trip, ok: bool,
                          after: seq<seq<nat>>, slots: seq<nat>)
  {
    var end := Kicks(g, start, slots);
    && |slots| <= maxIterations && (forall j :: j in slots ==> j < bucketSize)
    && CameToFull(g, start, slots, bucketSize)
    && end.i < |start.buckets| && |end.buckets| == |start.buckets|
    && if ok then slots != [] && |start.buckets[end.i]| < bucketSize && after == Push(end.buckets, end.i, end.f)
       else |slots| == maxIterations && |start.buckets[end.i]| == bucketSize && after == end.buckets
  }

  /** An add that finds both buckets full kicks fingerprints out of the slots `slots`, from one bucket to the next,
      until one of them comes to a bucket with room; it is refused when `maxIterations` of them came to full ones. */
  ghost predicate AddDoes(g: Geometry, bucketSize: nat, maxIterations: nat, before: seq<seq<nat>>, item: string,
                          ok: bool, after: seq<seq<nat>>, first: bool, slots: seq<nat>)
    requires |before| == g.NumBuckets()
  {
    var fp, i1, i2 := g.Fingerprint(item), Home(g, item), OtherHome(g, item);
    if |before[i1]| < bucketSize then ok && slots == [] && after == Push(before, i1, fp)
    else if |before[i2]| < bucketSize then ok && slots == [] && after == Push(before, i2, fp)
    else KicksDo(g, bucketSize, maxIterations, Trip(before, if first then i1 else i2, fp), ok, after, slots)
  }

  function WithoutFirst(s: seq<nat>, x: nat): seq<nat> {
    if s == [] then [] else if s[0] == x then s[1..] else [s[0]] + WithoutFirst(s[1..], x)
  }

  predicate DeleteDoes(g: Geometry, before: seq<seq<nat>>, item: string, ok: bool, after: seq<seq<nat>>)
    requires |before| == g.NumBuckets()
  {
    var fp, i1, i2 := g.Fingerprint(item), Home(g, item), OtherHome(g, item);
    if fp in before[i1] then ok && after == before[i1 := WithoutFirst(before[i1], fp)]
    else if fp in before[i2] then ok && after == before[i2 := WithoutFirst(before[i2], fp)]
    else !ok && after == before
  }

  lemma {:induction false} WithoutFirstIs(s: seq<nat>, x: nat, j: nat)
    requires j < |s| && s[j] == x && x !in s[..j]
    ensures WithoutFirst(s, x) == s[..j] + s[j + 1..]
  {
    if j > 0 {
      assert s[0] == s[..j][0] && s[1..][..j - 1] == s[..j][1..];
      WithoutFirstIs(s[1..], x, j - 1);
    }
  }

  // ---------- what a run of operations owes ----------

  datatype Op = AddItem(item: string) | DeleteItem(item: string)

  /** What one operation of a run does, with the kicks it took. */
  ghost predicate OpDoes(g: Geometry, bucketSize: nat, maxIterations: nat, before: seq<seq<nat>>, op: Op, ok: bool,
                         after: seq<seq<nat>>)
    requires |before| == g.NumBuckets()
  {
    match op
    case AddItem(item) =>
      exists first, slots :: AddDoes(g, bucketSize, maxIterations, before, item, ok, after, first, slots)
    case DeleteItem(item) => DeleteDoes(g, before, item, ok, after)
  }

  /** The buckets before each operation and at the end. */
  ghost predicate History(g: Geometry, bucketSize: nat, maxIterations: nat, ops: seq<Op>, results: seq<bool>,
                          states: seq<seq<seq<nat>>>)
  {
    |results| == |ops| && |states| == |ops| + 1
    && (forall n :: 0 <= n < |states| ==> |states[n]| == g.NumBuckets())
    && forall n :: 0 <= n < |ops| ==>
         OpDoes(g, bucketSize, maxIterations, states[n], ops[n], results[n], states[n + 1])
  }

  lemma HistoryGrows(g: Geometry, bucketSize: nat, maxIterations: nat, ops: seq<Op>, results: seq<bool>,
                     states: seq<seq<seq<nat>>>, op: Op, ok: bool, after: seq<seq<nat>>)
    requires History(g, bucketSize, maxIterations, ops, results, states) && |after| == g.NumBuckets()
    requires OpDoes(g, bucketSize, maxIterations, states[|ops|], op, ok, after)
    ensures History(g, bucketSize, maxIterations, ops + [op], results + [ok], states + [after])
  {
    hide OpDoes;
  }

  /** REFUSALS. In a run an add is refused only in a state in which both buckets of its item are full, so never in
      one that holds fewer fingerprints in all than fit into one bucket. */
  lemma RefusedOnlyWhenFull(g: Geometry, bucketSize: nat, maxIterations: nat, ops: seq<Op>, results: seq<bool>,
                            states: seq<seq<seq<nat>>>, n: nat)
    requires History(g, bucketSize, maxIterations, ops, results, states)
    requires n < |ops| && ops[n].AddItem? && !results[n]
    ensures !Room(g, states[n], bucketSize, ops[n].item)
    ensures |Ledger(g, states[n])| >= bucketSize
  {
    hide Ledger, Kicks;
    assert OpDoes(g, bucketSize, maxIterations, states[n], ops[n], results[n], states[n + 1]);
    LedgerCounts(g, states[n], Home(g, ops[n].item));
  }

  lemma {:induction false} LedgerCounts(g: Geometry, buckets: seq<seq<nat>>, i: nat)
    requires i < |buckets|
    ensures |Ledger(g, buckets)| >= |buckets[i]|
    decreases |buckets|
  {
    var n := |buckets| - 1;
    LedgerSize(g, buckets, n);
    if i < n {
      hide Ledger;
      LedgerCounts(g, buckets[..n], i);
    }
  }

  lemma LedgerSize(g: Geometry, buckets: seq<seq<nat>>, n: nat)
    requires |buckets| == n + 1
    ensures |Ledger(g, buckets)| == |Ledger(g, buckets[..n])| + |buckets[n]|
  {
    hide Classes;
    var a, b := Ledger(g, buckets[..n]), multiset(Classes(g, n, buckets[n]));
    assert |a + b| == |a| + |b|;
  }

  /** Every add is credited, refused or not; every delete that reported success is debited. */
  function CreditOne(g: Geometry, before: multiset<Class>, op: Op, ok: bool): multiset<Class> {
    match op
    case AddItem(item) => before + multiset{g.ItemClass(item)}
    case DeleteItem(item) => if ok then before - multiset{g.ItemClass(item)} else before
  }

  function Credit(g: Geometry, ops: seq<Op>, results: seq<bool>): multiset<Class>
    requires |ops| == |results|
    decreases |ops|
  {
    if ops == [] then multiset{}
    else
      var n := |ops| - 1;
      CreditOne(g, Credit(g, ops[..n], results[..n]), ops[n], results[n])
  }

  function RefusedOne(op: Op, ok: bool): nat { if op.AddItem? && !ok then 1 else 0 }

  function Refusals(ops: seq<Op>, results: seq<bool>): nat
    requires |ops| == |results|
    decreases |ops|
  {
    if ops == [] then 0
    else
      var n := |ops| - 1;
      Refusals(ops[..n], results[..n]) + RefusedOne(ops[n], results[n])
  }

  lemma SameCount(a: multiset<Class>, b: multiset<Class>, x: Class, y: Class)
    requires a + multiset{x} == b + multiset{y}
    ensures |a| == |b|
  {
    assert |a + multiset{x}| == |a| + 1;
  }

  lemma BalancesAdd(held: multiset<Class>, held': multiset<Class>, lost: multiset<Class>, lost': multiset<Class>,
      c: Class)
    requires (held' == held + multiset{c} && lost' == lost)
          || (exists v :: held' + multiset{v} == held + multiset{c} && lost' == lost + multiset{v})
    ensures held' + lost' == (held + lost) + multiset{c}
  {
    if held' != held + multiset{c} || lost' != lost {
      var v :| held' + multiset{v} == held + multiset{c} && lost' == lost + multiset{v};
      assert held' + lost' == (held' + multiset{v}) + lost;
    }
  }

  lemma BalancesDelete(held: multiset<Class>, held': multiset<Class>, lost: multiset<Class>, c: Class)
    requires held' + multiset{c} == held
    ensures held' + lost == (held + lost) - multiset{c}
  {
  }

  class CuckooFilter {
    const bucketSize: nat
    const maxIterations: nat
    const geometry: Geometry
    const buckets: array<seq<nat>>

    ghost predicate Valid()
      reads this, buckets
    {
      bucketSize > 0 && buckets.Length == geometry.NumBuckets()
      && forall i :: 0 <= i < buckets.Length ==> |buckets[i]| <= bucketSize
    }

    ghost function Held(): multiset<Class>
      reads this, buckets
    {
      Ledger(geometry, buckets[..])
    }

    /** The number of buckets is the least power of two not below capacity / bucketSize. */
    constructor (hash: string -> nat, capacity: nat, bucketSize: nat, maxIterations: nat)
      requires capacity > 0 && bucketSize > 0
      ensures Valid() && Held() == multiset{} && fresh(buckets)
      ensures geometry.hash == hash && this.bucketSize == bucketSize && this.maxIterations == maxIterations
      ensures geometry.NumBuckets() >= capacity / bucketSize
      ensures geometry.NumBuckets() == 1 || geometry.NumBuckets() / 2 < capacity / bucketSize
    {
      this.bucketSize, this.maxIterations := bucketSize, maxIterations;
      var bits := CeilLog2(if capacity / bucketSize > 1 then capacity / bucketSize else 1);
      geometry := Geometry(hash, bits);
      buckets := new seq<nat>[Pow2(bits)](_ => []);
      new;
      EmptyLedger(geometry, buckets[..]);
    }

    method InsertInto(i: nat, fp: nat) returns (ok: bool)
      requires Valid() && i < buckets.Length
      modifies buckets
      ensures Valid()
      ensures ok <==> old(|buckets[i]| < bucketSize)
      ensures Held() == if ok then old(Held()) + multiset{geometry.ClassOf(i, fp)} else old(Held())
      ensures buckets[..] == if ok then Push(old(buckets[..]), i, fp) else old(buckets[..])
    {
      var bucket := buckets[i];
      if |bucket| < bucketSize {
        PushLedger(geometry, buckets[..], i, fp);
        ghost var was := buckets[..];
        buckets[i] := bucket + [fp];
        assert buckets[..] == was[i := bucket + [fp]];
        return true;
      }
      return false;
    }

    /** Success credits the item's class and no other, and is certain if one of the two buckets has room. A refused
        add has made `maxIterations` swaps, each of which led to another full bucket; it leaves the new fingerprint
        in and pushes exactly one victim out, so that the number of fingerprints held is unchanged. */
    method Add(item: string) returns (ok: bool, ghost first: bool, ghost slots: seq<nat>)
      requires Valid()
      modifies buckets
      ensures Valid()
      ensures ok ==> Held() == old(Held()) + multiset{geometry.ItemClass(item)}
      ensures !ok ==> exists victim :: Held() + multiset{victim} == old(Held()) + multiset{geometry.ItemClass(item)}
      ensures !ok ==> |Held()| == |old(Held())|
      ensures old(Room(geometry, buckets[..], bucketSize, item)) ==> ok
      ensures AddDoes(geometry, bucketSize, maxIterations, old(buckets[..]), item, ok, buckets[..], first, slots)
    {
      hide Ledger, Geometry.ClassOf, Geometry.AltIndex, Geometry.Index, Geometry.Fingerprint, Pow2, KicksDo;
      first, slots := true, [];
      var fp := geometry.Fingerprint(item);
      var i1 := geometry.Index(geometry.hash(item));
      var i2 := geometry.AltIndex(i1, fp);
      geometry.SameClassIff(i2, fp, i1, fp);
      ok := InsertInto(i1, fp);
      if ok { return; }
      ok := InsertInto(i2, fp);
      if ok { return; }
      var heads: bool := *;
      first := heads;
      ok, slots := KickOut(if heads then i1 else i2, fp);
    }

    /** The loop behind the two attempts. */
    method KickOut(home: nat, fp: nat) returns (ok: bool, ghost slots: seq<nat>)
      requires Valid() && home < buckets.Length && |buckets[home]| == bucketSize
      modifies buckets
      ensures Valid()
      ensures ok ==> Held() == old(Held()) + multiset{geometry.ClassOf(home, fp)}
      ensures !ok ==> exists victim :: Held() + multiset{victim} == old(Held()) + multiset{geometry.ClassOf(home, fp)}
      ensures !ok ==> |Held()| == |old(Held())|
      ensures KicksDo(geometry, bucketSize, maxIterations, Trip(old(buckets[..]), home, fp), ok, buckets[..], slots)
    {
      hide Ledger, Geometry.ClassOf, Geometry.AltIndex, Pow2, Kicks, Kick, CameToFull, CuckooFilter.Held;
      ghost var start, c := Trip(buckets[..], home, fp), geometry.ClassOf(home, fp);
      var i: nat, f: nat := home, fp;
      slots := [];
      NoKicks(geometry, start, bucketSize);
      for n := 0 to maxIterations
        invariant Valid() && i < buckets.Length == |start.buckets| && |slots| == n
        invariant |start.buckets[i]| == |buckets[i]| == bucketSize
        invariant Held() + multiset{geometry.ClassOf(i, f)} == old(Held()) + multiset{c}
        invariant Kicks(geometry, start, slots) == Trip(buckets[..], i, f)
        invariant (forall j :: j in slots ==> j < bucketSize) && CameToFull(geometry, start, slots, bucketSize)
      {
        ghost var j: nat;
        ghost var here := i;
        f, j := Evict(i, f);
        geometry.SameClassIff(geometry.AltIndex(i, f), f, i, f);
        i := geometry.AltIndex(i, f);
        OneMoreKick(geometry, start, slots, j, here, bucketSize);
        slots := slots + [j];
        KicksKeepSizes(geometry, start, slots);
        ok := InsertInto(i, f);
        if ok { return; }
      }
      SameCount(Held(), old(Held()), geometry.ClassOf(i, f), c);
      ok := false;
    }

    /** f takes a random slot of the full bucket i; the fingerprint found there is now homeless. */
    method Evict(i: nat, f: nat) returns (victim: nat, ghost slot: nat)
      requires Valid() && i < buckets.Length && |buckets[i]| == bucketSize
      modifies buckets
      ensures Valid() && slot < bucketSize
      ensures Held() + multiset{geometry.ClassOf(i, victim)} == old(Held()) + multiset{geometry.ClassOf(i, f)}
      ensures Trip(buckets[..], geometry.AltIndex(i, victim), victim)
           == Kick(geometry, Trip(old(buckets[..]), i, f), slot)
    {
      var bucket := buckets[i];
      var idx: nat :| idx < |bucket|;
      slot := idx;
      victim := bucket[idx];
      ghost var was := buckets[..];
      var swapped: seq<nat> := bucket[idx := f];
      SwapLedger(geometry, was, i, idx, swapped);
      buckets[i] := swapped;
      assert buckets[..] == was[i := swapped];
    }

    method Exists(item: string) returns (found: bool)
      requires Valid()
      ensures found <==> geometry.ItemClass(item) in Held()
    {
      var fp := geometry.Fingerprint(item);
      var i1 := geometry.Index(geometry.hash(item));
      var i2 := geometry.AltIndex(i1, fp);
      ItemInLedgerIff(geometry, buckets[..], item);
      found := fp in buckets[i1] || fp in buckets[i2];
    }

    method Delete(item: string) returns (ok: bool)
      requires Valid()
      modifies buckets
      ensures Valid()
      ensures ok <==> geometry.ItemClass(item) in old(Held())
      ensures ok ==> Held() + multiset{geometry.ItemClass(item)} == old(Held())
      ensures !ok ==> buckets[..] == old(buckets[..]) && Held() == old(Held())
      ensures DeleteDoes(geometry, old(buckets[..]), item, ok, buckets[..])
    {
      var fp := geometry.Fingerprint(item);
      var i1 := geometry.Index(geometry.hash(item));
      var i2 := geometry.AltIndex(i1, fp);
      ItemInLedgerIff(geometry, buckets[..], item);
      geometry.SameClassIff(i2, fp, i1, fp);
      ok := SpliceFrom(i1, fp);
      if ok { return; }
      ok := SpliceFrom(i2, fp);
    }

    method SpliceFrom(i: nat, fp: nat) returns (ok: bool)
      requires Valid() && i < buckets.Length
      modifies buckets
      ensures Valid()
      ensures ok <==> fp in old(buckets[i])
      ensures ok ==> Held() + multiset{geometry.ClassOf(i, fp)} == old(Held())
      ensures buckets[..] == if ok then old(buckets[..])[i := WithoutFirst(old(buckets[i]), fp)] else old(buckets[..])
    {
      var b := buckets[i];
      var j := IndexOf(b, fp);
      if j == -1 { return false; }
      ghost var was := buckets[..];
      WithoutFirstIs(b, fp, j);
      SpliceLedger(geometry, was, i, j);
      buckets[i] := b[..j] + b[j + 1..];
      assert buckets[..] == was[i := b[..j] + b[j + 1..]];
      return true;
    }

    /** CONSERVATION. Whatever the evictions, after any run of adds and deletes on an empty filter the
        fingerprints held and the victims lost are together exactly the credit, class by class, and there
        is one victim for each refused add; and an add was refused only where both its buckets were full. */
    method RunAll(ops: seq<Op>)
      returns (results: seq<bool>, ghost lost: multiset<Class>, ghost states: seq<seq<seq<nat>>>)
      requires Valid() && Held() == multiset{}
      modifies buckets
      ensures Valid() && |results| == |ops|
      ensures Held() + lost == Credit(geometry, ops, results) && |lost| == Refusals(ops, results)
      ensures History(geometry, bucketSize, maxIterations, ops, results, states)
      ensures states[0] == old(buckets[..]) && states[|ops|] == buckets[..]
      ensures forall n :: 0 <= n < |ops| && ops[n].AddItem? && !results[n] ==>
                !Room(geometry, states[n], bucketSize, ops[n].item)
    {
      hide Ledger, CuckooFilter.Held, CreditOne, RefusedOne, OpDoes, History, Room;
      results, lost, states := [], multiset{}, [buckets[..]];
      NoHistory(geometry, bucketSize, maxIterations, buckets[..]);
      assert ops[..0] == [];
      for n := 0 to |ops|
        invariant Valid() && |results| == n
        invariant Held() + lost == Credit(geometry, ops[..n], results) && |lost| == Refusals(ops[..n], results)
        invariant |states| == n + 1 && states[0] == old(buckets[..]) && states[n] == buckets[..]
        invariant History(geometry, bucketSize, maxIterations, ops[..n], results, states)
      {
        var ok;
        ok, lost := RunOne(ops[n], lost);
        assert ops[..n + 1][..n] == ops[..n] && (results + [ok])[..n] == results;
        assert ops[..n + 1] == ops[..n] + [ops[n]];
        HistoryGrows(geometry, bucketSize, maxIterations, ops[..n], results, states, ops[n], ok, buckets[..]);
        results, states := results + [ok], states + [buckets[..]];
      }
      assert ops[..|ops|] == ops;
      forall n | 0 <= n < |ops| && ops[n].AddItem? && !results[n]
        ensures |states[n]| == geometry.NumBuckets() && !Room(geometry, states[n], bucketSize, ops[n].item)
      {
        HistorySizes(geometry, bucketSize, maxIterations, ops, results, states);
        RefusedOnlyWhenFull(geometry, bucketSize, maxIterations, ops, results, states, n);
      }
      HistorySizes(geometry, bucketSize, maxIterations, ops, results, states);
    }

    method RunOne(op: Op, ghost lost: multiset<Class>) returns (ok: bool, ghost lost': multiset<Class>)
      requires Valid()
      modifies buckets
      ensures Valid()
      ensures Held() + lost' == CreditOne(geometry, old(Held()) + lost, op, ok)
      ensures |lost'| == |lost| + RefusedOne(op, ok)
      ensures OpDoes(geometry, bucketSize, maxIterations, old(buckets[..]), op, ok, buckets[..])
    {
      hide Ledger, CuckooFilter.Held, Geometry.ItemClass, AddDoes, DeleteDoes;
      ghost var held := Held();
      lost' := lost;
      match op {
        case AddItem(item) =>
          ghost var first, slots;
          ok, first, slots := Add(item);
          if !ok {
            ghost var victim :| Held() + multiset{victim} == held + multiset{geometry.ItemClass(item)};
            lost' := lost + multiset{victim};
          }
          BalancesAdd(held, Held(), lost, lost', geometry.ItemClass(item));
        case DeleteItem(item) =>
          ok := Delete(item);
          if ok { BalancesDelete(held, Held(), lost, geometry.ItemClass(item)); }
      }
    }
  }

  lemma NoKicks(g: Geometry, t: Trip, bucketSize: nat)
    ensures Kicks(g, t, []) == t && CameToFull(g, t, [], bucketSize)
  {
  }

  lemma OneMoreKick(g: Geometry, start: Trip, slots: seq<nat>, j: nat, i: nat, bucketSize: nat)
    requires CameToFull(g, start, slots, bucketSize) && Kicks(g, start, slots).i == i
    requires i < |start.buckets| && |start.buckets[i]| == bucketSize
    ensures Kicks(g, start, slots + [j]) == Kick(g, Kicks(g, start, slots), j)
    ensures CameToFull(g, start, slots + [j], bucketSize)
  {
    hide Kick;
    var more := slots + [j];
    assert more[..|more| - 1] == slots;
    hide Kicks;
    forall k | 0 < k < |more| ensures Kicks(g, start, more[..k]).i < |start.buckets|
                                   && |start.buckets[Kicks(g, start, more[..k]).i]| == bucketSize
    {
      if k < |slots| { assert more[..k] == slots[..k]; }
    }
  }

  lemma NoHistory(g: Geometry, bucketSize: nat, maxIterations: nat, buckets: seq<seq<nat>>)
    requires |buckets| == g.NumBuckets()
    ensures History(g, bucketSize, maxIterations, [], [], [buckets])
  {
  }

  lemma HistorySizes(g: Geometry, bucketSize: nat, maxIterations: nat, ops: seq<Op>, results: seq<bool>,
                     states: seq<seq<seq<nat>>>)
    requires History(g, bucketSize, maxIterations, ops, results, states)
    ensures |states| == |ops| + 1 && forall n :: 0 <= n < |states| ==> |states[n]| == g.NumBuckets()
  {
  }

  /** No false negatives: an item whose class is owed more copies than adds were refused is reported present,
      because each refusal costs one victim; with no refusal, that is every class still owed. */
  lemma NoFalseNegatives(g: Geometry, buckets: seq<seq<nat>>, ops: seq<Op>, results: seq<bool>,
                         lost: multiset<Class>, item: string)
    requires |buckets| == g.NumBuckets() && |ops| == |results|
    ensures Ledger(g, buckets) + lost == Credit(g, ops, results) && |lost| == Refusals(ops, results)
            && Credit(g, ops, results)[g.ItemClass(item)] > Refusals(ops, results)
            ==> g.Fingerprint(item) in buckets[g.Index(g.hash(item))]
                || g.Fingerprint(item) in buckets[g.AltIndex(g.Index(g.hash(item)), g.Fingerprint(item))]
  {
    hide Ledger, Credit, Refusals, Geometry.ItemClass;
    var c := g.ItemClass(item);
    CountAtMostSize(lost, c);
    assert (Ledger(g, buckets) + lost)[c] == Ledger(g, buckets)[c] + lost[c];
    ItemInLedgerIff(g, buckets, item);
  }

  lemma CountAtMostSize(s: multiset<Class>, c: Class)
    ensures s[c] <= |s|
  {
    var rest := s[c := 0];
    assert s == rest + multiset{}[c := s[c]];
  }

  lemma {:induction false} EmptyLedger(g: Geometry, buckets: seq<seq<nat>>)
    requires forall i :: 0 <= i < |buckets| ==> buckets[i] == []
    ensures Ledger(g, buckets) == multiset{}
  {
    if buckets != [] {
      EmptyLedger(g, buckets[..|buckets| - 1]);
    }
  }

  /** Math.ceil(Math.log2(x)) */
  method CeilLog2(x: nat) returns (k: nat)
    requires x > 0
    ensures Pow2(k) >= x && (k == 0 || Pow2(k) / 2 < x)
  {
    k := 0;
    while Pow2(k) < x
      invariant k == 0 || Pow2(k - 1) < x
      decreases x - Pow2(k)
    {
      k := k + 1;
    }
  }

  /** Array.prototype.indexOf */
  method IndexOf(s: seq<nat>, x: nat) returns (j: int)
    ensures j == -1 <==> x !in s
    ensures j != -1 ==> 0 <= j < |s| && s[j] == x && x !in s[..j]
  {
    j := 0;
    while j < |s|
      invariant 0 <= j <= |s| && x !in s[..j]
    {
      if s[j] == x { return; }
      j := j + 1;
    }
    j := -1;
  }
}
