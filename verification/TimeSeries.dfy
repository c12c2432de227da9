/** Time series of src/core/DataStore.js: samples, retention, and downsampling rules kept up incrementally. */
module TimeSeries {
  import opened Sorting
  import opened Wrappers

  /** A value that parseFloat cannot read is None. */
  datatype Sample = Sample(t: int, v: Option<real>)

  datatype Row = Row(start: int, v: real)

  datatype Agg = Avg | Sum | Min | Max

  // ---------- aggregating a list ----------

  function SumOf(vals: seq<real>): real {
    if vals == [] then 0.0 else SumOf(vals[..|vals| - 1]) + vals[|vals| - 1]
  }

  function MinOf(vals: seq<real>): real
    requires vals != []
  {
    if |vals| == 1 then vals[0]
    else
      var m, x := MinOf(vals[..|vals| - 1]), vals[|vals| - 1];
      if x < m then x else m
  }

  function MaxOf(vals: seq<real>): real
    requires vals != []
  {
    if |vals| == 1 then vals[0]
    else
      var m, x := MaxOf(vals[..|vals| - 1]), vals[|vals| - 1];
      if x > m then x else m
  }

  function Aggregate(agg: Agg, vals: seq<real>): real
    requires vals != []
  {
    match agg
    case Sum => SumOf(vals)
    case Avg => SumOf(vals) / |vals| as real
    case Min => MinOf(vals)
    case Max => MaxOf(vals)
  }

  // ---------- buckets ----------

  /** The start of t's bucket when buckets are counted from `origin`: a rule counts from 0, TS.RANGE from
      the start of its range. */
  function BucketOf(t: int, bucketMs: nat, origin: int): int
    requires bucketMs > 0
  {
    (t - origin) / bucketMs * bucketMs + origin
  }

  lemma BucketMonotone(a: int, b: int, bucketMs: nat, origin: int)
    requires bucketMs > 0 && a <= b
    ensures BucketOf(a, bucketMs, origin) <= BucketOf(b, bucketMs, origin) <= b
  {
    var n, p, q := bucketMs, (a - origin) / bucketMs, (b - origin) / bucketMs;
    ProductBounds(a - origin, n, p, (a - origin) % n);
    ProductBounds(b - origin, n, q, (b - origin) % n);
    assert (q + 1) * n == q * n + n;
    if q < p {
      ProductStep(q + 1, p, n);
    } else {
      ProductStep(p, q, n);
    }
  }

  lemma ProductBounds(x: int, n: int, q: int, r: int)
    requires n > 0 && q == x / n && r == x % n
    ensures x == q * n + r && 0 <= r < n
  {
  }

  lemma ProductStep(p: int, q: int, n: int)
    requires p <= q && n > 0
    ensures p * n <= q * n
  {
  }

  /** Counting buckets from a multiple of the bucket size changes nothing. */
  lemma BucketFrom(t: int, k: int, bucketMs: nat)
    requires bucketMs > 0
    ensures BucketOf(t, bucketMs, k * bucketMs) == BucketOf(t, bucketMs, 0)
  {
    var q, r := t / bucketMs, t % bucketMs;
    assert t - k * bucketMs == (q - k) * bucketMs + r;
    DivUnique(t - k * bucketMs, bucketMs, q - k, r);
  }

  lemma DivUnique(x: int, n: int, q: int, r: int)
    requires n > 0 && x == q * n + r && 0 <= r < n
    ensures x / n == q
  {
    var d := x / n - q;
    assert x == (x / n) * n + x % n;
    assert d * n == r - x % n;
    assert d >= 1 ==> d * n >= n;
    assert d <= -1 ==> d * n <= -n;
  }

  /** The readable values of one bucket, in time order. */
  function ValuesIn(samples: seq<Sample>, bucketMs: nat, origin: int, start: int): seq<real>
    requires bucketMs > 0
  {
    if samples == [] then []
    else
      var last := samples[|samples| - 1];
      ValuesIn(samples[..|samples| - 1], bucketMs, origin, start)
      + if BucketOf(last.t, bucketMs, origin) == start && last.v.Some? then [last.v.value] else []
  }

  ghost predicate RowsIncrease(rows: seq<Row>) {
    forall i, j :: 0 <= i < j < |rows| ==> rows[i].start < rows[j].start
  }

  /** The declarative batch result: one row for each bucket that has a readable value, in time order, each
      with the aggregate of exactly that bucket's values. */
  ghost predicate IsBatch(rows: seq<Row>, samples: seq<Sample>, agg: Agg, bucketMs: nat, origin: int)
    requires bucketMs > 0
  {
    && RowsIncrease(rows)
    && (forall r :: r in rows ==> ValuesIn(samples, bucketMs, origin, r.start) != []
                                  && r.v == Aggregate(agg, ValuesIn(samples, bucketMs, origin, r.start)))
    && (forall s :: ValuesIn(samples, bucketMs, origin, s) != [] ==> exists r :: r in rows && r.start == s)
  }

  // ---------- what the rows say, without buckets ----------

  /** A time's bucket is the one stretch of `bucketMs` that begins a whole number of them from the origin and holds
      the time. */
  lemma BucketIff(t: int, bucketMs: nat, origin: int, start: int)
    requires bucketMs > 0
    ensures start == BucketOf(t, bucketMs, origin) <==>
            (start - origin) % bucketMs == 0 && start <= t < start + bucketMs
  {
    var n := bucketMs;
    var q, r := (t - origin) / n, (t - origin) % n;
    ProductBounds(t - origin, n, q, r);
    MultipleOf(q, n);
    if (start - origin) % n == 0 && start <= t < start + n {
      var k := (start - origin) / n;
      ProductBounds(start - origin, n, k, 0);
      DivUnique(t - origin, n, k, t - start);
    }
  }

  lemma MultipleOf(q: int, n: nat)
    requires n > 0
    ensures (q * n) % n == 0
  {
    DivUnique(q * n, n, q, 0);
    ProductBounds(q * n, n, q, (q * n) % n);
  }

  /** The readable values with a time from `from` to before `to`, in time order */
  function Within(samples: seq<Sample>, from: int, to: int): seq<real> {
    if samples == [] then []
    else
      var last := samples[|samples| - 1];
      Within(samples[..|samples| - 1], from, to) + if from <= last.t < to && last.v.Some? then [last.v.value] else []
  }

  lemma {:induction false} ValuesAreWithin(samples: seq<Sample>, bucketMs: nat, origin: int, start: int)
    requires bucketMs > 0
    ensures ValuesIn(samples, bucketMs, origin, start)
         == if (start - origin) % bucketMs == 0 then Within(samples, start, start + bucketMs) else []
  {
    hide BucketOf;
    if samples != [] {
      ValuesAreWithin(samples[..|samples| - 1], bucketMs, origin, start);
      BucketIff(samples[|samples| - 1].t, bucketMs, origin, start);
    }
  }

  /** Rows in time order: each begins a whole number of buckets from the origin and aggregates exactly the readable
      values of the `bucketMs` from there on, and every readable sample falls into one. */
  ghost predicate Aggregates(rows: seq<Row>, samples: seq<Sample>, agg: Agg, bucketMs: nat, origin: int)
    requires bucketMs > 0
  {
    && RowsIncrease(rows)
    && (forall r :: r in rows ==> (r.start - origin) % bucketMs == 0
                                  && Within(samples, r.start, r.start + bucketMs) != []
                                  && r.v == Aggregate(agg, Within(samples, r.start, r.start + bucketMs)))
    && (forall x :: x in samples && x.v.Some? ==> exists r :: r in rows && r.start <= x.t < r.start + bucketMs)
  }

  /** The rows of TS.RANGE and of a rule's destination, as IsBatch describes them, are just these. */
  lemma {:induction false} BatchMeans(rows: seq<Row>, samples: seq<Sample>, agg: Agg, bucketMs: nat, origin: int)
    requires bucketMs > 0
    ensures IsBatch(rows, samples, agg, bucketMs, origin) <==> Aggregates(rows, samples, agg, bucketMs, origin)
  {
    hide ValuesIn, Within, Aggregate, RowsIncrease;
    forall s ensures ValuesIn(samples, bucketMs, origin, s)
                  == if (s - origin) % bucketMs == 0 then Within(samples, s, s + bucketMs) else []
    {
      ValuesAreWithin(samples, bucketMs, origin, s);
    }
    if IsBatch(rows, samples, agg, bucketMs, origin) {
      forall x | x in samples && x.v.Some? ensures exists r :: r in rows && r.start <= x.t < r.start + bucketMs {
        var r := RowOf(rows, samples, agg, bucketMs, origin, x);
      }
    }
    if Aggregates(rows, samples, agg, bucketMs, origin) {
      forall s | ValuesIn(samples, bucketMs, origin, s) != [] ensures exists r :: r in rows && r.start == s {
        var r := RowAt(rows, samples, agg, bucketMs, origin, s);
      }
    }
  }

  lemma RowOf(rows: seq<Row>, samples: seq<Sample>, agg: Agg, bucketMs: nat, origin: int, x: Sample) returns (r: Row)
    requires bucketMs > 0 && IsBatch(rows, samples, agg, bucketMs, origin) && x in samples && x.v.Some?
    ensures r in rows && r.start <= x.t < r.start + bucketMs
  {
    hide ValuesIn, Within, Aggregate, RowsIncrease, BucketOf;
    var s := BucketOf(x.t, bucketMs, origin);
    BucketIff(x.t, bucketMs, origin, s);
    SomethingWithin(samples, x, s, s + bucketMs);
    ValuesAreWithin(samples, bucketMs, origin, s);
    r :| r in rows && r.start == s;
  }

  lemma RowAt(rows: seq<Row>, samples: seq<Sample>, agg: Agg, bucketMs: nat, origin: int, s: int) returns (r: Row)
    requires bucketMs > 0 && Aggregates(rows, samples, agg, bucketMs, origin)
    requires ValuesIn(samples, bucketMs, origin, s) != []
    ensures r in rows && r.start == s
  {
    hide ValuesIn, Within, Aggregate, RowsIncrease, BucketOf;
    ValuesAreWithin(samples, bucketMs, origin, s);
    var x := SomeSample(samples, s, s + bucketMs);
    r :| r in rows && r.start <= x.t < r.start + bucketMs;
    BucketIff(x.t, bucketMs, origin, s);
    BucketIff(x.t, bucketMs, origin, r.start);
  }

  lemma {:induction false} SomethingWithin(samples: seq<Sample>, x: Sample, from: int, to: int)
    requires x in samples && x.v.Some? && from <= x.t < to
    ensures Within(samples, from, to) != []
  {
    var front, last := samples[..|samples| - 1], samples[|samples| - 1];
    assert samples == front + [last];
    if x != last { SomethingWithin(front, x, from, to); }
  }

  lemma {:induction false} SomeSample(samples: seq<Sample>, from: int, to: int) returns (x: Sample)
    requires Within(samples, from, to) != []
    ensures x in samples && x.v.Some? && from <= x.t < to
  {
    x := samples[|samples| - 1];
    if !(from <= x.t < to && x.v.Some?) { x := SomeSample(samples[..|samples| - 1], from, to); }
  }

  /** What the aggregates are: the least and the greatest of the values, their sum, which is the same counted from
      the front, and the value whose multiple by their number the sum is. */
  lemma AggregateMeans(vals: seq<real>)
    requires vals != []
    ensures Aggregate(Min, vals) in vals && forall x :: x in vals ==> Aggregate(Min, vals) <= x
    ensures Aggregate(Max, vals) in vals && forall x :: x in vals ==> x <= Aggregate(Max, vals)
    ensures Aggregate(Sum, vals) == vals[0] + SumOf(vals[1..]) && SumOf([]) == 0.0
    ensures Aggregate(Avg, vals) * |vals| as real == Aggregate(Sum, vals)
  {
    BoundsOf(vals);
    SumFromFront(vals);
    QuotientTimes(SumOf(vals), |vals| as real);
    NoSum();
  }

  lemma {:induction false} BoundsOf(vals: seq<real>)
    requires vals != []
    ensures MinOf(vals) in vals && MaxOf(vals) in vals
    ensures forall x :: x in vals ==> MinOf(vals) <= x <= MaxOf(vals)
  {
    var front, last := vals[..|vals| - 1], vals[|vals| - 1];
    assert vals == front + [last];
    if front != [] { BoundsOf(front); }
  }

  lemma {:induction false} SumFromFront(vals: seq<real>)
    requires vals != []
    ensures SumOf(vals) == vals[0] + SumOf(vals[1..])
  {
    var front, last := vals[..|vals| - 1], vals[|vals| - 1];
    if front == [] {
      assert vals == [] + [last] && vals[1..] == [];
      AggregatesSnoc([], last);
    } else {
      SumFromFront(front);
      assert vals == front + [last] && vals[1..] == front[1..] + [last];
      AggregatesSnoc(front, last);
      AggregatesSnoc(front[1..], last);
    }
  }

  lemma FirstRow(s: seq<Row>, r: Row)
    requires RowsIncrease(s) && r in s
    ensures r == s[0] || s[0].start < r.start
  {
  }

  lemma LaterRows(s: seq<Row>, r: Row)
    requires RowsIncrease(s) && s != []
    ensures r in s[1..] <==> r in s && r != s[0]
  {
  }

  lemma {:induction false} RowsUnique(a: seq<Row>, b: seq<Row>)
    requires RowsIncrease(a) && RowsIncrease(b) && forall r :: r in a <==> r in b
    ensures a == b
    decreases |a|
  {
    assert (a != [] ==> a[0] in b) && (b != [] ==> b[0] in a);
    if a != [] && b != [] {
      FirstRow(a, b[0]);
      FirstRow(b, a[0]);
      forall r ensures r in a[1..] <==> r in b[1..] {
        LaterRows(a, r);
        LaterRows(b, r);
      }
      RowsUnique(a[1..], b[1..]);
      assert a == [a[0]] + a[1..] && b == [b[0]] + b[1..];
    }
  }

  /** There is only one batch result. */
  lemma {:induction false} BatchIsUnique(a: seq<Row>, b: seq<Row>, samples: seq<Sample>, agg: Agg, bucketMs: nat,
                                         origin: int)
    requires bucketMs > 0 && IsBatch(a, samples, agg, bucketMs, origin) && IsBatch(b, samples, agg, bucketMs, origin)
    ensures a == b
  {
    hide Aggregate, ValuesIn;
    forall r ensures r in a <==> r in b {
      if r in a { var x :| x in b && x.start == r.start; }
      if r in b { var x :| x in a && x.start == r.start; }
    }
    RowsUnique(a, b);
  }

  // ---------- rules ----------

  /** The accumulator of one bucket; the source's infinite initial bounds vanish with the first value. */
  datatype Acc = Acc(sum: real, count: nat, min: real, max: real)

  function Accumulate(st: Option<Acc>, x: real): Acc {
    match st
    case None => Acc(0.0 + x, 1, x, x)
    case Some(a) => Acc(a.sum + x, a.count + 1, if x < a.min then x else a.min, if x > a.max then x else a.max)
  }

  function OutVal(agg: Agg, a: Acc): real
    requires a.count > 0
  {
    match agg
    case Sum => a.sum
    case Avg => a.sum / a.count as real
    case Min => a.min
    case Max => a.max
  }

  /** `dest` is the destination series `name`, fed by this rule only. */
  datatype Rule = Rule(name: string, agg: Agg, bucketMs: nat, state: map<int, Acc>, dest: seq<Row>)

  function PutRow(rows: seq<Row>, start: int, v: real): seq<Row> {
    if rows != [] && rows[|rows| - 1].start
        == start then rows[..|rows| - 1] + [Row(start, v)] else rows + [Row(start, v)]
  }

  function ApplyRule(rule: Rule, t: int, x: real): Rule
    requires RuleShapeOk(rule)
  {
    var start := BucketOf(t, rule.bucketMs, 0);
    var st := Accumulate(if start in rule.state then Some(rule.state[start]) else None, x);
    rule.(state := rule.state[start := st], dest := PutRow(rule.dest, start, OutVal(rule.agg, st)))
  }

  /** An unreadable value passes the rules by. */
  function Stepped(rule: Rule, s: Sample): Rule
    requires RuleShapeOk(rule)
  {
    if s.v.Some? then ApplyRule(rule, s.t, s.v.value) else rule
  }

  ghost predicate AccOk(a: Acc, vals: seq<real>) {
    vals != [] && a.sum == SumOf(vals) && a.count == |vals| && a.min == MinOf(vals) && a.max == MaxOf(vals)
  }

  ghost predicate RuleOk(rule: Rule, samples: seq<Sample>) {
    && rule.bucketMs > 0
    && (forall s :: s in rule.state <==> ValuesIn(samples, rule.bucketMs, 0, s) != [])
    && (forall s :: s in rule.state ==> AccOk(rule.state[s], ValuesIn(samples, rule.bucketMs, 0, s)))
    && IsBatch(rule.dest, samples, rule.agg, rule.bucketMs, 0)
  }

  lemma AccumulateOk(st: Option<Acc>, vals: seq<real>, x: real, agg: Agg)
    requires if st.Some? then AccOk(st.value, vals) else vals == []
    ensures AccOk(Accumulate(st, x), vals + [x])
    ensures OutVal(agg, Accumulate(st, x)) == Aggregate(agg, vals + [x])
  {
  }

  ghost predicate TimesIncrease(samples: seq<Sample>) {
    forall i, j :: 0 <= i < j < |samples| ==> samples[i].t < samples[j].t
  }

  /** Buckets that hold values end no later than the last sample. */
  lemma {:induction false} NoLaterBucket(samples: seq<Sample>, bucketMs: nat, start: int, t: int)
    requires bucketMs > 0 && (forall i :: 0 <= i < |samples| ==> samples[i].t <= t)
    requires ValuesIn(samples, bucketMs, 0, start) != []
    ensures start <= BucketOf(t, bucketMs, 0)
    decreases |samples|
  {
    hide BucketOf;
    var n := |samples| - 1;
    BucketMonotone(samples[n].t, t, bucketMs, 0);
    if ValuesIn(samples[..n], bucketMs, 0, start) != [] {
      NoLaterBucket(samples[..n], bucketMs, start, t);
    }
  }

  lemma ValuesSnoc(samples: seq<Sample>, s: Sample, bucketMs: nat, origin: int, start: int)
    requires bucketMs > 0
    ensures ValuesIn(samples + [s], bucketMs, origin, start) == ValuesIn(samples, bucketMs, origin, start)
              + if BucketOf(s.t, bucketMs, origin) == start && s.v.Some? then [s.v.value] else []
  {
  }

  /** Incremental equals batch, one readable sample at a time; `samples` are those the rule has been given,
      which may include another one of time t. */
  lemma {:induction false} ApplyRuleOk(rule: Rule, samples: seq<Sample>, t: int, x: real)
    requires RuleOk(rule, samples) && forall i :: 0 <= i < |samples| ==> samples[i].t <= t
    ensures RuleOk(ApplyRule(rule, t, x), samples + [Sample(t, Some(x))])
  {
    hide AccOk, Aggregate, OutVal, Accumulate, ValuesIn, BucketOf, PutRow, RowsIncrease, IsBatch;
    var b, start := rule.bucketMs, BucketOf(t, rule.bucketMs, 0);
    var now := samples + [Sample(t, Some(x))];
    var vals := ValuesIn(samples, b, 0, start);
    var before := if start in rule.state then Some(rule.state[start]) else None;
    AccumulateOk(before, vals, x, rule.agg);
    forall s ensures ValuesIn(now, b, 0, s) == if s == start then vals + [x] else ValuesIn(samples, b, 0, s) {
      ValuesSnoc(samples, Sample(t, Some(x)), b, 0, s);
      assert ValuesIn(samples, b, 0, s) + [] == ValuesIn(samples, b, 0, s);
    }
    NoLaterRow(rule, samples, t);
    PutRowBatch(rule, samples, now, start, Aggregate(rule.agg, vals + [x]));
  }

  lemma NoLaterRow(rule: Rule, samples: seq<Sample>, t: int)
    requires RuleOk(rule, samples) && forall i :: 0 <= i < |samples| ==> samples[i].t <= t
    ensures forall r :: r in rule.dest ==> r.start <= BucketOf(t, rule.bucketMs, 0)
  {
    hide ValuesIn, BucketOf, Aggregate, AccOk;
    forall r | r in rule.dest ensures r.start <= BucketOf(t, rule.bucketMs, 0) {
      NoLaterBucket(samples, rule.bucketMs, r.start, t);
    }
  }

  lemma PutRowBatch(rule: Rule, samples: seq<Sample>, now: seq<Sample>, start: int, v: real)
    requires RuleOk(rule, samples) && (forall r :: r in rule.dest ==> r.start <= start)
    requires forall s :: s != start ==> ValuesIn(now, rule.bucketMs, 0, s) == ValuesIn(samples, rule.bucketMs, 0, s)
    requires ValuesIn(now, rule.bucketMs, 0, start) != []
                && v == Aggregate(rule.agg, ValuesIn(now, rule.bucketMs, 0, start))
    ensures IsBatch(PutRow(rule.dest, start, v), now, rule.agg, rule.bucketMs, 0)
  {
    hide Aggregate, ValuesIn, AccOk, PutRow, RowsIncrease;
    var rows, rows' := rule.dest, PutRow(rule.dest, start, v);
    PutRowFacts(rows, start, v);
    forall s | ValuesIn(now, rule.bucketMs, 0, s) != [] ensures exists r :: r in rows' && r.start == s {
      if s == start {
        assert Row(start, v) in rows';
      } else {
        var r :| r in rows && r.start == s;
        assert r in rows';
      }
    }
  }

  lemma PutRowFacts(rows: seq<Row>, start: int, v: real)
    requires RowsIncrease(rows) && forall r :: r in rows ==> r.start <= start
    ensures RowsIncrease(PutRow(rows, start, v))
    ensures forall r :: r in PutRow(rows, start, v) <==> r == Row(start, v) || (r in rows && r.start != start)
  {
  }

  /** An unreadable sample passes the rules by. */
  lemma {:induction false} UnreadableOk(rule: Rule, samples: seq<Sample>, t: int)
    requires RuleOk(rule, samples)
    ensures RuleOk(rule, samples + [Sample(t, None)])
  {
    hide AccOk, Aggregate, ValuesIn, BucketOf;
    var now := samples + [Sample(t, None)];
    forall s ensures ValuesIn(now, rule.bucketMs, 0, s) == ValuesIn(samples, rule.bucketMs, 0, s) {
      ValuesSnoc(samples, Sample(t, None), rule.bucketMs, 0, s);
      assert ValuesIn(samples, rule.bucketMs, 0, s) + [] == ValuesIn(samples, rule.bucketMs, 0, s);
    }
  }

  // ---------- the series ----------

  /** Appends, or replaces the last sample when the time is equal. */
  function Appended(samples: seq<Sample>, t: int, v: Option<real>): seq<Sample> {
    if samples != [] && samples[|samples| - 1].t == t then samples[..|samples| - 1] + [Sample(t, v)]
    else samples + [Sample(t, v)]
  }

  ghost predicate Accepts(samples: seq<Sample>, t: int) {
    samples == [] || samples[|samples| - 1].t <= t
  }

  predicate HasRule(rules: seq<Rule>, name: string, agg: Agg, bucketMs: nat) {
    exists r :: r in rules && r.name == name && r.agg == agg && r.bucketMs == bucketMs
  }

  class Series {
    var samples: seq<Sample>
    var retentionMs: Option<nat>
    var rules: seq<Rule>

    ghost predicate Valid()
      reads this
    {
      TimesIncrease(samples) && forall r :: r in rules ==> RuleShapeOk(r)
    }

    constructor (retentionMs: Option<nat>)
      ensures Valid() && samples == [] && rules == [] && this.retentionMs == retentionMs
    {
      samples, this.retentionMs, rules := [], retentionMs, [];
    }

    /** TS.CREATERULE with a destination of its own: the same rule is not added twice, and a rule added before any
        sample starts out in agreement. */
    method CreateRule(name: string, agg: Agg, bucketMs: nat)
      requires Valid() && bucketMs > 0
      modifies this
      ensures Valid() && samples == old(samples) && retentionMs == old(retentionMs)
      ensures rules == if HasRule(old(rules), name, agg, bucketMs) then old(rules)
                       else old(rules) + [Rule(name, agg, bucketMs, map[], [])]
      ensures samples == [] && !HasRule(old(rules), name, agg, bucketMs) ==> RuleOk(rules[|rules| - 1], samples)
    {
      for i := 0 to |rules|
        invariant !HasRule(rules[..i], name, agg, bucketMs)
        modifies {}
      {
        var r := rules[i];
        assert r in rules && rules[..i + 1] == rules[..i] + [r];
        if r.name == name && r.agg == agg && r.bucketMs == bucketMs { return; }
      }
      assert rules[..|rules|] == rules;
      rules := rules + [Rule(name, agg, bucketMs, map[], [])];
    }

    /** Timestamps stay strictly increasing; after an accepted sample retention keeps exactly the samples
        not older than its time less the retention period. */
    method TsAdd(t: int, v: Option<real>) returns (ok: bool)
      requires Valid()
      modifies this
      ensures Valid() && retentionMs == old(retentionMs)
      ensures ok <==> Accepts(old(samples), t)
      ensures !ok ==> samples == old(samples) && rules == old(rules)
      ensures ok && retentionMs.None? ==> samples == Appended(old(samples), t, v)
      ensures ok && retentionMs.Some? ==>
                forall s :: s in samples <==> s in Appended(old(samples), t, v) && s.t >= t - retentionMs.value
      ensures ok ==> |rules| == |old(rules)| && forall i :: 0 <= i < |rules| ==>
                RuleShapeOk(old(rules)[i]) && rules[i] == Stepped(old(rules)[i], Sample(t, v))
    {
      if |samples| > 0 && t < samples[|samples| - 1].t { return false; }
      AppendedIncreases(samples, t, v);
      assert forall i :: 0 <= i < |rules| ==> rules[i] in rules;
      if |samples| > 0 && t == samples[|samples| - 1].t {
        samples := samples[..|samples| - 1] + [Sample(t, v)];
      } else {
        samples := samples + [Sample(t, v)];
      }
      if retentionMs.Some? { PurgeOlder(t - retentionMs.value); }
      if v.Some? { ApplyRules(t, v.value); }
      return true;
    }

    method PurgeOlder(cutoff: int)
      requires TimesIncrease(samples)
      modifies `samples
      ensures TimesIncrease(samples)
      ensures forall s :: s in samples <==> s in old(samples) && s.t >= cutoff
    {
      var idx := 0;
      while idx < |samples| && samples[idx].t < cutoff
        invariant 0 <= idx <= |samples| && forall i :: 0 <= i < idx ==> samples[i].t < cutoff
        modifies {}
      {
        idx := idx + 1;
      }
      SplitAtCutoff(samples, idx, cutoff);
      samples := samples[idx..];
    }

    method ApplyRules(t: int, x: real)
      requires forall r :: r in rules ==> RuleShapeOk(r)
      modifies `rules
      ensures |rules| == |old(rules)| && forall r :: r in rules ==> RuleShapeOk(r)
      ensures forall i :: 0 <= i < |rules| ==> RuleShapeOk(old(rules)[i]) && rules[i] == ApplyRule(old(rules)[i], t, x)
    {
      hide ApplyRule, RuleShapeOk;
      assert forall i :: 0 <= i < |rules| ==> rules[i] in rules;
      var out: seq<Rule> := [];
      for i := 0 to |rules|
        invariant |out| == i && forall r :: r in rules ==> RuleShapeOk(r)
        invariant forall j :: 0 <= j < i ==>
                    RuleShapeOk(rules[j]) && out[j] == ApplyRule(rules[j], t, x) && RuleShapeOk(out[j])
        modifies {}
      {
        assert rules[i] in rules;
        ApplyRuleShape(rules[i], t, x);
        out := out + [ApplyRule(rules[i], t, x)];
      }
      rules := out;
    }

    /** INCREMENTAL EQUALS BATCH. On a series without retention whose rules agree with its samples, adding
        samples in strictly increasing time leaves every rule's destination equal to the batch result. */
    method AddAll(adds: seq<Sample>)
      requires Valid() && retentionMs.None? && TimesIncrease(samples + adds)
      requires forall r :: r in rules ==> RuleOk(r, samples)
      modifies this
      ensures Valid() && samples == old(samples) + adds && |rules| == |old(rules)|
      ensures forall i :: 0 <= i < |rules| ==>
                && rules[i].agg == old(rules)[i].agg && rules[i].bucketMs == old(rules)[i].bucketMs > 0
                && IsBatch(rules[i].dest, samples, rules[i].agg, rules[i].bucketMs, 0)
                && Aggregates(rules[i].dest, samples, rules[i].agg, rules[i].bucketMs, 0)
    {
      hide IsBatch, Aggregates, Appended, RuleOk, RuleShapeOk, Stepped, Accepts;
      assert samples + adds[..0] == samples;
      for k := 0 to |adds|
        invariant Valid() && retentionMs.None? && samples == old(samples) + adds[..k] && |rules| == |old(rules)|
        invariant forall i :: 0 <= i < |rules| ==>
                    && rules[i].agg == old(rules)[i].agg && rules[i].bucketMs == old(rules)[i].bucketMs
                    && RuleOk(rules[i], samples)
      {
        ghost var all, before, was := old(samples) + adds, samples, rules;
        assert all[..|samples|] == samples && all[|samples|] == adds[k];
        AppendedLater(samples, adds[k]);
        forall i | 0 <= i < |rules|
          ensures RuleShapeOk(rules[i]) && RuleOk(Stepped(rules[i], adds[k]), samples + [adds[k]])
          ensures Stepped(rules[i], adds[k]).agg == rules[i].agg
          ensures Stepped(rules[i], adds[k]).bucketMs == rules[i].bucketMs
        {
          assert rules[i] in rules;
          SteppedOk(rules[i], samples, adds[k]);
        }
        var ok := TsAdd(adds[k].t, adds[k].v);
        assert adds[..k + 1] == adds[..k] + [adds[k]];
        assert samples == before + [adds[k]];
      }
      assert adds[..|adds|] == adds;
      forall i | 0 <= i < |rules|
        ensures rules[i].bucketMs > 0 && IsBatch(rules[i].dest, samples, rules[i].agg, rules[i].bucketMs, 0)
        ensures Aggregates(rules[i].dest, samples, rules[i].agg, rules[i].bucketMs, 0)
      {
        RuleIsBatch(rules[i], samples);
        BatchMeans(rules[i].dest, samples, rules[i].agg, rules[i].bucketMs, 0);
      }
    }

    /** TS.RANGE ... AGGREGATION for any finite range: the batch result over the samples inside it, with
        buckets counted from `from`. */
    method TsRange(from: int, to: int, agg: Agg, bucketMs: nat) returns (rows: seq<Row>)
      requires Valid() && bucketMs > 0
      ensures IsBatch(rows, Window(samples, from, to), agg, bucketMs, from)
      ensures Aggregates(rows, Window(samples, from, to), agg, bucketMs, from)
    {
      hide IsBatch, Aggregates, Sort, Aggregate, Window, IntsIncrease, Collected;
      var buckets, keys := Collect(from, to, bucketMs);
      var starts := SortedKeys(keys);
      KeysSorted(keys);
      rows := [];
      for i := 0 to |starts|
        invariant RowsFrom(rows, starts[..i], buckets, agg)
      {
        assert starts[..i + 1] == starts[..i] + [starts[i]] && starts[i] in starts;
        EarlierStarts(starts, i);
        var arr := buckets[starts[i]];
        RowsFromNext(rows, starts[..i], buckets, agg, starts[i]);
        if |arr| == 0 { continue; }
        rows := rows + [Row(starts[i], Aggregate(agg, arr))];
      }
      assert starts[..|starts|] == starts;
      RowsFromAll(rows, starts, buckets, agg, Window(samples, from, to), bucketMs, from);
      BatchMeans(rows, Window(samples, from, to), agg, bucketMs, from);
    }

    /** The bucket lists, filled in sample order, and their keys in insertion order; a bucket may stay empty. */
    method Collect(from: int, to: int, bucketMs: nat) returns (buckets: map<int, seq<real>>, keys: seq<int>)
      requires bucketMs > 0
      ensures Collected(buckets, Window(samples, from, to), bucketMs, from)
      ensures forall s :: s in keys <==> s in buckets
      ensures forall i, j :: 0 <= i < j < |keys| ==> keys[i] != keys[j]
    {
      hide BucketOf, Collected, ValuesIn;
      buckets, keys := map[], [];
      CollectNone(bucketMs, from);
      for i := 0 to |samples|
        invariant forall s :: s in keys <==> s in buckets
        invariant forall i, j :: 0 <= i < j < |keys| ==> keys[i] != keys[j]
        invariant Collected(buckets, Window(samples[..i], from, to), bucketMs, from)
      {
        assert samples[..i + 1][..i] == samples[..i];
        var x := samples[i];
        if x.t < from || x.t > to {
          assert Window(samples[..i], from, to) + [] == Window(samples[..i], from, to);
          continue;
        }
        CollectOne(buckets, Window(samples[..i], from, to), x, bucketMs, from);
        var start := BucketOf(x.t, bucketMs, from);
        ghost var was := buckets;
        if start !in buckets { buckets, keys := buckets[start := []], keys + [start]; }
        if x.v.Some? { buckets := buckets[start := buckets[start] + [x.v.value]]; }
        assert buckets == was[start := buckets[start]];
      }
      assert samples[..|samples|] == samples;
    }
  }

  ghost predicate Collected(buckets: map<int, seq<real>>, samples: seq<Sample>, bucketMs: nat, origin: int)
    requires bucketMs > 0
  {
    && (forall s :: s in buckets ==> buckets[s] == ValuesIn(samples, bucketMs, origin, s))
    && (forall s :: ValuesIn(samples, bucketMs, origin, s) != [] ==> s in buckets)
  }

  lemma CollectNone(bucketMs: nat, origin: int)
    requires bucketMs > 0
    ensures Collected(map[], [], bucketMs, origin)
  {
  }

  lemma CollectOne(buckets: map<int, seq<real>>, samples: seq<Sample>, x: Sample, bucketMs: nat, origin: int)
    requires bucketMs > 0 && Collected(buckets, samples, bucketMs, origin)
    ensures var start := BucketOf(x.t, bucketMs, origin);
            var list := if start in buckets then buckets[start] else [];
            var list' := if x.v.Some? then list + [x.v.value] else list;
            Collected(buckets[start := list'], samples + [x], bucketMs, origin)
  {
  }

  /** The rows of the buckets in `starts` that are not empty. */
  ghost predicate RowsFrom(rows: seq<Row>, starts: seq<int>, buckets: map<int, seq<real>>, agg: Agg) {
    && RowsIncrease(rows)
    && (forall r :: r in rows ==> r.start in starts && r.start in buckets && buckets[r.start] != []
                                  && r.v == Aggregate(agg, buckets[r.start]))
    && (forall s :: s in starts && s in buckets && buckets[s] != [] ==> exists r :: r in rows && r.start == s)
  }

  lemma RowsFromNext(rows: seq<Row>, starts: seq<int>, buckets: map<int, seq<real>>, agg: Agg, start: int)
    requires RowsFrom(rows, starts, buckets, agg) && start in buckets && forall s :: s in starts ==> s < start
    ensures RowsFrom(if buckets[start] == [] then rows else rows + [Row(start, Aggregate(agg, buckets[start]))],
                     starts + [start], buckets, agg)
  {
  }

  lemma RowsFromAll(rows: seq<Row>, starts: seq<int>, buckets: map<int, seq<real>>, agg: Agg,
                    samples: seq<Sample>, bucketMs: nat, origin: int)
    requires bucketMs > 0 && RowsFrom(rows, starts, buckets, agg) && Collected(buckets, samples, bucketMs, origin)
    requires forall s :: s in starts <==> s in buckets
    ensures IsBatch(rows, samples, agg, bucketMs, origin)
  {
  }

  ghost predicate RuleShapeOk(r: Rule) {
    r.bucketMs > 0 && forall s :: s in r.state ==> r.state[s].count > 0
  }

  lemma ApplyRuleShape(rule: Rule, t: int, x: real)
    requires RuleShapeOk(rule)
    ensures RuleShapeOk(ApplyRule(rule, t, x))
  {
  }

  lemma RuleIsBatch(rule: Rule, samples: seq<Sample>)
    requires RuleOk(rule, samples)
    ensures rule.bucketMs > 0 && IsBatch(rule.dest, samples, rule.agg, rule.bucketMs, 0)
  {
  }

  lemma SteppedOk(rule: Rule, samples: seq<Sample>, s: Sample)
    requires RuleOk(rule, samples) && RuleShapeOk(rule) && forall i :: 0 <= i < |samples| ==> samples[i].t <= s.t
    ensures var after := Stepped(rule, s);
            RuleOk(after, samples + [s]) && after.agg == rule.agg && after.bucketMs == rule.bucketMs
  {
    hide RuleOk;
    if s.v.Some? { ApplyRuleOk(rule, samples, s.t, s.v.value); } else { UnreadableOk(rule, samples, s.t); }
  }

  lemma AppendedIncreases(samples: seq<Sample>, t: int, v: Option<real>)
    requires TimesIncrease(samples) && Accepts(samples, t)
    ensures TimesIncrease(Appended(samples, t, v))
  {
  }

  lemma AppendedLater(samples: seq<Sample>, s: Sample)
    requires forall i :: 0 <= i < |samples| ==> samples[i].t < s.t
    ensures Accepts(samples, s.t) && Appended(samples, s.t, s.v) == samples + [s]
  {
  }

  lemma SplitAtCutoff(samples: seq<Sample>, idx: nat, cutoff: int)
    requires TimesIncrease(samples) && idx <= |samples|
    requires (forall i :: 0 <= i < idx ==> samples[i].t < cutoff) && (idx < |samples| ==> samples[idx].t >= cutoff)
    ensures TimesIncrease(samples[idx..])
    ensures forall s :: s in samples[idx..] <==> s in samples && s.t >= cutoff
  {
  }

  function Window(samples: seq<Sample>, from: int, to: int): seq<Sample> {
    if samples == [] then []
    else
      var last := samples[|samples| - 1];
      Window(samples[..|samples| - 1], from, to) + if from <= last.t <= to then [last] else []
  }

  lemma {:induction false} WindowOfAll(samples: seq<Sample>, from: int, to: int)
    requires forall s :: s in samples ==> from <= s.t <= to
    ensures Window(samples, from, to) == samples
  {
    if samples != [] {
      WindowOfAll(samples[..|samples| - 1], from, to);
      assert samples == samples[..|samples| - 1] + [samples[|samples| - 1]];
    }
  }

  lemma {:induction false} OriginIrrelevant(samples: seq<Sample>, bucketMs: nat, k: int, start: int)
    requires bucketMs > 0
    ensures ValuesIn(samples, bucketMs, k * bucketMs, start) == ValuesIn(samples, bucketMs, 0, start)
  {
    if samples != [] {
      hide BucketOf;
      BucketFrom(samples[|samples| - 1].t, k, bucketMs);
      OriginIrrelevant(samples[..|samples| - 1], bucketMs, k, start);
    }
  }

  /** A destination fed by a rule and TS.RANGE over the source, from a multiple of the bucket size and
      covering the data, are the same rows. */
  lemma {:induction false} RangeEqualsDestination(rows: seq<Row>, dest: seq<Row>, samples: seq<Sample>, from: int,
      to: int,
                                                  agg: Agg, bucketMs: nat, k: int)
    requires bucketMs > 0 && from == k * bucketMs && forall s :: s in samples ==> from <= s.t <= to
    requires IsBatch(rows, Window(samples, from, to), agg, bucketMs, from)
    requires IsBatch(dest, samples, agg, bucketMs, 0)
    ensures rows == dest
  {
    hide ValuesIn, Aggregate;
    WindowOfAll(samples, from, to);
    forall s ensures ValuesIn(samples, bucketMs, from, s) == ValuesIn(samples, bucketMs, 0, s) {
      OriginIrrelevant(samples, bucketMs, k, s);
    }
    assert IsBatch(rows, samples, agg, bucketMs, 0);
    BatchIsUnique(rows, dest, samples, agg, bucketMs, 0);
  }

  // ---------- a sample replaced by one of the same time ----------

  function Readable(v: Option<real>): seq<real> { if v.Some? then [v.value] else [] }

  /** An aggregate of `others` does not change when x is put among them. */
  predicate Redundant(agg: Agg, x: real, others: seq<real>) {
    others != [] &&
    match agg
    case Sum => x == 0.0
    case Min => x >= MinOf(others)
    case Max => x <= MaxOf(others)
    case Avg => x == SumOf(others) / |others| as real
  }

  predicate SameResult(agg: Agg, a: seq<real>, b: seq<real>) {
    (a == [] <==> b == []) && (a != [] && b != [] ==> Aggregate(agg, a) == Aggregate(agg, b))
  }

  /** What x in front of more values does to each aggregate. */
  lemma {:induction false} WithMore(vals: seq<real>, x: real, more: seq<real>)
    requires vals + more != []
    ensures SumOf(vals + [x] + more) == SumOf(vals + more) + x
    ensures MinOf(vals + [x] + more) == if x < MinOf(vals + more) then x else MinOf(vals + more)
    ensures MaxOf(vals + [x] + more) == if x > MaxOf(vals + more) then x else MaxOf(vals + more)
    decreases |more|
  {
    hide SumOf, MinOf, MaxOf;
    if more == [] {
      assert vals + [x] + more == vals + [x] && vals + more == vals;
      AggregatesSnoc(vals, x);
    } else {
      var front, last := more[..|more| - 1], more[|more| - 1];
      assert vals + [x] + more == (vals + [x] + front) + [last];
      assert vals + more == (vals + front) + [last];
      AggregatesSnoc(vals + [x] + front, last);
      AggregatesSnoc(vals + front, last);
      if vals + front == [] {
        assert vals + [x] + front == [] + [x];
        AggregatesSnoc([], x);
        NoSum();
      } else {
        WithMore(vals, x, front);
      }
    }
  }

  lemma NoSum()
    ensures SumOf([]) == 0.0
  {
  }

  lemma AggregatesSnoc(vals: seq<real>, x: real)
    ensures SumOf(vals + [x]) == SumOf(vals) + x
    ensures MinOf(vals + [x]) == if vals == [] || x < MinOf(vals) then x else MinOf(vals)
    ensures MaxOf(vals + [x]) == if vals == [] || x > MaxOf(vals) then x else MaxOf(vals)
  {
    assert (vals + [x])[..|vals|] == vals;
  }

  lemma AverageUnchangedIff(sum: real, n: nat, x: real)
    requires n > 0
    ensures (sum + x) / (n + 1) as real == sum / n as real <==> x == sum / n as real
  {
    var m, q := n as real, sum / n as real;
    assert (n + 1) as real == m + 1.0 && q * m == sum;
    var q' := (sum + x) / (m + 1.0);
    assert q' * (m + 1.0) == sum + x;
    if q' == q { assert q * (m + 1.0) == q * m + q; }
    if x == q { assert (q' - q) * (m + 1.0) == 0.0; }
  }

  lemma SameResultIff(agg: Agg, vals: seq<real>, x: real, more: seq<real>)
    ensures SameResult(agg, vals + [x] + more, vals + more) <==> Redundant(agg, x, vals + more)
  {
    hide SumOf, MinOf, MaxOf;
    var a, b := vals + [x] + more, vals + more;
    assert |a| == |b| + 1;
    if b != [] {
      WithMore(vals, x, more);
      if agg == Avg { AverageUnchangedIff(SumOf(b), |b|, x); }
    }
  }

  /** If the values of just one bucket differ, rows that are the batch result of one list of samples are that of
      the other exactly when this bucket gives the same result. */
  lemma BatchOfBothIff(rows: seq<Row>, a: seq<Sample>, b: seq<Sample>, agg: Agg, bucketMs: nat, start: int)
    requires bucketMs > 0 && IsBatch(rows, a, agg, bucketMs, 0)
    requires forall s :: s != start ==> ValuesIn(a, bucketMs, 0, s) == ValuesIn(b, bucketMs, 0, s)
    ensures IsBatch(rows, b, agg, bucketMs, 0) <==>
            SameResult(agg, ValuesIn(a, bucketMs, 0, start), ValuesIn(b, bucketMs, 0, start))
  {
    hide ValuesIn, Aggregate, RowsIncrease;
    var va, vb := ValuesIn(a, bucketMs, 0, start), ValuesIn(b, bucketMs, 0, start);
    if va != [] {
      var r :| r in rows && r.start == start;
      assert IsBatch(rows, b, agg, bucketMs, 0) ==> vb != [] && r.v == Aggregate(agg, vb);
    }
  }

  /** A rule after these samples. */
  function Fed(rule: Rule, adds: seq<Sample>): (r: Rule)
    requires RuleShapeOk(rule)
    ensures RuleShapeOk(r)
  {
    if adds == [] then rule
    else
      var before, s := Fed(rule, adds[..|adds| - 1]), adds[|adds| - 1];
      if s.v.Some? then ApplyRuleShape(before, s.t, s.v.value); Stepped(before, s) else before
  }

  lemma {:induction false} FedOk(rule: Rule, samples: seq<Sample>, adds: seq<Sample>)
    requires RuleOk(rule, samples) && RuleShapeOk(rule) && TimesDoNotDecrease(samples + adds)
    ensures RuleOk(Fed(rule, adds), samples + adds)
    ensures Fed(rule, adds).agg == rule.agg && Fed(rule, adds).bucketMs == rule.bucketMs
    decreases |adds|
  {
    hide RuleOk, RuleShapeOk, ApplyRule;
    if adds == [] {
      assert samples + adds == samples;
    } else {
      var n := |adds| - 1;
      var front, all := samples + adds[..n], samples + adds;
      assert all == front + [adds[n]] && all[|front|] == adds[n];
      forall i | 0 <= i < |front| ensures front[i] == all[i] && front[i].t <= adds[n].t { }
      FedOk(rule, samples, adds[..n]);
      SteppedOk(Fed(rule, adds[..n]), front, adds[n]);
    }
  }

  ghost predicate TimesDoNotDecrease(samples: seq<Sample>) {
    forall i, j :: 0 <= i < j < |samples| ==> samples[i].t <= samples[j].t
  }

  lemma {:induction false} ValuesConcat(a: seq<Sample>, b: seq<Sample>, bucketMs: nat, origin: int, start: int)
    requires bucketMs > 0
    ensures ValuesIn(a + b, bucketMs, origin, start)
         == ValuesIn(a, bucketMs, origin, start) + ValuesIn(b, bucketMs, origin, start)
    decreases |b|
  {
    hide BucketOf;
    if b == [] {
      assert a + b == a;
    } else {
      assert (a + b)[..|a + b| - 1] == a + b[..|b| - 1];
      ValuesConcat(a, b[..|b| - 1], bucketMs, origin, start);
    }
  }

  /** REPLACED SAMPLES. A rule is given a sample of the same time again, while the source holds only the new one.
      After any later additions, a rule that agreed with the source before agrees with it if and only if the value
      replaced was unreadable, or the aggregate of the bucket as it then stands would be the same with it: 0 for a
      sum, not below the minimum, not above the maximum, equal to the average, and never while it would be the
      bucket's only readable value. */
  lemma {:induction false} ReplacementAgreesIff(rule: Rule, earlier: seq<Sample>, t: int, x: Option<real>,
                                                y: Option<real>, later: seq<Sample>)
    requires RuleOk(rule, earlier + [Sample(t, x)]) && TimesIncrease(earlier + [Sample(t, y)] + later)
    ensures Appended(earlier + [Sample(t, x)], t, y) == earlier + [Sample(t, y)]
    ensures RuleShapeOk(rule)
    ensures var rule' := Fed(rule, [Sample(t, y)] + later);
            var source := earlier + [Sample(t, y)] + later;
            var bucket := ValuesIn(source, rule.bucketMs, 0, BucketOf(t, rule.bucketMs, 0));
            IsBatch(rule'.dest, source, rule.agg, rule.bucketMs, 0) <==>
            x.None? || Redundant(rule.agg, x.value, bucket)
  {
    hide ValuesIn, Aggregate, IsBatch, ApplyRule, AccOk, BucketOf, SameResult, Redundant, RuleOk, RuleShapeOk, Fed;
    var was, more := earlier + [Sample(t, x)], [Sample(t, y)] + later;
    RuleOkShape(rule, was);
    assert was[..|was| - 1] == earlier && was[|was| - 1].t == t;
    var given, source := was + more, earlier + [Sample(t, y)] + later;
    assert source == earlier + more;
    GivenInOrder(earlier, t, x, y, later);
    FedOk(rule, was, more);
    RuleIsBatch(Fed(rule, more), given);
    RuleIsBatch(rule, was);
    var b, start := rule.bucketMs, BucketOf(t, rule.bucketMs, 0);
    forall s ensures ValuesIn(given, b, 0, s)
                  == ValuesIn(earlier, b, 0, s) + (if s == start then Readable(x) else []) + ValuesIn(more, b, 0, s)
             ensures ValuesIn(source, b, 0, s) == ValuesIn(earlier, b, 0, s) + ValuesIn(more, b, 0, s)
    {
      ValuesConcat(was, more, b, 0, s);
      ValuesConcat(earlier, more, b, 0, s);
      ValuesSnoc(earlier, Sample(t, x), b, 0, s);
    }
    forall s | s != start ensures ValuesIn(given, b, 0, s) == ValuesIn(source, b, 0, s) {
      assert ValuesIn(earlier, b, 0, s) + [] == ValuesIn(earlier, b, 0, s);
    }
    BatchOfBothIff(Fed(rule, more).dest, given, source, rule.agg, b, start);
    var vals := ValuesIn(earlier, b, 0, start);
    if x.Some? {
      SameResultIff(rule.agg, vals, x.value, ValuesIn(more, b, 0, start));
    } else {
      assert vals + [] == vals;
      SameAsItself(rule.agg, ValuesIn(source, b, 0, start));
    }
  }

  lemma GivenInOrder(earlier: seq<Sample>, t: int, x: Option<real>, y: Option<real>, later: seq<Sample>)
    requires TimesIncrease(earlier + [Sample(t, y)] + later)
    ensures TimesDoNotDecrease(earlier + [Sample(t, x)] + ([Sample(t, y)] + later))
  {
    var given, source := earlier + [Sample(t, x)] + ([Sample(t, y)] + later), earlier + [Sample(t, y)] + later;
    var n := |earlier|;
    assert source[n].t == t;
    forall i | 0 <= i < |given| ensures given[i].t == source[if i <= n then i else i - 1].t {
      if i > n + 1 { assert given[i] == later[i - n - 2] == source[i - 1]; }
    }
  }

  /** Once redundant, a value stays so for sums and bounds; for an average only while what is added has the same
      average. */
  lemma RedundancyLastsIff(agg: Agg, x: real, bucket: seq<real>, added: seq<real>)
    requires Redundant(agg, x, bucket)
    ensures Redundant(agg, x, bucket + added) <==>
            agg != Avg || added == [] || x == SumOf(added) / |added| as real
  {
    hide SumOf, MinOf, MaxOf;
    AggregatesConcat(bucket, added);
    if agg == Avg {
      var m, n := |bucket| as real, |added| as real;
      assert |bucket + added| as real == m + n;
      SameAverageIff(SumOf(bucket), m, SumOf(added), n, x);
      if added == [] { NoSum(); assert bucket + added == bucket; }
    }
  }

  lemma SameAverageIff(a: real, m: real, b: real, n: real, x: real)
    requires m > 0.0 && n >= 0.0 && x == a / m
    ensures n > 0.0 ==> (x == (a + b) / (m + n) <==> x == b / n)
  {
    if n > 0.0 {
      QuotientTimes(a, m);
      QuotientTimes(b, n);
      QuotientTimes(a + b, m + n);
      SameMeanIff(a, m, b, n, x, (a + b) / (m + n), b / n);
    }
  }

  lemma QuotientTimes(a: real, n: real)
    requires n > 0.0
    ensures (a / n) * n == a
  {
  }

  lemma SameMeanIff(a: real, m: real, b: real, n: real, x: real, q: real, r: real)
    requires m > 0.0 && n > 0.0 && x * m == a && q * (m + n) == a + b && r * n == b
    ensures x == q <==> x == r
  {
    assert x * (m + n) == x * m + x * n;
    if x == q { SameFactor(x, r, n); }
    if x == r { SameFactor(x, q, m + n); }
  }

  lemma SameFactor(x: real, y: real, n: real)
    requires x * n == y * n && n > 0.0
    ensures x == y
  {
    assert (x - y) * n == 0.0;
  }

  lemma {:induction false} AggregatesConcat(a: seq<real>, b: seq<real>)
    ensures SumOf(a + b) == SumOf(a) + SumOf(b)
    ensures a != [] ==> MinOf(a + b) <= MinOf(a) && MaxOf(a + b) >= MaxOf(a)
    decreases |b|
  {
    hide SumOf, MinOf, MaxOf;
    NoSum();
    if b == [] {
      assert a + b == a;
    } else {
      var front, last := b[..|b| - 1], b[|b| - 1];
      assert a + b == (a + front) + [last] && b == front + [last];
      AggregatesConcat(a, front);
      AggregatesSnoc(a + front, last);
      AggregatesSnoc(front, last);
    }
  }

  lemma SameAsItself(agg: Agg, vals: seq<real>)
    ensures SameResult(agg, vals, vals)
  {
  }

  lemma RuleOkShape(rule: Rule, samples: seq<Sample>)
    requires RuleOk(rule, samples)
    ensures RuleShapeOk(rule)
  {
  }

  ghost predicate IntsIncrease(s: seq<int>) {
    forall i, j :: 0 <= i < j < |s| ==> s[i] < s[j]
  }

  lemma EarlierStarts(starts: seq<int>, i: nat)
    requires IntsIncrease(starts) && i < |starts|
    ensures forall s :: s in starts[..i] ==> s in starts && s < starts[i]
  {
  }

  predicate Earlier(a: int, b: int) { a < b }

  /** Array.from(buckets.keys()).sort((a, b) => a - b) */
  function SortedKeys(keys: seq<int>): seq<int> { Sort(keys, Earlier) }

  lemma KeysSorted(keys: seq<int>)
    requires forall i, j :: 0 <= i < j < |keys| ==> keys[i] != keys[j]
    ensures IntsIncrease(SortedKeys(keys))
    ensures forall x :: x in SortedKeys(keys) <==> x in keys
  {
    SortSorts(keys, Earlier);
    var r := SortedKeys(keys);
    SameMembers(r, keys);
    forall i, j | 0 <= i < j < |r| ensures r[i] < r[j] {
      StillOnce(keys, r, i, j);
      assert !Earlier(r[j], r[i]);
    }
  }
}
