/** globMatch of src/server/acl.js: `*` and `?` with a single backtracking point. */
module Glob {

  /** The declarative meaning: `*` stands for any stretch of text, `?` for one character. */
  ghost predicate Matches(p: string, t: string)
    decreases |p|
  {
    if p == "" then t == ""
    else if p[0] == '*' then exists k :: 0 <= k <= |t| && Matches(p[1..], t[k..])
    else t != "" && (p[0] == '?' || p[0] == t[0]) && Matches(p[1..], t[1..])
  }

  /** The pattern's remaining characters are all stars. */
  predicate OnlyStars(p: string) { forall i :: 0 <= i < |p| ==> p[i] == '*' }

  /** What the loop answers from a given state; star is -1 until a wildcard has been passed. */
  predicate Loop(p: string, t: string, pi: nat, ti: nat, star: int, match': nat)
    requires pi <= |p| && ti <= |t| && -1 <= star < pi + 1 && match' <= ti && star < |p| && (star >= 0 ==> star < pi)
    decreases |p| - star, |t| - match', |t| - ti
  {
    if ti == |t| then OnlyStars(p[pi..])
    else if pi < |p| && (p[pi] == '?' || p[pi] == t[ti]) then Loop(p, t, pi + 1, ti + 1, star, match')
    else if pi < |p| && p[pi] == '*' then Loop(p, t, pi + 1, ti, pi, ti)
    else if star != -1 then Loop(p, t, star + 1, match' + 1, star, match' + 1)
    else false
  }

  predicate Result(p: string, t: string) { Loop(p, t, 0, 0, -1, 0) }

  /** The loop terminates: a wildcard step moves `star`, a backtrack moves `match`, any other step moves ti. */
  method GlobMatch(p: string, t: string) returns (r: bool)
    ensures r == Result(p, t)
    ensures '*' !in t ==> (r <==> Matches(p, t))
  {
    if '*' !in t { LoopDecides(p, t); }
    var pi, ti, star, match' := 0, 0, -1, 0;
    while ti < |t|
      invariant 0 <= pi <= |p| && 0 <= ti <= |t| && -1 <= star < |p| && 0 <= match' <= ti && (star >= 0 ==> star < pi)
      invariant Loop(p, t, pi, ti, star, match') == Result(p, t)
      decreases |p| - star, |t| - match', |t| - ti
    {
      if pi < |p| && (p[pi] == '?' || p[pi] == t[ti]) {
        pi, ti := pi + 1, ti + 1;
      } else if pi < |p| && p[pi] == '*' {
        star, pi, match' := pi, pi + 1, ti;
      } else if star != -1 {
        match' := match' + 1;
        pi, ti := star + 1, match';
      } else {
        return false;
      }
    }
    ghost var from := pi;
    while pi < |p| && p[pi] == '*'
      invariant from <= pi <= |p| && OnlyStars(p[from..pi])
    {
      assert p[from..pi + 1] == p[from..pi] + [p[pi]];
      pi := pi + 1;
    }
    assert pi < |p| ==> p[from..][pi - from] == p[pi];
    assert pi == |p| ==> p[from..pi] == p[from..];
    r := pi == |p|;
  }

  // ---------- texts without a literal star ----------

  /** p's first n characters are matched one for one by t's, none of them being a star. */
  ghost predicate Segment(p: string, t: string, n: nat) {
    n <= |p| && n <= |t| && forall i :: 0 <= i < n ==> p[i] != '*' && (p[i] == '?' || p[i] == t[i])
  }

  lemma {:induction false} SegmentIsForced(p: string, t: string, n: nat)
    requires n <= |p| && forall i :: 0 <= i < n ==> p[i] != '*'
    ensures Matches(p, t) <==> Segment(p, t, n) && Matches(p[n..], t[n..])
    decreases n
  {
    if n == 0 {
      assert p[0..] == p && t[0..] == t;
    } else if t != "" && (p[0] == '?' || p[0] == t[0]) {
      var p', t' := p[1..], t[1..];
      SegmentIsForced(p', t', n - 1);
      if n <= |t| {
        assert p'[n - 1..] == p[n..] && t'[n - 1..] == t[n..];
      }
      if Segment(p', t', n - 1) {
        forall i | 0 <= i < n ensures p[i] == '?' || p[i] == t[i] {
          if i > 0 { assert p'[i - 1] == p[i] && t'[i - 1] == t[i]; }
        }
      }
      if Segment(p, t, n) {
        forall i | 0 <= i < n - 1 ensures p'[i] != '*' && (p'[i] == '?' || p'[i] == t'[i]) {
          assert p'[i] == p[i + 1] && t'[i] == t[i + 1];
        }
      }
    }
  }

  lemma {:induction false} StarsMatchEmpty(p: string)
    ensures Matches(p, "") <==> OnlyStars(p)
  {
    if p != "" {
      StarsMatchEmpty(p[1..]);
      assert forall k :: 0 <= k <= |""| ==> ""[k..] == "";
      if OnlyStars(p) {
        forall i | 0 <= i < |p[1..]| ensures p[1..][i] == '*' { assert p[1..][i] == p[i + 1]; }
        assert 0 <= 0 <= |""| && Matches(p[1..], ""[0..]);
      }
      if Matches(p, "") {
        forall i | 0 <= i < |p| ensures p[i] == '*' { if i > 0 { assert p[1..][i - 1] == p[i]; } }
      }
    }
  }

  /** Some start not before `from` lets p match the rest of t. */
  ghost predicate MatchesFrom(p: string, t: string, from: nat) {
    exists k :: from <= k <= |t| && Matches(p, t[k..])
  }

  /** What the state stands for: with a star passed, everything hinges on where the rest of the pattern
      starts at or after `match`, and the attempt at `match` has succeeded so far. */
  ghost predicate Stands(p: string, t: string, pi: nat, ti: nat, star: int, match': nat) {
    pi <= |p| && ti <= |t| && -1 <= star < |p| && match' <= ti && (star >= 0 ==> star < pi)
    && (star == -1 ==> (Matches(p, t) <==> Matches(p[pi..], t[ti..])))
    && (star != -1 ==>
         && (Matches(p, t) <==> MatchesFrom(p[star + 1..], t, match'))
         && ti - match' == pi - star - 1
         && Segment(p[star + 1..], t[match'..], pi - star - 1))
  }

  lemma {:induction false} LiteralStep(p: string, t: string, pi: nat, ti: nat, star: int, match': nat)
    requires '*' !in t && Stands(p, t, pi, ti, star, match') && ti < |t| && pi < |p|
    requires p[pi] == '?' || p[pi] == t[ti]
    ensures Stands(p, t, pi + 1, ti + 1, star, match')
  {
  }

  lemma {:induction false} StarStep(p: string, t: string, pi: nat, ti: nat, star: int, match': nat)
    requires Stands(p, t, pi, ti, star, match') && pi < |p| && p[pi] == '*'
    ensures Stands(p, t, pi + 1, ti, pi, ti)
  {
    var rest := p[pi + 1..];
    if star == -1 {
      StarFrom(p[pi..], t, ti);
      assert p[pi..][1..] == rest;
    } else {
      hide Matches;
      var n := pi - star - 1;
      var q := p[star + 1..];
      assert q[n..] == p[pi..] && p[pi..][1..] == rest;
      if MatchesFrom(q, t, match') {
        var k :| match' <= k <= |t| && Matches(q, t[k..]);
        SegmentIsForced(q, t[k..], n);
        assert t[k..][n..] == t[k + n..];
        StarFrom(p[pi..], t, k + n);
      }
      if MatchesFrom(rest, t, ti) {
        StarFrom(p[pi..], t, ti);
        SegmentIsForced(q, t[match'..], n);
        assert t[match'..][n..] == t[ti..];
      }
    }
  }

  /** A pattern that starts with a star matches from `from` exactly when its rest matches from some later place. */
  lemma StarFrom(p: string, t: string, from: nat)
    requires p != "" && p[0] == '*' && from <= |t|
    ensures Matches(p, t[from..]) <==> MatchesFrom(p[1..], t, from)
  {
    var u := t[from..];
    if Matches(p, u) {
      var k :| 0 <= k <= |u| && Matches(p[1..], u[k..]);
      assert u[k..] == t[from + k..];
    }
    if MatchesFrom(p[1..], t, from) {
      var k :| from <= k <= |t| && Matches(p[1..], t[k..]);
      assert u[k - from..] == t[k..];
    }
  }

  lemma {:induction false} BacktrackStep(p: string, t: string, pi: nat, ti: nat, star: nat, match': nat)
    requires Stands(p, t, pi, ti, star, match') && ti < |t|
    requires pi == |p| || (p[pi] != '*' && p[pi] != '?' && p[pi] != t[ti])
    ensures Stands(p, t, star + 1, match' + 1, star, match' + 1)
  {
    var n := pi - star - 1;
    var q := p[star + 1..];
    SegmentIsForced(q, t[match'..], n);
    assert q[n..] == p[pi..] && t[match'..][n..] == t[ti..];
    assert !Matches(p[pi..], t[ti..]);
    assert MatchesFrom(q, t, match') <==> MatchesFrom(q, t, match' + 1) by {
      if MatchesFrom(q, t, match') {
        var k :| match' <= k <= |t| && Matches(q, t[k..]);
        assert k != match';
      }
    }
  }

  lemma {:induction false} LoopMeans(p: string, t: string, pi: nat, ti: nat, star: int, match': nat)
    requires '*' !in t && Stands(p, t, pi, ti, star, match')
    ensures Loop(p, t, pi, ti, star, match') <==> Matches(p, t)
    decreases |p| - star, |t| - match', |t| - ti
  {
    hide Matches, MatchesFrom, Segment;
    if ti == |t| {
      EndOfText(p, t, pi, star, match');
    } else if pi < |p| && (p[pi] == '?' || p[pi] == t[ti]) {
      LiteralStep(p, t, pi, ti, star, match');
      LoopMeans(p, t, pi + 1, ti + 1, star, match');
    } else if pi < |p| && p[pi] == '*' {
      StarStep(p, t, pi, ti, star, match');
      LoopMeans(p, t, pi + 1, ti, pi, ti);
    } else if star != -1 {
      BacktrackStep(p, t, pi, ti, star, match');
      LoopMeans(p, t, star + 1, match' + 1, star, match' + 1);
    } else {
      NoMatchHere(p[pi..], t[ti..]);
    }
  }

  lemma NoMatchHere(p: string, t: string)
    requires t != "" && (p == "" || (p[0] != '*' && p[0] != '?' && p[0] != t[0]))
    ensures !Matches(p, t)
  {
  }

  /** The text is used up: starting the rest of the pattern any later leaves it too little text. */
  lemma {:induction false} EndOfText(p: string, t: string, pi: nat, star: int, match': nat)
    requires Stands(p, t, pi, |t|, star, match')
    ensures OnlyStars(p[pi..]) <==> Matches(p, t)
  {
    hide Matches;
    StarsMatchEmpty(p[pi..]);
    assert t[|t|..] == "";
    if star != -1 {
      var n := pi - star - 1;
      var q := p[star + 1..];
      assert q[n..] == p[pi..] && t[match'..][n..] == t[|t|..];
      SegmentIsForced(q, t[match'..], n);
      if MatchesFrom(q, t, match') {
        var k :| match' <= k <= |t| && Matches(q, t[k..]);
        SegmentIsForced(q, t[k..], n);
        assert |t[k..]| >= n;
      }
    }
  }

  lemma LoopDecides(p: string, t: string)
    requires '*' !in t
    ensures Result(p, t) <==> Matches(p, t)
  {
    assert p[0..] == p && t[0..] == t;
    LoopMeans(p, t, 0, 0, -1, 0);
  }

  // ---------- texts with a literal star ----------

  /** `?` as often as wanted. */
  function Questions(n: nat): (r: string)
    ensures |r| == n && forall i :: 0 <= i < n ==> r[i] == '?'
  {
    seq(n, _ => '?')
  }

  lemma {:induction false} QuestionsMatch(t: string)
    ensures Matches(Questions(|t|), t)
  {
    if t != "" {
      QuestionsMatch(t[1..]);
      assert Questions(|t|)[1..] == Questions(|t| - 1);
    }
  }

  /** A pattern of the text's own characters, then a star, then one `?` for each character still to come:
      the star should match nothing, but the loop spends it on the star in the text. */
  function Trap(t: string, k: nat): string
    requires k <= |t|
  {
    t[..k] + "*" + Questions(|t| - k)
  }

  lemma {:induction false} TrapFools(t: string, k: nat, i: nat)
    requires k < |t| && t[k] == '*' && i <= |t|
    ensures !Loop(Trap(t, k), t, i, i, -1, 0)
    decreases |t| - i
  {
    var p := Trap(t, k);
    assert |p| == |t| + 1;
    assert i < k ==> p[i] == t[i];
    assert i > k ==> p[i] == '?';
    if i < |t| {
      TrapFools(t, k, i + 1);
    } else {
      assert p[i..][0] == '?';
    }
  }

  lemma {:induction false} TrapMatches(t: string, k: nat)
    requires k < |t| && forall i :: 0 <= i < k ==> t[i] != '*'
    ensures Matches(Trap(t, k), t)
  {
    var p := Trap(t, k);
    var rest := t[k..];
    assert forall i :: 0 <= i < k ==> p[i] == t[i];
    SegmentIsForced(p, t, k);
    assert p[k..][1..] == Questions(|t| - k) && p[k..][0] == '*';
    QuestionsMatch(rest);
    assert rest[0..] == rest;
    assert Matches(p[k..], rest);
  }

  /** The matcher means what `*` and `?` mean for every pattern exactly on the texts that hold no `*`. */
  lemma {:induction false} RightForAllPatternsIff(t: string)
    ensures (forall p :: Result(p, t) <==> Matches(p, t)) <==> '*' !in t
  {
    if '*' in t {
      var k := FirstStar(t);
      TrapFools(t, k, 0);
      TrapMatches(t, k);
      assert Result(Trap(t, k), t) != Matches(Trap(t, k), t);
    } else {
      forall p ensures Result(p, t) <==> Matches(p, t) {
        LoopDecides(p, t);
      }
    }
  }

  lemma {:induction false} FirstStar(t: string) returns (k: nat)
    requires '*' in t
    ensures k < |t| && t[k] == '*' && forall i :: 0 <= i < k ==> t[i] != '*'
  {
    k := 0;
    while t[k] != '*'
      decreases |t| - k
      invariant k < |t| && '*' in t[k..] && forall i :: 0 <= i < k ==> t[i] != '*'
    {
      assert t[k..] == [t[k]] + t[k + 1..];
      k := k + 1;
    }
  }
}
