/** Sorted sets of src/core/DataStore.js: a map from member to score, and an array ordered by score, then member. */
module SortedSets {
  import opened Wrappers
  import opened Ordering

  datatype Item = Item(member: string, score: real)

  predicate Less(a: Item, b: Item) {
    a.score < b.score || (a.score == b.score && StrLess(a.member, b.member))
  }

  /** _zsetCompare */
  function Compare(a: Item, b: Item): int {
    if a.score < b.score then -1
    else if a.score > b.score then 1
    else if StrLess(a.member, b.member) then -1
    else if StrLess(b.member, a.member) then 1
    else 0
  }

  lemma LessLaws(a: Item, b: Item, c: Item)
    ensures !Less(a, a)
    ensures a == b || Less(a, b) || Less(b, a)
    ensures Less(a, b) && Less(b, c) ==> Less(a, c)
    ensures Compare(a, b) < 0 <==> Less(a, b)
    ensures Compare(a, b) == 0 <==> a == b
  {
    StrIrreflexive(a.member);
    StrTotal(a.member, b.member);
    if StrLess(a.member, b.member) {
      StrAsymmetric(a.member, b.member);
      if StrLess(b.member, c.member) { StrTransitive(a.member, b.member, c.member); }
    }
  }

  ghost predicate StrictlySorted(s: seq<Item>) {
    forall i, j :: 0 <= i < j < |s| ==> Less(s[i], s[j])
  }

  /** The array holds exactly the pairs of the map. */
  ghost predicate SamePairs(s: seq<Item>, scores: map<string, real>) {
    && (forall it :: it in s ==> it.member in scores && scores[it.member] == it.score)
    && (forall m :: m in scores ==> Item(m, scores[m]) in s)
  }

  ghost predicate ZSetOk(s: seq<Item>, scores: map<string, real>) {
    StrictlySorted(s) && SamePairs(s, scores)
  }

  // ---------- the array is determined by the map ----------

  lemma {:induction false} SortedIsUnique(a: seq<Item>, b: seq<Item>)
    requires StrictlySorted(a) && StrictlySorted(b) && forall it :: it in a <==> it in b
    ensures a == b
    decreases |a|
  {
    assert (a != [] ==> a[0] in b) && (b != [] ==> b[0] in a);
    if a != [] && b != [] {
      HeadIsLeast(a, b[0]);
      HeadIsLeast(b, a[0]);
      LessLaws(a[0], b[0], a[0]);
      assert a[0] == b[0];
      forall it ensures it in a[1..] <==> it in b[1..] {
        NotHeadAgain(a, it);
        NotHeadAgain(b, it);
      }
      SortedIsUnique(a[1..], b[1..]);
      assert a == [a[0]] + a[1..] && b == [b[0]] + b[1..];
    }
  }

  lemma HeadIsLeast(s: seq<Item>, it: Item)
    requires StrictlySorted(s) && it in s
    ensures it == s[0] || Less(s[0], it)
  {
  }

  lemma NotHeadAgain(s: seq<Item>, it: Item)
    requires StrictlySorted(s) && s != []
    ensures it in s[1..] <==> it in s && it != s[0]
  {
    if it in s[1..] {
      LessLaws(it, it, it);
    }
  }

  /** Two sorted sets with the same scores have the same array. */
  lemma ArrayIsDetermined(a: seq<Item>, b: seq<Item>, scores: map<string, real>)
    requires ZSetOk(a, scores) && ZSetOk(b, scores)
    ensures a == b
  {
    forall it ensures it in a <==> it in b {
      assert it == Item(it.member, it.score);
    }
    SortedIsUnique(a, b);
  }

  // ---------- inserting and removing ----------

  /** No member occurs twice in the array. */
  lemma OnePlaceEach(s: seq<Item>, scores: map<string, real>, i: nat, j: nat)
    requires ZSetOk(s, scores) && i < j < |s|
    ensures s[i].member != s[j].member
  {
    hide Less;
    assert s[i] in s && s[j] in s;
    assert s[i].member == s[j].member ==> s[i] == s[j];
    LessLaws(s[i], s[i], s[i]);
  }

  lemma InsertKeepsOk(s: seq<Item>, scores: map<string, real>, k: nat, item: Item)
    requires ZSetOk(s, scores) && k <= |s| && item.member !in scores
    requires (forall i :: 0 <= i < k ==> Less(s[i], item)) && (forall i :: k <= i < |s| ==> Less(item, s[i]))
    ensures ZSetOk(s[..k] + [item] + s[k..], scores[item.member := item.score])
  {
  }

  lemma RemoveSorted(s: seq<Item>, k: nat)
    requires StrictlySorted(s) && k < |s|
    ensures StrictlySorted(s[..k] + s[k + 1..])
  {
  }

  lemma RemoveKeepsOk(s: seq<Item>, scores: map<string, real>, k: nat)
    requires ZSetOk(s, scores) && k < |s|
    ensures ZSetOk(s[..k] + s[k + 1..], scores - {s[k].member})
  {
    hide Less, StrictlySorted;
    RemoveSorted(s, k);
    forall it | it in s[..k] + s[k + 1..] ensures it in s && it.member != s[k].member {
      LeftOver(s, scores, k, it);
    }
    forall m | m in scores && m != s[k].member ensures Item(m, scores[m]) in s[..k] + s[k + 1..] {
      StillThere(s, k, Item(m, scores[m]));
    }
  }

  lemma LeftOver(s: seq<Item>, scores: map<string, real>, k: nat, it: Item)
    requires ZSetOk(s, scores) && k < |s| && it in s[..k] + s[k + 1..]
    ensures it in s && it.member != s[k].member
  {
    hide ZSetOk;
    if it in s[..k] {
      var i :| 0 <= i < k && s[i] == it;
      OnePlaceEach(s, scores, i, k);
    } else {
      var i :| 0 <= i < |s| - k - 1 && s[k + 1..][i] == it;
      OnePlaceEach(s, scores, k, k + 1 + i);
    }
  }

  lemma StillThere(s: seq<Item>, k: nat, it: Item)
    requires k < |s| && it in s && it != s[k]
    ensures it in s[..k] + s[k + 1..]
  {
  }

  // ---------- commands ----------

  datatype Reply = IntReply(n: int) | ErrorReply | NullReply | BulkReply(score: real) | Members(members: seq<string>)

  datatype Bound = NegInf | PosInf | Finite(v: real)

  predicate AtLeast(score: real, min: Bound) { min == NegInf || (min.Finite? && score >= min.v) }

  predicate AtMost(score: real, max: Bound) { max == PosInf || (max.Finite? && score <= max.v) }

  /** ZADD's pairs up to the first unreadable score; None stands for NaN. */
  function Readable(pairs: seq<(Option<real>, string)>): (n: nat)
    ensures n <= |pairs|
  {
    if pairs == [] || pairs[0].0.None? then 0 else 1 + Readable(pairs[1..])
  }

  function AddAll(scores: map<string, real>, pairs: seq<(Option<real>, string)>): map<string, real> {
    if pairs == [] then scores
    else
      var n := |pairs| - 1;
      var before := AddAll(scores, pairs[..n]);
      if pairs[n].0.None? then before else before[pairs[n].1 := pairs[n].0.value]
  }

  function MembersOf(s: seq<Item>): (r: seq<string>)
    ensures |r| == |s|
    ensures forall i :: 0 <= i < |r| ==> r[i] == s[i].member
  {
    seq(|s|, i requires 0 <= i < |s| => s[i].member)
  }

  function InRange(s: seq<Item>, min: Bound, max: Bound): seq<Item> {
    if s == [] then []
    else
      var n := |s| - 1;
      InRange(s[..n], min, max) + if AtLeast(s[n].score, min) && AtMost(s[n].score, max) then [s[n]] else []
  }

  function NamesOf(s: seq<Item>): set<string> { set it | it in s :: it.member }

  /** The members ranked before `item`. */
  ghost function Below(scores: map<string, real>, item: Item): set<string> {
    set m | m in scores.Keys && Less(Item(m, scores[m]), item)
  }

  /** The lower score first, and of equal scores the member that comes first as a string */
  predicate Precedes(scores: map<string, real>, a: string, b: string) {
    a in scores && b in scores && (scores[a] < scores[b] || (scores[a] == scores[b] && StrLess(a, b)))
  }

  /** A range by score, by the scores alone */
  lemma RangeMeans(s: seq<Item>, scores: map<string, real>, min: Bound, max: Bound)
    requires ZSetOk(s, scores)
    ensures var out := MembersOf(InRange(s, min, max));
            && (forall m :: m in out <==>
                  m in scores && (min.NegInf? || (min.Finite? && min.v <= scores[m]))
                  && (max.PosInf? || (max.Finite? && scores[m] <= max.v)))
            && forall i, j :: 0 <= i < j < |out| ==> Precedes(scores, out[i], out[j])
  {
    hide InRange, Less;
    var items := InRange(s, min, max);
    var out := MembersOf(items);
    InRangeIs(s, min, max);
    forall m ensures m in out <==> m in scores && AtLeast(scores[m], min) && AtMost(scores[m], max) {
      if m in out {
        var i :| 0 <= i < |out| && out[i] == m;
        assert items[i] in items;
      }
      if m in scores && AtLeast(scores[m], min) && AtMost(scores[m], max) {
        var it := Item(m, scores[m]);
        assert it in items;
        var i :| 0 <= i < |items| && items[i] == it;
        assert out[i] == m;
      }
    }
    forall i, j | 0 <= i < j < |out| ensures Precedes(scores, out[i], out[j]) {
      assert items[i] in items && items[j] in items;
      LessMeans(items[i], items[j]);
    }
  }

  lemma LessMeans(a: Item, b: Item)
    ensures Less(a, b) <==> a.score < b.score || (a.score == b.score && StrLess(a.member, b.member))
  {
  }

  lemma {:induction false} InRangeIs(s: seq<Item>, min: Bound, max: Bound)
    requires StrictlySorted(s)
    ensures StrictlySorted(InRange(s, min, max))
    ensures forall it :: it in InRange(s, min, max) <==> it in s && AtLeast(it.score, min) && AtMost(it.score, max)
  {
    hide Less, AtLeast, AtMost;
    if s != [] {
      var front, last := s[..|s| - 1], s[|s| - 1];
      assert s == front + [last];
      InRangeIs(front, min, max);
      var before := InRange(front, min, max);
      forall i | 0 <= i < |before| ensures Less(before[i], last) {
        assert before[i] in front;
        var k :| 0 <= k < |front| && front[k] == before[i];
        assert s[k] == front[k];
      }
    }
  }

  /** What is left in the array when k members have been popped from its front or its end */
  function Remaining(s: seq<Item>, k: nat, minFirst: bool): seq<Item>
    requires k <= |s|
  {
    if minFirst then s[k..] else s[..|s| - k]
  }

  /** Those members, in the order popped */
  function Popped(s: seq<Item>, k: nat, minFirst: bool): (r: seq<string>)
    requires k <= |s|
    ensures |r| == k
    ensures forall i :: 0 <= i < k ==> r[i] == s[if minFirst then i else |s| - 1 - i].member
  {
    seq(k, i requires 0 <= i < k => s[if minFirst then i else |s| - 1 - i].member)
  }

  lemma NothingPopped(s: seq<Item>, minFirst: bool)
    ensures Remaining(s, 0, minFirst) == s && Popped(s, 0, minFirst) == []
  {
  }

  lemma OnePopped(s: seq<Item>, k: nat, minFirst: bool)
    requires k < |s|
    ensures var rest := Remaining(s, k, minFirst);
            |rest| == |s| - k
            && var idx := if minFirst then 0 else |rest| - 1;
            rest[..idx] + rest[idx + 1..] == Remaining(s, k + 1, minFirst)
            && Popped(s, k, minFirst) + [rest[idx].member] == Popped(s, k + 1, minFirst)
  {
  }

  lemma PoppedRank(s: seq<Item>, scores: map<string, real>, k: nat, minFirst: bool, rest: seq<Item>,
                   scores': map<string, real>)
    requires ZSetOk(s, scores) && k <= |s| && rest == Remaining(s, k, minFirst) && ZSetOk(rest, scores')
    ensures forall x, y :: x in Popped(s, k, minFirst) && y in scores' ==>
              if minFirst then Precedes(scores, x, y) else Precedes(scores, y, x)
  {
    hide Less, Popped;
    var out := Popped(s, k, minFirst);
    forall x, y | x in out && y in scores'
      ensures if minFirst then Precedes(scores, x, y) else Precedes(scores, y, x)
    {
      var i :| 0 <= i < k && out[i] == x;
      var it := Item(y, scores'[y]);
      var j :| 0 <= j < |rest| && rest[j] == it;
      var a, b := if minFirst then i else |s| - 1 - i, if minFirst then k + j else j;
      assert s[b] == it && s[a].member == x;
      assert s[a] in s && s[b] in s;
      LessMeans(s[a], s[b]);
      LessMeans(s[b], s[a]);
    }
  }

  class ZSet {
    var memberToScore: map<string, real>
    var sorted: seq<Item>

    ghost predicate Valid()
      reads this
    {
      ZSetOk(sorted, memberToScore)
    }

    constructor ()
      ensures Valid() && memberToScore == map[]
    {
      memberToScore, sorted := map[], [];
    }

    /** Binary search for the position, then a splice. */
    method ZsetInsert(item: Item)
      requires ZSetOk(sorted, memberToScore) && item.member !in memberToScore
      modifies `sorted
      ensures ZSetOk(sorted, memberToScore[item.member := item.score])
    {
      hide Less, Compare;
      var lo, hi := 0, |sorted|;
      while lo < hi
        invariant 0 <= lo <= hi <= |sorted|
        invariant forall i :: 0 <= i < lo ==> Less(sorted[i], item)
        invariant forall i :: hi <= i < |sorted| ==> Less(item, sorted[i])
        modifies {}
      {
        var mid := (lo + hi) / 2;
        var cmp := Compare(item, sorted[mid]);
        assert sorted[mid] in sorted;
        LessLaws(item, sorted[mid], item);
        assert sorted[mid] != item;
        if cmp <= 0 {
          forall i | mid <= i < |sorted| ensures Less(item, sorted[i]) { LessLaws(item, sorted[mid], sorted[i]); }
        } else {
          forall i | 0 <= i <= mid ensures Less(sorted[i], item) { LessLaws(sorted[i], sorted[mid], item); }
        }
        if cmp <= 0 { hi := mid; } else { lo := mid + 1; }
      }
      InsertKeepsOk(sorted, memberToScore, lo, item);
      sorted := sorted[..lo] + [item] + sorted[lo..];
    }

    method ZsetIndexOf(member: string) returns (idx: int)
      ensures idx == -1 <==> forall i :: 0 <= i < |sorted| ==> sorted[i].member != member
      ensures idx != -1 ==> 0 <= idx < |sorted| && sorted[idx].member == member
    {
      for i := 0 to |sorted|
        invariant forall j :: 0 <= j < i ==> sorted[j].member != member
      {
        if sorted[i].member == member { return i; }
      }
      idx := -1;
    }

    method ZsetRemoveFromSorted(member: string)
      requires ZSetOk(sorted, memberToScore) && member in memberToScore
      modifies `sorted
      ensures ZSetOk(sorted, memberToScore - {member})
    {
      var idx := ZsetIndexOf(member);
      var it := Item(member, memberToScore[member]);
      assert it in sorted;
      RemoveKeepsOk(sorted, memberToScore, idx);
      sorted := sorted[..idx] + sorted[idx + 1..];
    }

    /** Sets one member's score, moving its array entry when the score changes. */
    method SetScore(member: string, score: real)
      requires Valid()
      modifies this
      ensures Valid() && memberToScore == old(memberToScore)[member := score]
    {
      if member in memberToScore {
        if memberToScore[member] != score {
          ghost var before := memberToScore;
          ZsetRemoveFromSorted(member);
          memberToScore := memberToScore - {member};
          ZsetInsert(Item(member, score));
          assert memberToScore[member := score] == before[member := score];
        }
      } else {
        ZsetInsert(Item(member, score));
      }
      memberToScore := memberToScore[member := score];
    }

    /** An unreadable score ends the command with an error, but the pairs before it have taken effect and
        the two representations still agree. */
    method ZAdd(pairs: seq<(Option<real>, string)>) returns (r: Reply)
      requires Valid()
      modifies this
      ensures Valid()
      ensures memberToScore == AddAll(old(memberToScore), pairs[..Readable(pairs)])
      ensures if Readable(pairs) < |pairs| then r == ErrorReply
              else r == IntReply(|memberToScore| - |old(memberToScore)|)
    {
      var added := 0;
      for i := 0 to |pairs|
        invariant Valid() && i <= Readable(pairs)
        invariant memberToScore == AddAll(old(memberToScore), pairs[..i])
        invariant added == |memberToScore| - |old(memberToScore)|
      {
        ReadableAt(pairs, i);
        if pairs[i].0.None? { return ErrorReply; }
        assert pairs[..i + 1][..i] == pairs[..i];
        if pairs[i].1 !in memberToScore { added := added + 1; }
        SetScore(pairs[i].1, pairs[i].0.value);
      }
      assert pairs[..|pairs|] == pairs;
      return IntReply(added);
    }

    method ZRem(members: seq<string>) returns (r: Reply)
      requires Valid()
      modifies this
      ensures Valid()
      ensures memberToScore == old(memberToScore) - SetOf(members)
      ensures r == IntReply(|old(memberToScore)| - |memberToScore|)
    {
      hide ZSet.Valid, SetOf;
      var removed := 0;
      SetOfSnoc([], "");
      for i := 0 to |members|
        invariant Valid() && memberToScore == old(memberToScore) - SetOf(members[..i])
        invariant removed == |old(memberToScore)| - |memberToScore|
      {
        assert members[..i + 1] == members[..i] + [members[i]];
        SetOfSnoc(members[..i], members[i]);
        MinusMinus(old(memberToScore), SetOf(members[..i]), members[i]);
        var one := RemOne(members[i]);
        removed := removed + one;
      }
      assert members[..|members|] == members;
      return IntReply(removed);
    }

    method RemOne(member: string) returns (removed: nat)
      requires Valid()
      modifies this
      ensures Valid() && memberToScore == old(memberToScore) - {member}
      ensures removed == |old(memberToScore)| - |memberToScore|
    {
      if member !in memberToScore { return 0; }
      hide StrictlySorted, SamePairs;
      assert memberToScore.Keys == (memberToScore - {member}).Keys + {member};
      ZsetRemoveFromSorted(member);
      memberToScore := memberToScore - {member};
      return 1;
    }

    method ZIncrBy(inc: real, member: string) returns (r: Reply)
      requires Valid()
      modifies this
      ensures Valid()
      ensures var next := (if member in old(memberToScore) then old(memberToScore)[member] else 0.0) + inc;
              memberToScore == old(memberToScore)[member := next] && r == BulkReply(next)
    {
      var cur := if member in memberToScore then memberToScore[member] else 0.0;
      SetScore(member, cur + inc);
      return BulkReply(cur + inc);
    }

    /** The first (or last, in reverse) max(1, count) members leave both representations: each of them ranks before
        (or behind) every member that stays. */
    method ZPop(count: nat, minFirst: bool) returns (r: Reply)
      requires Valid()
      modifies this
      ensures Valid()
      ensures var n := if count == 0 then 1 else count;
              var k := if n <= old(|sorted|) then n else old(|sorted|);
              && r.Members? && r.members == Popped(old(sorted), k, minFirst) && |r.members| == k
              && sorted == Remaining(old(sorted), k, minFirst)
      ensures forall x, y :: x in r.members && y in memberToScore ==>
                if minFirst then Precedes(old(memberToScore), x, y) else Precedes(old(memberToScore), y, x)
    {
      hide ZSetOk, Popped, Remaining, Less, Precedes;
      var n := if count == 0 then 1 else count;
      var out: seq<string> := [];
      ghost var was := sorted;
      NothingPopped(was, minFirst);
      while |out| < n && |sorted| > 0
        invariant Valid() && |out| <= n && |out| + |sorted| == |was|
        invariant sorted == Remaining(was, |out|, minFirst) && out == Popped(was, |out|, minFirst)
        decreases |sorted|
      {
        var idx := if minFirst then 0 else |sorted| - 1;
        var item := sorted[idx];
        RemoveKeepsOk(sorted, memberToScore, idx);
        OnePopped(was, |out|, minFirst);
        sorted := sorted[..idx] + sorted[idx + 1..];
        memberToScore := memberToScore - {item.member};
        out := out + [item.member];
      }
      PoppedRank(was, old(memberToScore), |out|, minFirst, sorted, memberToScore);
      r := Members(out);
      assert r.members == out;
    }

    /** The rank is the number of members with a smaller (score, member) pair. */
    method ZRank(member: string) returns (r: Reply)
      requires Valid()
      ensures if member in memberToScore
              then r == IntReply(|Below(memberToScore, Item(member, memberToScore[member]))|) else r == NullReply
    {
      var idx := ZsetIndexOf(member);
      if member in memberToScore { assert Item(member, memberToScore[member]) in sorted; }
      if idx == -1 { return NullReply; }
      assert sorted[idx] in sorted;
      RankCounts(sorted, memberToScore, idx);
      return IntReply(idx);
    }

    method ZRevRank(member: string) returns (r: Reply)
      requires Valid()
      ensures if member in memberToScore
              then r == IntReply(|memberToScore| - 1 - |Below(memberToScore, Item(member, memberToScore[member]))|)
              else r == NullReply
    {
      var idx := ZsetIndexOf(member);
      if member in memberToScore { assert Item(member, memberToScore[member]) in sorted; }
      if idx == -1 { return NullReply; }
      assert sorted[idx] in sorted;
      RankCounts(sorted, memberToScore, idx);
      CardIsLength(sorted, memberToScore);
      // The source searches the reversed copy; the member occurs once, so at the mirrored index.
      return IntReply(|sorted| - 1 - idx);
    }

    /** The early break loses nothing: the reply is the whole filter, in order. */
    method ZRangeByScore(min: Bound, max: Bound) returns (r: Reply)
      requires Valid()
      ensures r == Members(MembersOf(InRange(sorted, min, max)))
      ensures forall m :: m in r.members <==>
                m in memberToScore
                && (min.NegInf? || (min.Finite? && min.v <= memberToScore[m]))
                && (max.PosInf? || (max.Finite? && memberToScore[m] <= max.v))
      ensures forall i, j :: 0 <= i < j < |r.members| ==> Precedes(memberToScore, r.members[i], r.members[j])
    {
      hide Less, AtLeast, AtMost, InRange;
      RangeMeans(sorted, memberToScore, min, max);
      var out := RangeLoop(min, max);
      return Members(MembersOf(out));
    }

    method RangeLoop(min: Bound, max: Bound) returns (out: seq<Item>)
      requires Valid()
      ensures out == InRange(sorted, min, max)
    {
      hide Less, AtLeast, AtMost;
      out := [];
      var i := 0;
      while i < |sorted|
        invariant 0 <= i <= |sorted|
        invariant out == InRange(sorted[..i], min, max)
      {
        var item := sorted[i];
        assert sorted[..i + 1][..i] == sorted[..i];
        out := out + if AtLeast(item.score, min) && AtMost(item.score, max) then [item] else [];
        i := i + 1;
        if !AtMost(item.score, max) {
          NothingBehind(sorted, i, min, max);
          break;
        }
      }
      if i == |sorted| { assert sorted[..i] == sorted; }
    }
  }

  function SetOf(s: seq<string>): set<string> { set m | m in s }

  lemma SetOfSnoc(s: seq<string>, m: string)
    ensures SetOf(s + [m]) == SetOf(s) + {m} && SetOf([]) == {}
  {
  }

  lemma MinusMinus(scores: map<string, real>, gone: set<string>, member: string)
    ensures (scores - gone) - {member} == scores - (gone + {member})
  {
  }

  lemma {:induction false} ReadableAt(pairs: seq<(Option<real>, string)>, i: nat)
    requires i < |pairs| && i <= Readable(pairs)
    ensures pairs[i].0.Some? <==> i < Readable(pairs)
  {
    if i > 0 { ReadableAt(pairs[1..], i - 1); }
  }

  /** Behind an item above the maximum there is nothing left to find. */
  lemma {:induction false} NothingBehind(s: seq<Item>, i: nat, min: Bound, max: Bound)
    requires StrictlySorted(s) && 0 < i <= |s| && !AtMost(s[i - 1].score, max)
    ensures InRange(s, min, max) == InRange(s[..i], min, max)
    decreases |s|
  {
    if i < |s| {
      var t := s[..|s| - 1];
      NothingBehind(t, i, min, max);
      assert t[..i] == s[..i];
      assert Less(s[i - 1], s[|s| - 1]);
    } else {
      assert s[..i] == s;
    }
  }

  /** Index k in the array is the number of members ranked before it. */
  lemma RankCounts(s: seq<Item>, scores: map<string, real>, k: nat)
    requires ZSetOk(s, scores) && k < |s|
    ensures s[k].member in scores && Below(scores, Item(s[k].member, scores[s[k].member])) == NamesOf(s[..k])
    ensures |Below(scores, Item(s[k].member, scores[s[k].member]))| == k
  {
    assert s[k] in s;
    var below := Below(scores, s[k]);
    assert s[k] == Item(s[k].member, scores[s[k].member]);
    var names := NamesOf(s[..k]);
    forall m | m in below ensures m in names {
      var it := Item(m, scores[m]);
      var i :| 0 <= i < |s| && s[i] == it;
      LessLaws(it, s[k], it);
      LessLaws(s[k], it, s[k]);
      assert s[..k][i] == it;
    }
    forall m | m in names ensures m in below {
      var it :| it in s[..k] && it.member == m;
      var i :| 0 <= i < k && s[i] == it;
      assert s[i] in s && it == Item(m, scores[m]);
    }
    assert below == names;
    PrefixNames(s, scores, k);
  }

  lemma NamesOfSnoc(s: seq<Item>, it: Item)
    ensures NamesOf(s + [it]) == NamesOf(s) + {it.member}
  {
  }

  lemma {:induction false} PrefixNames(s: seq<Item>, scores: map<string, real>, k: nat)
    requires ZSetOk(s, scores) && k <= |s|
    ensures |NamesOf(s[..k])| == k
    decreases k
  {
    if k == 0 {
      assert s[..0] == [];
    } else {
      hide StrictlySorted, SamePairs, NamesOf;
      assert s[..k] == s[..k - 1] + [s[k - 1]];
      PrefixNames(s, scores, k - 1);
      NamesOfSnoc(s[..k - 1], s[k - 1]);
      NotYetNamed(s, scores, k - 1);
    }
  }

  lemma NotYetNamed(s: seq<Item>, scores: map<string, real>, k: nat)
    requires ZSetOk(s, scores) && k < |s|
    ensures s[k].member !in NamesOf(s[..k])
  {
    hide ZSetOk;
    forall it | it in s[..k] ensures it.member != s[k].member {
      var i :| 0 <= i < k && s[i] == it;
      OnePlaceEach(s, scores, i, k);
    }
  }

  lemma CardIsLength(s: seq<Item>, scores: map<string, real>)
    requires ZSetOk(s, scores)
    ensures |scores| == |s|
  {
    PrefixNames(s, scores, |s|);
    assert s[..|s|] == s;
    forall m | m in scores.Keys ensures m in NamesOf(s) { assert Item(m, scores[m]) in s; }
    assert NamesOf(s) == scores.Keys;
  }
}
