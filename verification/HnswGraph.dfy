/** Layered neighbour graphs, reachability in one layer, and lists of hits sorted by distance. */
module HnswGraph {
  import opened Sorting

  type Id = string

  datatype Vertex<Vec> = Vertex(vector: Vec, level: nat)

  type Links = map<Id, map<nat, set<Id>>>

  /** neighbors.get(id)?.get(level), empty when absent. */
  function LinksAt(nb: Links, id: Id, level: nat): set<Id> {
    if id in nb && level in nb[id] then nb[id][level] else {}
  }

  /** Every link names an existing vertex. */
  ghost predicate LinksExist<Vec>(nodes: map<Id, Vertex<Vec>>, nb: Links) {
    forall id, l, n :: n in LinksAt(nb, id, l) ==> n in nodes
  }

  /** Levels are present exactly up to the vertex's own. */
  ghost predicate LevelsOk<Vec>(nodes: map<Id, Vertex<Vec>>, nb: Links) {
    nb.Keys == nodes.Keys
    && forall id, l: nat :: id in nodes ==> (l in nb[id] <==> l <= nodes[id].level)
  }

  /** A link at level l joins two different vertices, and leads to one of level at least l. */
  ghost predicate EndsOk<Vec>(nodes: map<Id, Vertex<Vec>>, nb: Links) {
    forall id, l: nat, n :: n in LinksAt(nb, id, l) ==> n in nodes && n != id && l <= nodes[n].level
  }

  /** No vertex has more than m links at a level. */
  ghost predicate DegreesOk(nb: Links, m: nat) {
    forall id, l: nat :: |LinksAt(nb, id, l)| <= m
  }

  ghost predicate GraphOk<Vec>(nodes: map<Id, Vertex<Vec>>, nb: Links, m: nat) {
    LevelsOk(nodes, nb) && EndsOk(nodes, nb) && DegreesOk(nb, m)
  }

  /** A fresh empty set for each level from 0 to the vertex's own. */
  function EmptyLayers(level: nat): (r: map<nat, set<Id>>)
    ensures forall l: nat :: l in r <==> l <= level
    ensures forall l: nat :: l in r ==> r[l] == {}
  {
    if level == 0 then map[0 := {}] else EmptyLayers(level - 1)[level := {}]
  }

  function SetLinks(nb: Links, id: Id, level: nat, s: set<Id>): Links
    requires id in nb
  {
    var layers: map<nat, set<Id>> := nb[id][level := s];
    nb[id := layers]
  }

  lemma SetLinksAt(nb: Links, id: Id, level: nat, s: set<Id>)
    requires id in nb
    ensures forall x, l: nat :: LinksAt(SetLinks(nb, id, level, s), x, l)
                             == if x == id && l == level then s else LinksAt(nb, x, l)
  {
  }

  /** Replacing the links of one vertex at one of its levels by few enough good ones keeps the graph good. */
  lemma SetLinksOk<Vec>(nodes: map<Id, Vertex<Vec>>, nb: Links, m: nat, id: Id, level: nat, s: set<Id>)
    requires GraphOk(nodes, nb, m) && id in nodes && level <= nodes[id].level && |s| <= m
    requires forall n :: n in s ==> n in nodes && n != id && level <= nodes[n].level
    ensures GraphOk(nodes, SetLinks(nb, id, level, s), m)
  {
    SetLinksAt(nb, id, level, s);
    SetLinksLevels(nodes, nb, id, level, s);
    var now := SetLinks(nb, id, level, s);
    assert EndsOk(nodes, now) by {
      hide LinksAt, SetLinks;
      assert forall x, l: nat, n :: n in LinksAt(now, x, l) ==>
          (x == id && l == level && n in s) || n in LinksAt(nb, x, l);
    }
    assert DegreesOk(now, m) by {
      hide LinksAt, SetLinks;
      assert forall x, l: nat :: LinksAt(now, x, l) == s || LinksAt(now, x, l) == LinksAt(nb, x, l);
    }
  }

  lemma SetLinksLevels<Vec>(nodes: map<Id, Vertex<Vec>>, nb: Links, id: Id, level: nat, s: set<Id>)
    requires LevelsOk(nodes, nb) && id in nodes && level <= nodes[id].level
    ensures LevelsOk(nodes, SetLinks(nb, id, level, s))
  {
  }

  // ---------- reachability ----------

  ghost predicate IsPath(nb: Links, level: nat, p: seq<Id>) {
    p != [] && forall i :: 0 <= i < |p| - 1 ==> p[i + 1] in LinksAt(nb, p[i], level)
  }

  ghost predicate Reachable(nb: Links, level: nat, a: Id, b: Id) {
    exists p :: IsPath(nb, level, p) && p[0] == a && p[|p| - 1] == b
  }

  ghost function ReachSet<Vec>(nodes: map<Id, Vertex<Vec>>, nb: Links, level: nat, a: Id): set<Id> {
    set x | x in nodes.Keys && Reachable(nb, level, a, x)
  }

  lemma ReachableSelf(nb: Links, level: nat, a: Id)
    ensures Reachable(nb, level, a, a)
  {
    assert IsPath(nb, level, [a]);
  }

  lemma ReachableStep(nb: Links, level: nat, a: Id, b: Id, c: Id)
    requires Reachable(nb, level, a, b) && c in LinksAt(nb, b, level)
    ensures Reachable(nb, level, a, c)
  {
    var p :| IsPath(nb, level, p) && p[0] == a && p[|p| - 1] == b;
    assert IsPath(nb, level, p + [c]);
    assert (p + [c])[0] == a && (p + [c])[|p|] == c;
  }

  /** A set that holds the start and is closed under links holds everything reachable. */
  lemma {:induction false} ClosedHoldsPath(nb: Links, level: nat, s: set<Id>, p: seq<Id>, k: nat)
    requires IsPath(nb, level, p) && p[0] in s && k < |p|
    requires forall x :: x in s ==> LinksAt(nb, x, level) <= s
    ensures p[k] in s
  {
    if k > 0 { ClosedHoldsPath(nb, level, s, p, k - 1); }
  }

  lemma ClosedHoldsReachable(nb: Links, level: nat, s: set<Id>, a: Id, b: Id)
    requires a in s && (forall x :: x in s ==> LinksAt(nb, x, level) <= s) && Reachable(nb, level, a, b)
    ensures b in s
  {
    var p :| IsPath(nb, level, p) && p[0] == a && p[|p| - 1] == b;
    ClosedHoldsPath(nb, level, s, p, |p| - 1);
  }

  /** Walking a layer never leaves it ... */
  lemma {:induction false} WalkStaysInLayer<Vec>(nodes: map<Id, Vertex<Vec>>, nb: Links, m: nat, level: nat, a: Id,
      b: Id)
    requires GraphOk(nodes, nb, m) && a in nodes && level <= nodes[a].level && Reachable(nb, level, a, b)
    ensures b in nodes && level <= nodes[b].level
  {
    var layer := set x | x in nodes.Keys && level <= nodes[x].level;
    ClosedHoldsReachable(nb, level, layer, a, b);
  }

  /** ... and never enters a vertex that nothing in the layer links to. */
  lemma {:induction false} WalkAvoids(nb: Links, level: nat, a: Id, b: Id, x: Id)
    requires x != a && (forall id :: x !in LinksAt(nb, id, level)) && Reachable(nb, level, a, b)
    ensures b != x
  {
    var p :| IsPath(nb, level, p) && p[0] == a && p[|p| - 1] == b;
    if |p| > 1 { assert p[|p| - 2 + 1] in LinksAt(nb, p[|p| - 2], level); }
  }

  /** What is reachable in a layer depends on the links of that layer alone. */
  lemma SameLayerSameReach<Vec>(nodes: map<Id, Vertex<Vec>>, nb: Links, nb': Links, level: nat, a: Id)
    requires forall x :: LinksAt(nb, x, level) == LinksAt(nb', x, level)
    ensures ReachSet(nodes, nb, level, a) == ReachSet(nodes, nb', level, a)
  {
    forall b ensures Reachable(nb, level, a, b) <==> Reachable(nb', level, a, b) {
      if Reachable(nb, level, a, b) { SameLayerReaches(nb, nb', level, a, b); }
      if Reachable(nb', level, a, b) { SameLayerReaches(nb', nb, level, a, b); }
    }
  }

  lemma SameLayerReaches(nb: Links, nb': Links, level: nat, a: Id, b: Id)
    requires forall x :: LinksAt(nb, x, level) == LinksAt(nb', x, level)
    requires Reachable(nb, level, a, b)
    ensures Reachable(nb', level, a, b)
  {
    hide LinksAt;
    var p :| IsPath(nb, level, p) && p[0] == a && p[|p| - 1] == b;
    assert IsPath(nb', level, p);
  }

  // ---------- hits ----------

  datatype Hit = Hit(id: Id, d: real)

  ghost predicate Ascending(s: seq<Hit>) {
    forall i, j :: 0 <= i < j < |s| ==> s[i].d <= s[j].d
  }

  ghost predicate DistinctIds(s: seq<Hit>) {
    forall i, j :: 0 <= i < j < |s| ==> s[i].id != s[j].id
  }

  function Ids(s: seq<Hit>): set<Id> { set h | h in s :: h.id }

  predicate Nearer(a: Hit, b: Hit) { a.d < b.d }

  function SortByDistance(s: seq<Hit>): seq<Hit> { Sort(s, Nearer) }

  lemma NearerOrders(s: seq<Hit>)
    ensures WeakOrder(Nearer) && (InOrder(s, Nearer) <==> Ascending(s))
  {
  }

  lemma InsertHitSplits(s: seq<Hit>, h: Hit) returns (k: nat)
    requires Ascending(s)
    ensures k <= |s| && Insert(s, h, Nearer) == s[..k] + [h] + s[k..] && Ascending(s[..k] + [h] + s[k..])
    ensures (forall i :: 0 <= i < k ==> s[i].d <= h.d) && (forall i :: k <= i < |s| ==> h.d < s[i].d)
  {
    hide WeakOrder, InOrder, Insert, Ascending;
    NearerOrders(s);
    k := InsertSplits(s, h, Nearer);
    NearerOrders(Insert(s, h, Nearer));
  }

  lemma SplitDistinct(s: seq<Hit>, h: Hit, k: nat)
    requires DistinctIds(s) && k <= |s| && h.id !in Ids(s)
    ensures DistinctIds(s[..k] + [h] + s[k..])
  {
  }

  lemma SortByDistanceSorts(s: seq<Hit>)
    ensures Ascending(SortByDistance(s)) && multiset(SortByDistance(s)) == multiset(s)
    ensures Ascending(s) ==> SortByDistance(s) == s
  {
    hide WeakOrder, InOrder, Insert, Ascending, Sort;
    NearerOrders(s);
    SortSorts(s, Nearer);
    NearerOrders(Sort(s, Nearer));
    if Ascending(s) { SortOfSorted(s, Nearer); }
  }

  /** results.push(h); results.sort(byDistance); if (results.length > ef) results.pop(); */
  function PushResult(results: seq<Hit>, h: Hit, ef: nat): seq<Hit> {
    var s := SortByDistance(results + [h]);
    if |s| > ef then s[..|s| - 1] else s
  }

  /** candidates.push(h); candidates.sort(byDistance); */
  function PushCandidate(candidates: seq<Hit>, h: Hit): seq<Hit> {
    SortByDistance(candidates + [h])
  }

  lemma PushFirst(h: Hit, ef: nat)
    ensures PushCandidate([], h) == [h]
    ensures PushResult([], h, ef) == if ef == 0 then [] else [h]
  {
    var one := [h];
    assert [] + one == one && one[..0] == [];
    SortByDistanceSorts(one);
  }

  lemma SortOfPushed(s: seq<Hit>, h: Hit) returns (k: nat)
    requires Ascending(s)
    ensures k <= |s| && SortByDistance(s + [h]) == s[..k] + [h] + s[k..]
    ensures Ascending(s[..k] + [h] + s[k..]) && s == s[..k] + s[k..]
    ensures k > 0 ==> s[0].d <= h.d
    ensures k == 0 && s != [] ==> h.d < s[0].d
  {
    hide Insert, Ascending;
    SortByDistanceSorts(s);
    assert (s + [h])[..|s|] == s;
    k := InsertHitSplits(s, h);
    assert s == s[..k] + s[k..];
  }

  lemma PushCandidateFacts(s: seq<Hit>, h: Hit)
    requires Ascending(s)
    ensures Ascending(PushCandidate(s, h)) && |PushCandidate(s, h)| == |s| + 1
    ensures forall x :: x in PushCandidate(s, h) <==> x in s || x == h
  {
    hide SortByDistance, Ascending;
    var k := SortOfPushed(s, h);
  }

  /** A result list of at most ef hits stays sorted and duplicate-free, loses nothing while there is room,
      and keeps a head that is not farther than the old head or the new hit. */
  lemma PushResultFacts(s: seq<Hit>, h: Hit, ef: nat)
    requires Ascending(s) && DistinctIds(s) && h.id !in Ids(s) && |s| <= ef
    ensures var r := PushResult(s, h, ef);
            && Ascending(r) && DistinctIds(r)
            && |r| == (if |s| < ef then |s| + 1 else ef)
            && (forall x :: x in r ==> x in s || x == h)
            && (|s| < ef ==> h in r && forall x :: x in s ==> x in r)
            && (ef > 0 ==> r != [] && r[0].d <= h.d && (s != [] ==> r[0].d <= s[0].d))
  {
    hide SortByDistance, Ascending, DistinctIds;
    var k := SortOfPushed(s, h);
    SplitDistinct(s, h, k);
    var t := s[..k] + [h] + s[k..];
    PrefixFacts(t);
    assert s != [] ==> t[0] == if k == 0 then h else s[0];
  }

  /** A full result list drops the farthest of its hits and the new one. */
  lemma PushResultFull(s: seq<Hit>, h: Hit, ef: nat)
    requires Ascending(s) && |s| == ef > 0
    ensures var r := PushResult(s, h, ef);
            |r| == ef && r[ef - 1].d <= s[ef - 1].d
            && forall x :: (x in s || x == h) && x !in r ==> r[ef - 1].d <= x.d
  {
    hide SortByDistance, Ascending;
    var k := SortOfPushed(s, h);
    var t := s[..k] + [h] + s[k..];
    LastTwo(t);
    SpliceLast(s, h, k);
    DroppedIsLast(t);
  }

  lemma DroppedIsLast(t: seq<Hit>)
    requires t != []
    ensures forall x :: x in t && x !in t[..|t| - 1] ==> x == t[|t| - 1]
  {
    assert t == t[..|t| - 1] + [t[|t| - 1]];
  }

  lemma SpliceLast(s: seq<Hit>, h: Hit, k: nat)
    requires k <= |s| && s != []
    ensures var t := s[..k] + [h] + s[k..];
            (if k == |s| then t[|s| - 1] == s[|s| - 1] else t[|s|] == s[|s| - 1])
            && forall x :: x in t <==> x in s || x == h
  {
    assert s == s[..k] + s[k..];
  }

  lemma LastTwo(t: seq<Hit>)
    requires Ascending(t) && |t| >= 2
    ensures t[|t| - 2].d <= t[|t| - 1].d
  {
  }

  lemma PrefixFacts(t: seq<Hit>)
    requires Ascending(t) && DistinctIds(t) && t != []
    ensures Ascending(t[..|t| - 1]) && DistinctIds(t[..|t| - 1])
  {
  }

  lemma IdsOfPermutation(a: seq<Hit>, b: seq<Hit>)
    requires multiset(a) == multiset(b)
    ensures Ids(a) == Ids(b)
  {
    SameMembers(a, b);
  }

  lemma {:induction false} SortKeepsDistinct(s: seq<Hit>)
    requires DistinctIds(s)
    ensures DistinctIds(SortByDistance(s))
  {
    if s != [] {
      hide Insert;
      var u, h := s[..|s| - 1], s[|s| - 1];
      SortKeepsDistinct(u);
      SortByDistanceSorts(u);
      IdsOfPermutation(SortByDistance(u), u);
      var k := InsertHitSplits(SortByDistance(u), h);
      SplitDistinct(SortByDistance(u), h, k);
    }
  }

  lemma {:induction false} DistinctCount(s: seq<Hit>)
    requires DistinctIds(s)
    ensures |Ids(s)| == |s|
  {
    if s != [] {
      var t, last := s[..|s| - 1], s[|s| - 1];
      DistinctCount(t);
      assert s == t + [last];
      assert Ids(s) == Ids(t) + {last.id};
    }
  }

  /** In an ascending list without duplicates, a prefix holds as many ids as hits, none of them again
      behind it, and everything behind it is at least as far. */
  lemma PrefixIsNearest(s: seq<Hit>, n: nat)
    requires Ascending(s) && DistinctIds(s) && n <= |s|
    ensures Ids(s[..n]) <= Ids(s) && |Ids(s[..n])| == n
    ensures forall a, b :: a in s[..n] && b in s && b.id !in Ids(s[..n]) ==> a.d <= b.d
  {
    assert DistinctIds(s[..n]);
    DistinctCount(s[..n]);
    forall a, b | a in s[..n] && b in s && b.id !in Ids(s[..n]) ensures a.d <= b.d {
      var i :| 0 <= i < n && s[i] == a;
      var j :| 0 <= j < |s| && s[j] == b;
    }
  }
}
