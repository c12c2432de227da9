/** The HNSW-like vector index of src/core/DataStore.js, over any vectors and any real-valued distance. The
    random level, the order of a Set and ties in a sort are left open. */
module Hnsw {
  import opened Wrappers
  import opened HnswGraph

  class HnswIndex<Vec(!new)> {
    const dist: (Vec, Vec) -> real
    var m: nat
    var ef: nat
    var nodes: map<Id, Vertex<Vec>>
    var neighbors: Links
    var enterpoint: Option<Id>
    var maxLevel: int

    /** The entry point is a vertex of the highest level there is. */
    ghost predicate EntryOk()
      reads this
    {
      match enterpoint
      case None => nodes == map[] && maxLevel == -1
      case Some(ep) =>
        ep in nodes && maxLevel == nodes[ep].level && forall id :: id in nodes ==> nodes[id].level <= maxLevel
    }

    ghost predicate Valid()
      reads this
    {
      GraphOk(nodes, neighbors, m) && EntryOk()
    }

    constructor (dist: (Vec, Vec) -> real, m: nat, ef: nat)
      ensures Valid() && nodes == map[] && this.dist == dist && this.m == m && this.ef == ef
    {
      this.dist, this.m, this.ef := dist, m, ef;
      nodes, neighbors := map[], map[];
      enterpoint, maxLevel := None, -1;
      assert forall id, l: nat :: LinksAt(map[], id, l) == {};
    }

    ghost predicate Exact(q: Vec, s: seq<Hit>)
      reads this
    {
      forall h :: h in s ==> h.id in nodes && h.d == dist(q, nodes[h.id].vector)
    }

    /** The vertices nearer to q than `id`: what a greedy step shrinks. */
    ghost function Nearer(q: Vec, id: Id): set<Id>
      requires id in nodes
      reads this
    {
      set x | x in nodes.Keys && dist(q, nodes[x].vector) < dist(q, nodes[id].vector)
    }

    /** From `a` the walk goes on to the nearest of its links, if that is nearer to q. */
    ghost predicate StepsTo(q: Vec, level: nat, nb: Links, a: Id, b: Id)
      reads `nodes
    {
      && a in nodes && b in nodes && b in LinksAt(nb, a, level)
      && dist(q, nodes[b].vector) < dist(q, nodes[a].vector)
      && forall n :: n in LinksAt(nb, a, level) && n in nodes ==> dist(q, nodes[b].vector) <= dist(q, nodes[n].vector)
    }

    /** A walk of such steps, until none is left. */
    ghost predicate Steepest(q: Vec, level: nat, nb: Links, path: seq<Id>)
      reads `nodes
    {
      && path != [] && path[|path| - 1] in nodes
      && (forall i :: 0 <= i < |path| - 1 ==> StepsTo(q, level, nb, path[i], path[i + 1]))
      && forall n :: n in LinksAt(nb, path[|path| - 1], level) && n in nodes ==>
           dist(q, nodes[path[|path| - 1]].vector) <= dist(q, nodes[n].vector)
    }

    /** One such walk in each layer from `top` down to, but not including, `bottom` */
    ghost predicate Descends(q: Vec, nb: Links, from: Id, top: int, bottom: nat, to: Id)
      reads `nodes
      decreases top - bottom
    {
      if top <= bottom then from == to
      else exists path :: path != [] && Steepest(q, top, nb, path) && path[0] == from
                          && Descends(q, nb, path[|path| - 1], top - 1, bottom, to)
    }

    lemma SteepestSame(q: Vec, level: nat, nb: Links, nb': Links, path: seq<Id>)
      requires Steepest(q, level, nb, path) && forall x :: LinksAt(nb, x, level) == LinksAt(nb', x, level)
      ensures Steepest(q, level, nb', path)
    {
      hide LinksAt;
      forall i | 0 <= i < |path| - 1 ensures StepsTo(q, level, nb', path[i], path[i + 1]) {
        assert StepsTo(q, level, nb, path[i], path[i + 1]);
      }
    }

    lemma {:induction false} DescendsSame(q: Vec, nb: Links, nb': Links, from: Id, top: int, bottom: nat, to: Id)
      requires Descends(q, nb, from, top, bottom, to) && forall x, l: nat :: LinksAt(nb, x, l) == LinksAt(nb', x, l)
      ensures Descends(q, nb', from, top, bottom, to)
      decreases top - bottom
    {
      hide LinksAt, HnswIndex.Steepest;
      if top > bottom {
        var path :| path != [] && Steepest(q, top, nb, path) && path[0] == from
                    && Descends(q, nb, path[|path| - 1], top - 1, bottom, to);
        SteepestSame(q, top, nb, nb', path);
        DescendsSame(q, nb, nb', path[|path| - 1], top - 1, bottom, to);
      }
    }

    /** Descent in one layer goes steepest down and ends at a vertex reachable from the start, not farther than it,
        and at least as near as each of its own neighbours. */
    method GreedySearch(q: Vec, epId: Id, level: nat) returns (curr: Id, ghost path: seq<Id>)
      requires epId in nodes && LinksExist(nodes, neighbors)
      ensures curr in nodes && Reachable(neighbors, level, epId, curr)
      ensures dist(q, nodes[curr].vector) <= dist(q, nodes[epId].vector)
      ensures forall n :: n in LinksAt(neighbors, curr, level) ==>
                n in nodes && dist(q, nodes[curr].vector) <= dist(q, nodes[n].vector)
      ensures Steepest(q, level, neighbors, path) && path[0] == epId && path[|path| - 1] == curr
    {
      curr, path := epId, [epId];
      ReachableSelf(neighbors, level, epId);
      var improved := true;
      while improved
        invariant curr in nodes && Reachable(neighbors, level, epId, curr)
        invariant dist(q, nodes[curr].vector) <= dist(q, nodes[epId].vector)
        invariant improved || forall n :: n in LinksAt(neighbors, curr, level) ==>
                    n in nodes && dist(q, nodes[curr].vector) <= dist(q, nodes[n].vector)
        invariant path != [] && path[0] == epId && path[|path| - 1] == curr
        invariant forall i :: 0 <= i < |path| - 1 ==> StepsTo(q, level, neighbors, path[i], path[i + 1])
        decreases Nearer(q, curr), improved
      {
        improved := false;
        var nb := LinksAt(neighbors, curr, level);
        if nb == {} { break; }
        var best, bestDist := curr, dist(q, nodes[curr].vector);
        var todo := nb;
        while todo != {}
          invariant todo <= nb && best in nodes && bestDist == dist(q, nodes[best].vector)
          invariant if improved then best in nb && bestDist < dist(q, nodes[curr].vector) else best == curr
          invariant forall n :: n in nb && n !in todo ==> bestDist <= dist(q, nodes[n].vector)
          decreases todo
        {
          var n :| n in todo;
          todo := todo - {n};
          var d := dist(q, nodes[n].vector);
          if d < bestDist { bestDist, best, improved := d, n, true; }
        }
        if improved {
          ReachableStep(neighbors, level, epId, curr, best);
          assert best in Nearer(q, curr) && best !in Nearer(q, best);
          assert Nearer(q, best) <= Nearer(q, curr);
          assert StepsTo(q, level, neighbors, curr, best);
          path := path + [best];
        }
        curr := best;
      }
    }

    // ---------- search in one layer ----------

    /** What both loops of the search keep. `visited` holds only reachable vertices; the hits are visited
        vertices at their true distance; the best hit is nearest of all visited, and while at most ef
        vertices have been visited none is missing. */
    ghost predicate SearchOk(q: Vec, epId: Id, level: nat, ef: nat,
                             visited: set<Id>, results: seq<Hit>, candidates: seq<Hit>)
      reads this
    {
      && epId in visited && visited <= ReachSet(nodes, neighbors, level, epId)
      && Exact(q, results) && Exact(q, candidates) && Ids(results) <= visited && Ids(candidates) <= visited
      && Ascending(results) && Ascending(candidates) && DistinctIds(results) && |results| <= ef
      && (ef > 0 ==> results != [] && forall v :: v in visited ==> results[0].d <= dist(q, nodes[v].vector))
      && (|visited| <= ef ==> Ids(results) == visited)
    }

    /** Every visited vertex is still a candidate or has had all its neighbours visited. */
    ghost predicate Frontier(level: nat, visited: set<Id>, candidates: seq<Hit>, open: set<Id>)
      reads this
    {
      forall v :: v in visited ==> v in Ids(candidates) || v in open || LinksAt(neighbors, v, level) <= visited
    }

    /** The hits are the nearest of the visited vertices but for the missed ones, and as many as ef allows. */
    ghost predicate Kept(q: Vec, ef: nat, visited: set<Id>, results: seq<Hit>, missed: set<Id>)
      reads `nodes
    {
      && visited <= nodes.Keys && |results| == (if |visited| < ef then |visited| else ef)
      && missed <= visited && (|results| < ef ==> missed == {})
      && forall v :: v in visited && v !in Ids(results) && v !in missed ==>
           |results| == ef && (ef > 0 ==> results[ef - 1].d <= dist(q, nodes[v].vector))
    }

    /** A new vertex is missed if it is not pushed although it is nearer than the last hit. */
    ghost predicate Misses(results: seq<Hit>, ef: nat, d: real, worst: Option<real>) {
      !(|results| < ef || worst.None? || d < worst.value) && results != [] && d < results[|results| - 1].d
    }

    lemma PushKeepsKept(q: Vec, ef: nat, visited: set<Id>, results: seq<Hit>, missed: set<Id>, n: Id,
                        worst: Option<real>)
      requires Kept(q, ef, visited, results, missed) && Exact(q, results) && Ascending(results) && DistinctIds(results)
      requires Ids(results) <= visited && n in nodes && n !in visited
      requires worst.None? ==> results == [] || |results| < ef
      ensures var h := Hit(n, dist(q, nodes[n].vector));
              var r := if |results| < ef || worst.None? || h.d < worst.value
                       then PushResult(results, h, ef) else results;
              Kept(q, ef, visited + {n}, r, missed + if Misses(results, ef, h.d, worst) then {n} else {})
              && (|results| == ef > 0 ==> |r| == ef && r[ef - 1].d <= results[ef - 1].d)
    {
      hide PushResult, Ascending, DistinctIds, HnswIndex.Kept;
      KeptMeans(q, ef, visited, results, missed);
      if |results| < ef {
        PushWithRoom(q, ef, visited, results, missed, n);
      } else if worst.None? || dist(q, nodes[n].vector) < worst.value {
        PushWhenFull(q, ef, visited, results, missed, n);
      } else {
        NoPush(q, ef, visited, results, missed, n);
      }
    }

    lemma PushWithRoom(q: Vec, ef: nat, visited: set<Id>, results: seq<Hit>, missed: set<Id>, n: Id)
      requires Kept(q, ef, visited, results, missed) && Ascending(results) && DistinctIds(results)
      requires Ids(results) <= visited && n in nodes && n !in visited && |results| < ef
      ensures Kept(q, ef, visited + {n}, PushResult(results, Hit(n, dist(q, nodes[n].vector)), ef), missed)
    {
      hide PushResult, Ascending, DistinctIds;
      var h := Hit(n, dist(q, nodes[n].vector));
      assert |visited + {n}| == |visited| + 1;
      PushResultFacts(results, h, ef);
      var r := PushResult(results, h, ef);
      assert h in r && h.id in Ids(r);
      forall v | v in Ids(results) ensures v in Ids(r) {
        var x :| x in results && x.id == v;
        assert x in r;
      }
    }

    lemma PushWhenFull(q: Vec, ef: nat, visited: set<Id>, results: seq<Hit>, missed: set<Id>, n: Id)
      requires Kept(q, ef, visited, results, missed) && Exact(q, results) && Ascending(results) && DistinctIds(results)
      requires Ids(results) <= visited && n in nodes && n !in visited && |results| == ef
      ensures var r := PushResult(results, Hit(n, dist(q, nodes[n].vector)), ef);
              Kept(q, ef, visited + {n}, r, missed) && |r| == ef && (ef > 0 ==> r[ef - 1].d <= results[ef - 1].d)
    {
      hide PushResult, Ascending, DistinctIds;
      var h := Hit(n, dist(q, nodes[n].vector));
      PushResultFacts(results, h, ef);
      SubsetSize(visited, visited + {n});
      var r := PushResult(results, h, ef);
      if ef > 0 {
        PushResultFull(results, h, ef);
        forall v | v in visited + {n} && v !in Ids(r) && v !in missed ensures r[ef - 1].d <= dist(q, nodes[v].vector) {
          if v in Ids(results) {
            var x :| x in results && x.id == v;
            assert x !in r;
          } else if v == n {
            assert h !in r;
          }
        }
      }
    }

    lemma NoPush(q: Vec, ef: nat, visited: set<Id>, results: seq<Hit>, missed: set<Id>, n: Id)
      requires Kept(q, ef, visited, results, missed) && n in nodes && n !in visited && |results| == ef
      ensures var d := dist(q, nodes[n].vector);
              Kept(q, ef, visited + {n}, results, missed + if ef > 0 && d < results[ef - 1].d then {n} else {})
    {
      SubsetSize(visited, visited + {n});
    }

    lemma PushKeepsSearchOk(q: Vec, epId: Id, level: nat, ef: nat, visited: set<Id>, results: seq<Hit>,
                            candidates: seq<Hit>, n: Id, worst: Option<real>)
      requires SearchOk(q, epId, level, ef, visited, results, candidates)
      requires n in ReachSet(nodes, neighbors, level, epId) && n in nodes && n !in visited
      requires worst.Some? && ef > 0 ==> results[0].d <= worst.value
      ensures var h := Hit(n, dist(q, nodes[n].vector));
              var r := if |results| < ef || worst.None? || h.d < worst.value
                       then PushResult(results, h, ef) else results;
              SearchOk(q, epId, level, ef, visited + {n}, r, PushCandidate(candidates, h))
              && (ef > 0 ==> r != [] && r[0].d <= results[0].d)
    {
      hide ReachSet, PushResult, PushCandidate, Ascending, DistinctIds;
      var h := Hit(n, dist(q, nodes[n].vector));
      PushCandidateFacts(candidates, h);
      PushResultFacts(results, h, ef);
      assert |visited + {n}| == |visited| + 1;
      if |visited + {n}| <= ef {
        DistinctCount(results);
        assert |Ids(results)| == |visited|;
        assert |results| < ef;
        var r := PushResult(results, h, ef);
        assert Ids(r) == visited + {n} by {
          assert h in r && h.id in Ids(r);
          forall v | v in visited ensures v in Ids(r) {
            var x :| x in results && x.id == v;
            assert x in r;
          }
        }
      }
    }

    lemma ReachNeighbour(q: Vec, epId: Id, level: nat, ef: nat, visited: set<Id>, results: seq<Hit>,
                         candidates: seq<Hit>, cid: Id, n: Id)
      requires SearchOk(q, epId, level, ef, visited, results, candidates) && cid in visited
      requires LinksExist(nodes, neighbors) && n in LinksAt(neighbors, cid, level)
      ensures n in ReachSet(nodes, neighbors, level, epId) && n in nodes && Ascending(candidates)
    {
      ReachableStep(neighbors, level, epId, cid, n);
    }

    lemma PushKeepsFrontier(level: nat, visited: set<Id>, candidates: seq<Hit>, open: set<Id>, n: Id, d: real)
      requires Frontier(level, visited, candidates, open) && Ascending(candidates)
      ensures Frontier(level, visited + {n}, PushCandidate(candidates, Hit(n, d)), open)
    {
      hide PushCandidate;
      var pushed := PushCandidate(candidates, Hit(n, d));
      PushCandidateFacts(candidates, Hit(n, d));
      assert Hit(n, d) in pushed && Hit(n, d).id in Ids(pushed);
      forall v | v in Ids(candidates) ensures v in Ids(pushed) {
        var h :| h in candidates && h.id == v;
        assert h in pushed;
      }
    }

    /** One unvisited neighbour. */
    lemma ExpandOne(q: Vec, epId: Id, level: nat, ef: nat, visited: set<Id>, results: seq<Hit>, candidates: seq<Hit>,
                    missed: set<Id>, cid: Id, n: Id, worst: Option<real>)
      requires LinksExist(nodes, neighbors) && cid in visited && n in LinksAt(neighbors, cid, level) && n !in visited
      requires SearchOk(q, epId, level, ef, visited, results, candidates) && Kept(q, ef, visited, results, missed)
      requires Frontier(level, visited, candidates, {cid})
      requires (worst.Some? && ef > 0 ==> results[0].d <= worst.value) && (worst.None? ==> ef == 0)
      ensures n in nodes
      ensures var h := Hit(n, dist(q, nodes[n].vector));
              var r := if |results| < ef || worst.None? || h.d < worst.value
                       then PushResult(results, h, ef) else results;
              SearchOk(q, epId, level, ef, visited + {n}, r, PushCandidate(candidates, h))
              && Frontier(level, visited + {n}, PushCandidate(candidates, h), {cid})
              && Kept(q, ef, visited + {n}, r, missed + if Misses(results, ef, h.d, worst) then {n} else {})
              && (ef > 0 ==> r != [] && r[0].d <= results[0].d)
              && (|results| == ef ==> |r| == ef && (ef > 0 ==> r[ef - 1].d <= results[ef - 1].d))
    {
      hide HnswIndex.SearchOk, ReachSet, PushResult, PushCandidate, HnswIndex.Kept, HnswIndex.Frontier, Ascending,
        DistinctIds, HnswIndex.Misses;
      ReachNeighbour(q, epId, level, ef, visited, results, candidates, cid, n);
      PushKeepsSearchOk(q, epId, level, ef, visited, results, candidates, n, worst);
      PushKeepsFrontier(level, visited, candidates, {cid}, n, dist(q, nodes[n].vector));
      SearchOkMeans(q, epId, level, ef, visited, results, candidates);
      KeptMeans(q, ef, visited, results, missed);
      PushKeepsKept(q, ef, visited, results, missed, n, worst);
      var h := Hit(n, dist(q, nodes[n].vector));
      var r := if |results| < ef || worst.None? || h.d < worst.value then PushResult(results, h, ef) else results;
      KeptMeans(q, ef, visited + {n}, r, missed + if Misses(results, ef, h.d, worst) then {n} else {});
    }

    lemma CloseFrontier(level: nat, visited: set<Id>, candidates: seq<Hit>, cid: Id)
      requires Frontier(level, visited, candidates, {cid}) && LinksAt(neighbors, cid, level) <= visited
      ensures Frontier(level, visited, candidates, {})
    {
    }

    /** A vertex that is no nearer than what the results keep is not missed. */
    lemma NotMissed(results: seq<Hit>, ef: nat, d: real, worst: Option<real>)
      requires |results| == ef && (ef > 0 ==> worst.Some? && results[ef - 1].d <= worst.value)
      ensures !Misses(results, ef, d, worst)
    {
    }

    /** The inner loop: all unvisited neighbours of the candidate become visited. `worst` is the last
        result's distance before the loop (None for Infinity) and is not updated inside it. */
    method ExpandCandidate(q: Vec, ghost epId: Id, level: nat, ef: nat, cid: Id, worst: Option<real>,
                           visited: set<Id>, results: seq<Hit>, candidates: seq<Hit>, ghost missed: set<Id>)
      returns (visited': set<Id>, results': seq<Hit>, candidates': seq<Hit>, ghost missed': set<Id>)
      requires LinksExist(nodes, neighbors)
      requires SearchOk(q, epId, level, ef, visited, results, candidates) && cid in visited
      requires worst.Some? && ef > 0 ==> results[0].d <= worst.value
      requires worst == if results == [] then None else Some(results[|results| - 1].d)
      requires Frontier(level, visited, candidates, {cid}) && Kept(q, ef, visited, results, missed)
      ensures Kept(q, ef, visited', results', missed')
      ensures if |results| < ef then missed' <= LinksAt(neighbors, cid, level) else missed' == missed
      ensures SearchOk(q, epId, level, ef, visited', results', candidates')
      ensures Frontier(level, visited', candidates', {})
      ensures visited <= visited' && (visited == visited' ==> candidates' == candidates)
    {
      hide HnswIndex.SearchOk, ReachSet, PushResult, HnswIndex.Kept, HnswIndex.Frontier, HnswIndex.Misses,
        PushCandidate;
      visited', results', candidates', missed' := visited, results, candidates, missed;
      KeptMeans(q, ef, visited, results, missed);
      SearchOkMeans(q, epId, level, ef, visited, results, candidates);
      var nb := LinksAt(neighbors, cid, level);
      var todo := nb;
      while todo != {}
        invariant todo <= nb && visited <= visited' && nb - todo <= visited'
        invariant SearchOk(q, epId, level, ef, visited', results', candidates')
        invariant Frontier(level, visited', candidates', {cid})
        invariant worst.Some? && ef > 0 ==> results' != [] && results'[0].d <= worst.value
        invariant visited == visited' ==> candidates' == candidates
        invariant Kept(q, ef, visited', results', missed') && (worst.None? ==> ef == 0)
        invariant |results| < ef ==> missed' <= nb
        invariant |results| == ef ==>
                    missed' == missed && |results'| == ef && (ef > 0 ==> results'[ef - 1].d <= worst.value)
        decreases todo
      {
        var n :| n in todo;
        todo := todo - {n};
        if n in visited' { continue; }
        var d := dist(q, nodes[n].vector);
        ExpandOne(q, epId, level, ef, visited', results', candidates', missed', cid, n, worst);
        if |results| == ef { NotMissed(results', ef, d, worst); }
        missed' := missed' + if Misses(results', ef, d, worst) then {n} else {};
        visited' := visited' + {n};
        candidates' := PushCandidate(candidates', Hit(n, d));
        if |results'| < ef || worst.None? || d < worst.value {
          results' := PushResult(results', Hit(n, d), ef);
        }
      }
      CloseFrontier(level, visited', candidates', cid);
    }

    lemma KeptMeans(q: Vec, ef: nat, visited: set<Id>, results: seq<Hit>, missed: set<Id>)
      requires Kept(q, ef, visited, results, missed)
      ensures |results| == (if |visited| < ef then |visited| else ef) && (|results| < ef ==> missed == {})
    {
    }

    lemma StartOk(q: Vec, epId: Id, level: nat, ef: nat)
      requires epId in nodes
      ensures var h := Hit(epId, dist(q, nodes[epId].vector));
              SearchOk(q, epId, level, ef, {epId}, PushResult([], h, ef), PushCandidate([], h))
              && Frontier(level, {epId}, PushCandidate([], h), {})
              && Kept(q, ef, {epId}, PushResult([], h, ef), {})
    {
      hide Reachable, PushResult, PushCandidate;
      var h := Hit(epId, dist(q, nodes[epId].vector));
      ReachableSelf(neighbors, level, epId);
      assert Ids([h]) == {epId};
      PushFirst(h, ef);
    }

    lemma ShiftOk(q: Vec, epId: Id, level: nat, ef: nat, visited: set<Id>, results: seq<Hit>, candidates: seq<Hit>)
      requires SearchOk(q, epId, level, ef, visited, results, candidates) && candidates != []
      requires Frontier(level, visited, candidates, {})
      ensures candidates[0].id in visited
      ensures SearchOk(q, epId, level, ef, visited, results, candidates[1..])
      ensures Frontier(level, visited, candidates[1..], {candidates[0].id})
      ensures ef > 0 ==> results != [] && results[0].d <= results[|results| - 1].d
    {
    }

    /** What is promised of the finished search, beyond SearchOk. */
    ghost predicate Complete(level: nat, ef: nat, epId: Id, visited: set<Id>, results: seq<Hit>)
      reads this
    {
      && (ef > 0 && results != [] ==> LinksAt(neighbors, results[0].id, level) <= visited)
      && (|ReachSet(nodes, neighbors, level, epId)| <= ef ==> Ids(results) == ReachSet(nodes, neighbors, level, epId))
    }

    /** The neighbours of every visited vertex have been visited too, unless it is farther than ef hits. */
    ghost predicate Explored(q: Vec, level: nat, ef: nat, nb: Links, visited: set<Id>, results: seq<Hit>)
      reads `nodes
    {
      forall v :: v in visited && v in nodes ==>
        LinksAt(nb, v, level) <= visited
        || (|results| == ef > 0 && results[ef - 1].d < dist(q, nodes[v].vector))
    }

    /** Stopping early: the head is nearer than every candidate left, so it has been expanded already. */
    lemma BreakIsSafe(q: Vec, epId: Id, level: nat, ef: nat, visited: set<Id>, results: seq<Hit>, candidates: seq<Hit>)
      requires SearchOk(q, epId, level, ef, visited, results, candidates)
      requires Frontier(level, visited, candidates, {})
      requires candidates != [] && results != [] && candidates[0].d > results[|results| - 1].d && |results| >= ef
      ensures Complete(level, ef, epId, visited, results)
      ensures Explored(q, level, ef, neighbors, visited, results)
    {
      hide ReachSet;
      CutIsExplored(q, epId, level, ef, visited, results, candidates);
      var head := results[0];
      assert head in results && head.id in Ids(results);
      assert forall i :: 0 <= i < |candidates| ==> candidates[i] in candidates && head.d < candidates[i].d;
      assert head.id !in Ids(candidates);
      var reach := ReachSet(nodes, neighbors, level, epId);
      if |reach| <= ef {
        SubsetSize(visited, reach);
        DistinctCount(results);
        SubsetFull(visited, reach);
      }
    }

    lemma CutIsExplored(q: Vec, epId: Id, level: nat, ef: nat, visited: set<Id>, results: seq<Hit>,
                        candidates: seq<Hit>)
      requires SearchOk(q, epId, level, ef, visited, results, candidates)
      requires Frontier(level, visited, candidates, {})
      requires candidates != [] && results != [] && candidates[0].d > results[|results| - 1].d && |results| >= ef
      ensures Explored(q, level, ef, neighbors, visited, results)
    {
      hide ReachSet, LinksAt;
      forall v | v in visited && v in Ids(candidates)
        ensures v in nodes && results[ef - 1].d < dist(q, nodes[v].vector)
      {
        var h :| h in candidates && h.id == v;
        var i :| 0 <= i < |candidates| && candidates[i] == h;
      }
    }

    /** Running out of candidates: the visited set is closed under links, so it is everything reachable. */
    lemma FinishedIsComplete(q: Vec, epId: Id, level: nat, ef: nat, visited: set<Id>, results: seq<Hit>)
      requires SearchOk(q, epId, level, ef, visited, results, []) && Frontier(level, visited, [], {})
      ensures Complete(level, ef, epId, visited, results) && Explored(q, level, ef, neighbors, visited, results)
    {
      hide Reachable;
      assert forall h :: h in results ==> h.id in Ids(results);
      var reach := ReachSet(nodes, neighbors, level, epId);
      forall x | x in reach ensures x in visited {
        ClosedHoldsReachable(neighbors, level, visited, epId, x);
      }
      assert visited == reach;
    }

    /** A finished search of a layer: distinct vertices in ascending distance, the nearest of those visited but for the
        missed ones, which were all found together as neighbours of one vertex; every vertex visited is reachable,
        and its neighbours have been visited unless it is farther than ef hits. The head is nearest of all. */
    ghost predicate Searched(q: Vec, epId: Id, level: nat, ef: nat, nb: Links, results: seq<Hit>, visited: set<Id>,
                             missed: set<Id>)
      reads `nodes
    {
      && Ascending(results) && DistinctIds(results)
      && (forall h :: h in results ==> h.id in nodes && h.d == dist(q, nodes[h.id].vector))
      && epId in visited && Ids(results) <= visited <= ReachSet(nodes, nb, level, epId)
      && Kept(q, ef, visited, results, missed)
      && (exists c :: missed <= LinksAt(nb, c, level))
      && (ef > 0 ==> results != [] && forall v :: v in visited ==> results[0].d <= dist(q, nodes[v].vector))
      && Explored(q, level, ef, nb, visited, results)
      && (|ReachSet(nodes, nb, level, epId)| <= ef ==> Ids(results) == ReachSet(nodes, nb, level, epId))
    }

    /** STALE BOUND. The hits are nearest of all visited vertices if and only if no missed one is nearer than the last
        hit. */
    lemma NearestVisitedIff(q: Vec, epId: Id, level: nat, ef: nat, nb: Links, results: seq<Hit>, visited: set<Id>,
                            missed: set<Id>)
      requires Searched(q, epId, level, ef, nb, results, visited, missed) && ef > 0
      ensures (forall k, v :: k in Ids(results) && v in visited - Ids(results) ==>
                 k in nodes && v in nodes && dist(q, nodes[k].vector) <= dist(q, nodes[v].vector))
         <==> forall v :: v in missed && v !in Ids(results) ==>
                v in nodes && results != [] && results[|results| - 1].d <= dist(q, nodes[v].vector)
    {
      hide ReachSet, LinksAt, HnswIndex.Explored;
      var n := |results| - 1;
      var last := results[n];
      assert last in results && last.id in Ids(results);
      forall k | k in Ids(results) ensures k in nodes && dist(q, nodes[k].vector) <= last.d {
        var h :| h in results && h.id == k;
        var i :| 0 <= i < |results| && results[i] == h;
      }
    }

    /** Such a vertex exists: with room for two hits and one at distance 1, two neighbours at 10 and 5 are found in this
        order, and the second is not taken, because the bound is still 1. */
    lemma StaleBoundMisses(a: Id, b: Id)
      ensures var r := PushResult([Hit(a, 1.0)], Hit(b, 10.0), 2);
              r == [Hit(a, 1.0), Hit(b, 10.0)] && Misses(r, 2, 5.0, Some(1.0))
    {
      hide PushResult;
      PushTwo(Hit(a, 1.0), Hit(b, 10.0));
    }

    lemma PushTwo(x: Hit, y: Hit)
      requires x.d < y.d
      ensures PushResult([x], y, 2) == [x, y]
    {
      hide SortByDistance;
      assert [x] + [y] == [x, y];
      SortByDistanceSorts([x, y]);
    }

    lemma SearchedSame(q: Vec, epId: Id, level: nat, ef: nat, nb: Links, nb': Links, results: seq<Hit>,
                       visited: set<Id>, missed: set<Id>)
      requires Searched(q, epId, level, ef, nb, results, visited, missed)
      requires forall x :: LinksAt(nb, x, level) == LinksAt(nb', x, level)
      ensures Searched(q, epId, level, ef, nb', results, visited, missed)
    {
      hide LinksAt, ReachSet, HnswIndex.Kept, Ascending, DistinctIds;
      SameLayerSameReach(nodes, nb, nb', level, epId);
      var c :| missed <= LinksAt(nb, c, level);
      assert missed <= LinksAt(nb', c, level);
    }

    /** At most `ef` distinct vertices in ascending distance, all reachable in the layer. The head is nearest
        of every vertex visited, so at least as near as the start and as each of its own neighbours. With
        ef at least the number of reachable vertices the result is all of them. */
    method SearchLayer(q: Vec, epId: Id, level: nat, ef: nat)
      returns (results: seq<Hit>, ghost visited: set<Id>, ghost missed: set<Id>)
      requires epId in nodes && LinksExist(nodes, neighbors)
      ensures Searched(q, epId, level, ef, neighbors, results, visited, missed)
      ensures |results| <= ef && Ascending(results) && DistinctIds(results) && Exact(q, results)
      ensures epId in visited && Ids(results) <= visited <= ReachSet(nodes, neighbors, level, epId)
      ensures ef > 0 ==> results != [] && forall v :: v in visited ==> results[0].d <= dist(q, nodes[v].vector)
      ensures ef > 0 ==> LinksAt(neighbors, results[0].id, level) <= visited
      ensures |ReachSet(nodes, neighbors, level, epId)| <= ef
              ==> Ids(results) == ReachSet(nodes, neighbors, level, epId)
    {
      hide ReachSet, PushResult, PushCandidate, HnswIndex.SearchOk, HnswIndex.Kept, HnswIndex.Explored;
      var seen := {epId};
      missed := {};
      ghost var filler := epId;
      var epDist := dist(q, nodes[epId].vector);
      results := PushResult([], Hit(epId, epDist), ef);
      var candidates := PushCandidate([], Hit(epId, epDist));
      StartOk(q, epId, level, ef);
      while candidates != []
        invariant SearchOk(q, epId, level, ef, seen, results, candidates)
        invariant Frontier(level, seen, candidates, {})
        invariant Kept(q, ef, seen, results, missed) && missed <= LinksAt(neighbors, filler, level)
        decreases nodes.Keys - seen, |candidates|
      {
        var cid, cd := candidates[0].id, candidates[0].d;
        ghost var before := seen;
        if results != [] && cd > results[|results| - 1].d && |results| >= ef {
          BreakIsSafe(q, epId, level, ef, seen, results, candidates);
          break;
        }
        var worst := if results == [] then None else Some(results[|results| - 1].d);
        ShiftOk(q, epId, level, ef, seen, results, candidates);
        candidates := candidates[1..];
        KeptMeans(q, ef, seen, results, missed);
        if |results| < ef { filler := cid; }
        seen, results, candidates, missed :=
          ExpandCandidate(q, epId, level, ef, cid, worst, seen, results, candidates, missed);
        SearchOkMeans(q, epId, level, ef, seen, results, candidates);
      }
      if candidates == [] { FinishedIsComplete(q, epId, level, ef, seen, results); }
      visited := seen;
      SearchOkMeans(q, epId, level, ef, seen, results, candidates);
    }

    lemma SearchOkMeans(q: Vec, epId: Id, level: nat, ef: nat, visited: set<Id>, results: seq<Hit>,
        candidates: seq<Hit>)
      requires SearchOk(q, epId, level, ef, visited, results, candidates)
      ensures visited <= nodes.Keys
      ensures |results| <= ef && Ascending(results) && DistinctIds(results) && Exact(q, results)
      ensures epId in visited && Ids(results) <= visited <= ReachSet(nodes, neighbors, level, epId)
      ensures ef > 0 ==> results != [] && forall v :: v in visited ==> results[0].d <= dist(q, nodes[v].vector)
    {
    }

    // ---------- building the graph ----------

    method HitsOf(center: Vec, s: set<Id>) returns (arr: seq<Hit>)
      requires s <= nodes.Keys
      ensures Ids(arr) == s && DistinctIds(arr)
      ensures forall h :: h in arr ==> h.id in s && h.d == dist(center, nodes[h.id].vector)
    {
      arr := [];
      var todo := s;
      while todo != {}
        invariant todo <= s && Ids(arr) == s - todo && DistinctIds(arr)
        invariant forall h :: h in arr ==> h.id in s && h.d == dist(center, nodes[h.id].vector)
        decreases todo
      {
        var n :| n in todo;
        todo := todo - {n};
        var h := Hit(n, dist(center, nodes[n].vector));
        assert forall x :: x in arr ==> x.id in Ids(arr);
        assert Ids(arr + [h]) == Ids(arr) + {n} by {
          assert forall x :: x in arr + [h] <==> x in arr || x == h;
        }
        arr := arr + [h];
      }
    }

    /** `keep` are the m members of `s` nearest to `center`, or all of them if there are no more than m. */
    ghost predicate KeepsNearest(center: Vec, s: set<Id>, keep: set<Id>)
      reads `nodes, `m
    {
      && keep <= s <= nodes.Keys && |keep| == (if |s| <= m then |s| else m)
      && forall k, x :: k in keep && x in s - keep ==> dist(center, nodes[k].vector) <= dist(center, nodes[x].vector)
    }

    /** What linking `id` at a level does to the other vertices: those it is now linked to have gained the link
        back and kept their nearest, the rest are untouched. */
    ghost predicate LinkedBack(id: Id, level: nat, before: Links, after: Links)
      reads `nodes, `m
    {
      forall x :: x in nodes && x != id ==>
        if x in LinksAt(after, id, level)
        then KeepsNearest(nodes[x].vector, LinksAt(before, x, level) + {id}, LinksAt(after, x, level))
        else LinksAt(after, x, level) == LinksAt(before, x, level)
    }

    /** Ties are broken arbitrarily. */
    method NearestOf(center: Vec, s: set<Id>) returns (keep: set<Id>)
      requires s <= nodes.Keys
      ensures KeepsNearest(center, s, keep)
    {
      hide SortByDistance;
      var arr := HitsOf(center, s);
      var sorted := SortByDistance(arr);
      SortByDistanceSorts(arr);
      SortKeepsDistinct(arr);
      IdsOfPermutation(sorted, arr);
      DistinctCount(sorted);
      var first := if |sorted| <= m then sorted else sorted[..m];
      keep := Ids(first);
      PrefixIsNearest(sorted, |first|);
      assert sorted[..|first|] == first;
      forall k, x | k in keep && x in s - keep
        ensures dist(center, nodes[k].vector) <= dist(center, nodes[x].vector)
      {
        var hk :| hk in first && hk.id == k;
        var hx :| hx in sorted && hx.id == x;
        assert hk in multiset(sorted) && hx in multiset(sorted);
      }
    }

    ghost predicate Selectable(id: Id, level: nat, selected: seq<Hit>)
      reads this
    {
      DistinctIds(selected) && |selected| <= m
      && forall h :: h in selected ==> h.id in nodes && h.id != id && level <= nodes[h.id].level
    }

    /** Links `id` with the selected vertices in both directions and cuts each of them back to its m nearest;
        only this level changes, and `id` itself ends with exactly the selected links. */
    method ConnectNeighbors(id: Id, vec: Vec, selected: seq<Hit>, level: nat)
      requires GraphOk(nodes, neighbors, m) && id in nodes && level <= nodes[id].level
      requires LinksAt(neighbors, id, level) == {} && Selectable(id, level, selected)
      modifies `neighbors
      ensures GraphOk(nodes, neighbors, m)
      ensures LinksAt(neighbors, id, level) == Ids(selected) && LinkedBack(id, level, old(neighbors), neighbors)
      ensures forall x, l: nat :: l != level ==> LinksAt(neighbors, x, l) == old(LinksAt(neighbors, x, l))
    {
      hide GraphOk, LinksAt, SetLinks, HnswIndex.KeepsNearest, HnswIndex.LinkedBack;
      NothingLinkedBack(id, level);
      for i := 0 to |selected|
        invariant GraphOk(nodes, neighbors, m)
        invariant LinksAt(neighbors, id, level) == Ids(selected[..i])
                    && LinkedBack(id, level, old(neighbors), neighbors)
        invariant forall x, l: nat :: l != level ==> LinksAt(neighbors, x, l) == old(LinksAt(neighbors, x, l))
      {
        var nid := selected[i].id;
        assert selected[i] in selected;
        NextSelected(id, level, selected, i);
        ghost var before := neighbors;
        AddLink(id, level, nid);
        AddBackLink(nid, level, id);
        OneLinkedBack(id, level, nid, old(neighbors), before, neighbors);
      }
      assert selected[..|selected|] == selected;
      if |LinksAt(neighbors, id, level)| > m {
        DistinctCount(selected);
        assert false;
      }
    }

    lemma NothingLinkedBack(id: Id, level: nat)
      requires LinksAt(neighbors, id, level) == {}
      ensures LinkedBack(id, level, neighbors, neighbors)
    {
    }

    lemma OneLinkedBack(id: Id, level: nat, nid: Id, start: Links, before: Links, after: Links)
      requires LinkedBack(id, level, start, before) && nid in nodes && nid != id && nid !in LinksAt(before, id, level)
      requires LinksAt(after, id, level) == LinksAt(before, id, level) + {nid}
      requires KeepsNearest(nodes[nid].vector, LinksAt(before, nid, level) + {id}, LinksAt(after, nid, level))
      requires forall x :: x != id && x != nid ==> LinksAt(after, x, level) == LinksAt(before, x, level)
      ensures LinkedBack(id, level, start, after)
    {
      hide LinksAt, HnswIndex.KeepsNearest;
    }

    /** Whether a level is linked back depends on that level alone. */
    lemma OtherLevelsLinkedBack(id: Id, level: nat, start: Links, before: Links, after: Links)
      requires LinkedBack(id, level, before, after)
      requires forall x :: LinksAt(before, x, level) == LinksAt(start, x, level)
      requires forall x, l: nat :: l != level ==> LinksAt(after, x, l) == LinksAt(before, x, l)
      ensures LinkedBack(id, level, start, after)
      ensures forall l: nat :: l != level && LinkedBack(id, l, start, before) ==> LinkedBack(id, l, start, after)
    {
      hide LinksAt, HnswIndex.KeepsNearest;
    }

    lemma UntouchedHere(id: Id, level: nat)
      requires Untouched(id, level)
      ensures forall l: nat :: l <= level ==> LinksAt(neighbors, id, l) == {}
      ensures forall l: nat, x :: l <= level ==> id !in LinksAt(neighbors, x, l)
    {
    }

    lemma StillUntouched(id: Id, level: nat, before: Links)
      requires forall x, l: nat :: l != level ==> LinksAt(neighbors, x, l) == LinksAt(before, x, l)
      requires forall l: nat :: l <= level ==> LinksAt(before, id, l) == {}
      requires forall l: nat, x :: l <= level ==> id !in LinksAt(before, x, l)
      ensures Untouched(id, level - 1)
    {
    }

    lemma NextSelected(id: Id, level: nat, selected: seq<Hit>, i: nat)
      requires Selectable(id, level, selected) && i < |selected|
      ensures Ids(selected[..i + 1]) == Ids(selected[..i]) + {selected[i].id} && |Ids(selected[..i + 1])| <= m
      ensures selected[i].id !in Ids(selected[..i])
    {
      assert selected[..i + 1] == selected[..i] + [selected[i]];
      DistinctCount(selected[..i + 1]);
    }

    method AddLink(id: Id, level: nat, nid: Id)
      requires GraphOk(nodes, neighbors, m) && id in nodes && level <= nodes[id].level
      requires nid in nodes && nid != id && level <= nodes[nid].level
      requires |LinksAt(neighbors, id, level) + {nid}| <= m
      modifies `neighbors
      ensures GraphOk(nodes, neighbors, m)
      ensures forall x, l: nat :: LinksAt(neighbors, x, l) ==
                if x == id && l == level then old(LinksAt(neighbors, x, l)) + {nid} else old(LinksAt(neighbors, x, l))
    {
      var s := LinksAt(neighbors, id, level) + {nid};
      SetLinksOk(nodes, neighbors, m, id, level, s);
      SetLinksAt(neighbors, id, level, s);
      neighbors := SetLinks(neighbors, id, level, s);
    }

    /** The symmetric link, and the pruning of the other vertex. */
    method AddBackLink(nid: Id, level: nat, id: Id)
      requires GraphOk(nodes, neighbors, m) && nid in nodes && level <= nodes[nid].level
      requires id in nodes && nid != id && level <= nodes[id].level
      modifies `neighbors
      ensures GraphOk(nodes, neighbors, m)
      ensures KeepsNearest(nodes[nid].vector, old(LinksAt(neighbors, nid, level)) + {id},
                  LinksAt(neighbors, nid, level))
      ensures forall x, l: nat :: x != nid || l != level ==> LinksAt(neighbors, x, l) == old(LinksAt(neighbors, x, l))
    {
      var nset := LinksAt(neighbors, nid, level) + {id};
      if |nset| > m { nset := NearestOf(nodes[nid].vector, nset); }
      SetLinksOk(nodes, neighbors, m, nid, level, nset);
      SetLinksAt(neighbors, nid, level, nset);
      neighbors := SetLinks(neighbors, nid, level, nset);
    }

    method RandomLevel() returns (level: nat)
      ensures level <= 16
    {
      level := 0;
      while true
        invariant level <= 16
        decreases 16 - level
      {
        var below: bool := *;
        if !below || level >= 16 { break; }
        level := level + 1;
      }
    }

    /** No link at this level or below touches `id`. */
    ghost predicate Untouched(id: Id, level: int)
      reads this
    {
      && (forall l: nat :: l <= level ==> LinksAt(neighbors, id, l) == {})
      && (forall l: nat, x :: l <= level ==> id !in LinksAt(neighbors, x, l))
    }

    /** Greedy descent from the top layer to the first one the new vertex `id` is part of. */
    method DescendTo(vec: Vec, start: Id, top: nat, level: nat, id: Id) returns (ep: Id, l: nat)
      requires GraphOk(nodes, neighbors, m) && Untouched(id, top)
      requires start in nodes && start != id && top == nodes[start].level
      ensures ep in nodes && ep != id && l <= nodes[ep].level
      ensures l == if level < top then level else top
      ensures Descends(vec, neighbors, start, top, level, ep)
    {
      hide GraphOk, LinksAt, Reachable, HnswIndex.Steepest;
      GraphLinksExist(nodes, neighbors, m);
      ep, l := start, top;
      while l > level
        invariant ep in nodes && ep != id && l <= nodes[ep].level
        invariant if level < top then level <= l <= top else l == top
        invariant forall x :: Descends(vec, neighbors, ep, l, level, x) ==>
                    Descends(vec, neighbors, start, top, level, x)
      {
        var next, _ := GreedySearch(vec, ep, l);
        WalkStaysInLayer(nodes, neighbors, m, l, ep, next);
        WalkAvoids(neighbors, l, ep, next, id);
        ep := next;
        l := l - 1;
      }
    }

    /** A fresh vertex, at any random level, keeps the graph and its entry point good; where it joins
        existing layers it is linked to at least one vertex. */
    method Insert(id: Id, vec: Vec) returns (ghost start: Option<Id>)
      requires Valid() && id !in nodes
      modifies this
      ensures id in nodes && nodes[id].level <= 16
      ensures enterpoint == (if old(enterpoint) == None || nodes[id].level > old(maxLevel) then Some(id)
                             else old(enterpoint))
      ensures start.Some? <==> old(enterpoint).Some?
      ensures start.Some? ==> Descends(vec, old(neighbors), old(enterpoint).value, old(maxLevel), nodes[id].level,
                                       start.value)
      ensures start.Some? ==> forall l: nat :: l <= nodes[id].level && l <= old(maxLevel) ==>
                Joins(id, vec, start.value, l, old(neighbors), neighbors)
                && (|ReachSet(nodes, old(neighbors), l, start.value)| <= ef ==>
                    KeepsNearest(vec, ReachSet(nodes, old(neighbors), l, start.value), LinksAt(neighbors, id, l)))
      ensures Valid() && m == old(m) && ef == old(ef)
      ensures id in nodes && nodes == old(nodes)[id := Vertex(vec, nodes[id].level)]
      ensures m > 0 && ef > 0 ==> forall l: nat :: l <= nodes[id].level && l <= old(maxLevel) && old(nodes) != map[] ==>
                LinksAt(neighbors, id, l) != {}
      ensures forall l: nat :: l <= nodes[id].level && l <= old(maxLevel) ==>
                  LinkedBack(id, l, old(neighbors), neighbors)
      ensures forall x, l: nat :: x != id && (l > nodes[id].level || l > old(maxLevel)) ==>
                LinksAt(neighbors, x, l) == old(LinksAt(neighbors, x, l))
    {
      hide GraphOk, LinksAt, EmptyLayers, ReachSet, HnswIndex.LinkedBack, HnswIndex.Joins, HnswIndex.Descends,
        HnswIndex.KeepsNearest;
      start := None;
      var level := RandomLevel();
      nodes := nodes[id := Vertex(vec, level)];
      neighbors := neighbors[id := EmptyLayers(level)];
      FreshOk(old(nodes), old(neighbors), id, level);
      GraphLinksExist(nodes, neighbors, m);
      if enterpoint == None {
        enterpoint, maxLevel := Some(id), level;
        return;
      }
      var ep, l := DescendTo(vec, enterpoint.value, maxLevel, level, id);
      ghost var before := neighbors;
      ConnectDown(id, vec, ep, l);
      SameStart(id, old(neighbors), before);
      start := Some(ep);
      DescendsSame(vec, before, old(neighbors), enterpoint.value, maxLevel, level, ep);
      SameJoins(id, vec, ep, old(neighbors), before);
      if level > maxLevel {
        maxLevel := level;
        enterpoint := Some(id);
      }
    }

    lemma SameStart(id: Id, start: Links, before: Links)
      requires forall x, l: nat :: x != id ==> LinksAt(before, x, l) == LinksAt(start, x, l)
      ensures forall l: nat :: LinkedBack(id, l, before, neighbors) ==> LinkedBack(id, l, start, neighbors)
    {
      hide LinksAt, HnswIndex.KeepsNearest;
    }

    lemma SameJoins(id: Id, vec: Vec, ep: Id, start: Links, before: Links)
      requires forall x, l: nat :: LinksAt(before, x, l) == LinksAt(start, x, l)
      ensures forall l: nat :: Joins(id, vec, ep, l, before, neighbors) ==> Joins(id, vec, ep, l, start, neighbors)
      ensures forall l: nat :: ReachSet(nodes, before, l, ep) == ReachSet(nodes, start, l, ep)
    {
      hide LinksAt, HnswIndex.Searched, Ids, ReachSet;
      forall l: nat | Joins(id, vec, ep, l, before, neighbors) ensures Joins(id, vec, ep, l, start, neighbors) {
        var hits: seq<Hit>, visited: set<Id>, missed: set<Id> :|
          Searched(vec, ep, l, ef, before, hits, visited, missed)
          && LinksAt(neighbors, id, l) == Ids(if |hits| <= m then hits else hits[..m]);
        SearchedSame(vec, ep, l, ef, before, start, hits, visited, missed);
      }
      forall l: nat ensures ReachSet(nodes, before, l, ep) == ReachSet(nodes, start, l, ep) {
        SameLayerSameReach(nodes, before, start, l, ep);
      }
    }

    lemma FreshOk(nodes0: map<Id, Vertex<Vec>>, nb0: Links, id: Id, level: nat)
      requires GraphOk(nodes0, nb0, m) && id !in nodes0 && id in nodes
      requires nodes == nodes0[id := nodes[id]] && nodes[id].level == level
      requires neighbors == nb0[id := EmptyLayers(level)]
      ensures GraphOk(nodes, neighbors, m) && Untouched(id, level) && forall l: nat :: Untouched(id, l)
      ensures forall x, l: nat :: LinksAt(neighbors, x, l) == LinksAt(nb0, x, l)
    {
      assert forall x, l: nat :: LinksAt(neighbors, x, l) == if x == id then {} else LinksAt(nb0, x, l);
    }

    /** From the top layer the new vertex shares down to layer 0: search, then connect the m nearest. */
    method ConnectDown(id: Id, vec: Vec, ep: Id, top: int)
      requires GraphOk(nodes, neighbors, m) && id in nodes && ep in nodes && ep != id
      requires top <= nodes[id].level && top <= nodes[ep].level && Untouched(id, top)
      modifies `neighbors
      ensures GraphOk(nodes, neighbors, m)
      ensures forall l: nat :: l <= top ==> Joins(id, vec, ep, l, old(neighbors), neighbors)
      ensures forall l: nat :: l <= top && |ReachSet(nodes, old(neighbors), l, ep)| <= ef ==>
                KeepsNearest(vec, ReachSet(nodes, old(neighbors), l, ep), LinksAt(neighbors, id, l))
      ensures m > 0 && ef > 0 ==> forall l: nat :: l <= top ==> LinksAt(neighbors, id, l) != {}
      ensures forall l: nat :: l <= top ==> LinkedBack(id, l, old(neighbors), neighbors)
      ensures forall x, l: nat :: l > top ==> LinksAt(neighbors, x, l) == old(LinksAt(neighbors, x, l))
    {
      hide GraphOk, LinksAt, HnswIndex.LinkedBack, HnswIndex.Untouched, HnswIndex.Joins, HnswIndex.Searched,
        ReachSet, HnswIndex.KeepsNearest;
      var l := top;
      while l >= 0
        invariant -1 <= l <= top || l == top
        invariant GraphOk(nodes, neighbors, m) && Untouched(id, l)
        invariant m > 0 && ef > 0 ==> forall k: nat :: l < k <= top ==> LinksAt(neighbors, id, k) != {}
        invariant forall k: nat :: l < k <= top ==> LinkedBack(id, k, old(neighbors), neighbors)
        invariant forall k: nat :: l < k <= top ==> Joins(id, vec, ep, k, old(neighbors), neighbors)
        invariant forall x, k: nat :: k <= l || k > top ==> LinksAt(neighbors, x, k) == old(LinksAt(neighbors, x, k))
      {
        UntouchedHere(id, l);
        GraphLinksExist(nodes, neighbors, m);
        ghost var visited, missed;
        var candidates;
        candidates, visited, missed := SearchLayer(vec, ep, l, ef);
        SearchedSame(vec, ep, l, ef, neighbors, old(neighbors), candidates, visited, missed);
        var selected := if |candidates| <= m then candidates else candidates[..m];
        SelectedAreSelectable(id, ep, l, candidates, selected);
        assert m > 0 && ef > 0 ==> selected[0].id in Ids(selected);
        ghost var before := neighbors;
        ConnectNeighbors(id, vec, selected, l);
        OtherLevelsLinkedBack(id, l, old(neighbors), before, neighbors);
        StillUntouched(id, l, before);
        JoinsHere(id, vec, ep, l, old(neighbors), neighbors, candidates, visited, missed);
        OthersStillJoin(id, vec, ep, l, old(neighbors), before, neighbors);
        l := l - 1;
      }
      forall l: nat | l <= top && |ReachSet(nodes, old(neighbors), l, ep)| <= ef
        ensures KeepsNearest(vec, ReachSet(nodes, old(neighbors), l, ep), LinksAt(neighbors, id, l))
      {
        JoinsNearest(id, vec, ep, l, old(neighbors), neighbors);
      }
    }

    /** The links of `id` at a level are the m nearest of what a search of that layer from `ep` comes to. */
    ghost predicate Joins(id: Id, vec: Vec, ep: Id, level: nat, before: Links, after: Links)
      reads `nodes, `m, `ef
    {
      exists hits: seq<Hit>, visited: set<Id>, missed: set<Id> ::
        Searched(vec, ep, level, ef, before, hits, visited, missed)
        && LinksAt(after, id, level) == Ids(if |hits| <= m then hits else hits[..m])
    }

    lemma JoinsHere(id: Id, vec: Vec, ep: Id, level: nat, before: Links, after: Links, hits: seq<Hit>,
                    visited: set<Id>, missed: set<Id>)
      requires Searched(vec, ep, level, ef, before, hits, visited, missed)
      requires LinksAt(after, id, level) == Ids(if |hits| <= m then hits else hits[..m])
      ensures Joins(id, vec, ep, level, before, after)
    {
      hide HnswIndex.Searched, LinksAt, Ids;
    }

    lemma OthersStillJoin(id: Id, vec: Vec, ep: Id, level: nat, start: Links, before: Links, after: Links)
      requires forall x, l: nat :: l != level ==> LinksAt(after, x, l) == LinksAt(before, x, l)
      ensures forall l: nat :: l != level && Joins(id, vec, ep, l, start, before) ==>
                Joins(id, vec, ep, l, start, after)
    {
      hide HnswIndex.Searched, LinksAt, Ids;
    }

    /** If ef covers everything reachable, they are the m nearest of all that. */
    lemma JoinsNearest(id: Id, vec: Vec, ep: Id, level: nat, before: Links, after: Links)
      requires Joins(id, vec, ep, level, before, after) && |ReachSet(nodes, before, level, ep)| <= ef
      ensures KeepsNearest(vec, ReachSet(nodes, before, level, ep), LinksAt(after, id, level))
    {
      hide LinksAt, Ascending, DistinctIds, HnswIndex.Kept, HnswIndex.Explored, Reachable;
      var hits: seq<Hit>, visited: set<Id>, missed: set<Id> :|
        Searched(vec, ep, level, ef, before, hits, visited, missed)
        && LinksAt(after, id, level) == Ids(if |hits| <= m then hits else hits[..m]);
      var n := if |hits| <= m then |hits| else m;
      assert hits[..|hits|] == hits;
      PrefixIsNearest(hits, n);
      DistinctCount(hits);
      var keep, reach := Ids(hits[..n]), ReachSet(nodes, before, level, ep);
      forall k, x | k in keep && x in reach - keep ensures dist(vec, nodes[k].vector) <= dist(vec, nodes[x].vector) {
        var hk :| hk in hits[..n] && hk.id == k;
        var hx :| hx in hits && hx.id == x;
        assert hk in hits;
      }
    }

    lemma SelectedAreSelectable(id: Id, ep: Id, level: nat, candidates: seq<Hit>, selected: seq<Hit>)
      requires GraphOk(nodes, neighbors, m) && ep in nodes && ep != id && level <= nodes[ep].level
      requires Untouched(id, level) && DistinctIds(candidates) && selected <= candidates && |selected| <= m
      requires Ids(candidates) <= ReachSet(nodes, neighbors, level, ep)
      ensures Selectable(id, level, selected)
    {
      hide GraphOk, Reachable, LinksAt;
      forall h | h in selected ensures h.id in nodes && h.id != id && level <= nodes[h.id].level {
        assert h in candidates && h.id in Ids(candidates);
        WalkStaysInLayer(nodes, neighbors, m, level, ep, h.id);
        WalkAvoids(neighbors, level, ep, h.id, id);
      }
    }

    /** Rebuilding clears everything and inserts each vector, in any order. */
    method Rebuild(idToVector: map<Id, Vec>)
      modifies this
      ensures Valid() && m == old(m) && ef == old(ef)
      ensures nodes.Keys == idToVector.Keys
      ensures forall id :: id in idToVector ==> nodes[id].vector == idToVector[id]
    {
      nodes, neighbors := map[], map[];
      enterpoint, maxLevel := None, -1;
      assert forall id, l: nat :: LinksAt(map[], id, l) == {};
      var todo := idToVector.Keys;
      while todo != {}
        invariant Valid() && m == old(m) && ef == old(ef)
        invariant todo <= idToVector.Keys && nodes.Keys == idToVector.Keys - todo
        invariant forall id :: id in nodes ==> nodes[id].vector == idToVector[id]
        decreases todo
      {
        var id :| id in todo;
        todo := todo - {id};
        var _ := Insert(id, idToVector[id]);
      }
    }

    lemma HitsAreNearest(q: Vec, ep: Id, ef: nat, hits: seq<Hit>, visited: set<Id>, missed: set<Id>)
      requires Searched(q, ep, 0, ef, neighbors, hits, visited, missed) && LinksExist(nodes, neighbors)
      requires ef > 0 ==> hits != [] && LinksAt(neighbors, hits[0].id, 0) <= visited
      ensures |hits| <= ef && Ascending(hits) && DistinctIds(hits)
      ensures forall h :: h in hits ==> h.id in nodes && h.d == dist(q, nodes[h.id].vector)
      ensures |ReachSet(nodes, neighbors, 0, ep)| <= ef ==> Ids(hits) == ReachSet(nodes, neighbors, 0, ep)
      ensures ef > 0 ==> hits != [] && forall n :: n in LinksAt(neighbors, hits[0].id, 0) ==>
                n in nodes && hits[0].d <= dist(q, nodes[n].vector)
    {
      hide ReachSet, Ascending, DistinctIds;
      KeptMeans(q, ef, visited, hits, missed);
    }

    /** Greedy descent to layer 0 */
    method Descend(q: Vec, from: Id, top: int) returns (ep: Id)
      requires LinksExist(nodes, neighbors) && from in nodes
      ensures ep in nodes && Descends(q, neighbors, from, top, 0, ep)
    {
      hide LinksAt, HnswIndex.Steepest, Reachable;
      ep := from;
      var l := top;
      while l > 0
        invariant ep in nodes
        invariant forall x :: Descends(q, neighbors, ep, l, 0, x) ==> Descends(q, neighbors, from, top, 0, x)
      {
        var next, path := GreedySearch(q, ep, l);
        assert path != [];
        ep := next;
        l := l - 1;
      }
    }

    /** The answer lists what a search of layer 0 from `start` comes to. */
    ghost predicate FoundBySearch(q: Vec, start: Id, ef: nat, res: seq<(Id, Vec)>)
      reads this
    {
      exists hits: seq<Hit>, visited: set<Id>, missed: set<Id> ::
        Searched(q, start, 0, ef, neighbors, hits, visited, missed)
        && |hits| == |res| && forall i :: 0 <= i < |res| ==> res[i].0 == hits[i].id
    }

    /** Candidates for a query: distinct stored vectors, nearest first, at most `efSearch`. `start` is where the
        search of layer 0 begins; everything reachable from there is found if `efSearch` allows. */
    method ApproximateCandidates(q: Vec, efSearch: nat) returns (res: seq<(Id, Vec)>, ghost start: Option<Id>)
      requires Valid()
      ensures start.Some? <==> nodes != map[]
      ensures start.Some? ==> start.value in nodes && enterpoint.Some?
                              && Descends(q, neighbors, enterpoint.value, maxLevel, 0, start.value)
      ensures start.Some? ==> FoundBySearch(q, start.value, efSearch, res)
      ensures start.Some? && |ReachSet(nodes, neighbors, 0, start.value)| <= efSearch ==>
                forall id :: id in ReachSet(nodes, neighbors, 0, start.value) <==> exists r :: r in res && r.0 == id
      ensures |res| <= efSearch
      ensures forall r :: r in res ==> r.0 in nodes && r.1 == nodes[r.0].vector
      ensures forall i, j :: 0 <= i < j < |res| ==> res[i].0 != res[j].0 && dist(q, res[i].1) <= dist(q, res[j].1)
      ensures efSearch > 0 && nodes != map[] ==> res != [] && forall n :: n in LinksAt(neighbors, res[0].0, 0) ==>
                n in nodes && dist(q, res[0].1) <= dist(q, nodes[n].vector)
    {
      hide GraphOk, Reachable, HnswIndex.Steepest, HnswIndex.Descends, HnswIndex.Searched, ReachSet, LinksAt,
        Ascending, DistinctIds, Ids;
      if enterpoint == None { return [], None; }
      GraphLinksExist(nodes, neighbors, m);
      var ep := Descend(q, enterpoint.value, maxLevel);
      ghost var visited, missed;
      var hits;
      hits, visited, missed := SearchLayer(q, ep, 0, efSearch);
      HitsAreNearest(q, ep, efSearch, hits, visited, missed);
      res := VectorsOf(hits);
      start := Some(ep);
      AnswerIs(q, ep, efSearch, hits, res);
      assert FoundBySearch(q, ep, efSearch, res);
    }

    method VectorsOf(hits: seq<Hit>) returns (res: seq<(Id, Vec)>)
      requires forall h :: h in hits ==> h.id in nodes
      ensures |res| == |hits|
      ensures forall i :: 0 <= i < |res| ==> hits[i].id in nodes && res[i] == (hits[i].id, nodes[hits[i].id].vector)
    {
      var stored := nodes;
      res := seq(|hits|, i requires 0 <= i < |hits| && hits[i].id in stored => (hits[i].id, stored[hits[i].id].vector));
    }

    lemma AnswerIs(q: Vec, ep: Id, ef: nat, hits: seq<Hit>, res: seq<(Id, Vec)>)
      requires |hits| <= ef && Ascending(hits) && DistinctIds(hits)
      requires forall h :: h in hits ==> h.id in nodes && h.d == dist(q, nodes[h.id].vector)
      requires |ReachSet(nodes, neighbors, 0, ep)| <= ef ==> Ids(hits) == ReachSet(nodes, neighbors, 0, ep)
      requires ef > 0 ==> hits != [] && forall n :: n in LinksAt(neighbors, hits[0].id, 0) ==>
                 n in nodes && hits[0].d <= dist(q, nodes[n].vector)
      requires |res| == |hits|
      requires forall i :: 0 <= i < |res| ==> hits[i].id in nodes && res[i] == (hits[i].id, nodes[hits[i].id].vector)
      ensures |ReachSet(nodes, neighbors, 0, ep)| <= ef ==>
                forall id :: id in ReachSet(nodes, neighbors, 0, ep) <==> exists r :: r in res && r.0 == id
      ensures forall r :: r in res ==> r.0 in nodes && r.1 == nodes[r.0].vector
      ensures forall i, j :: 0 <= i < j < |res| ==> res[i].0 != res[j].0 && dist(q, res[i].1) <= dist(q, res[j].1)
      ensures ef > 0 ==> res != [] && forall n :: n in LinksAt(neighbors, res[0].0, 0) ==>
                n in nodes && dist(q, res[0].1) <= dist(q, nodes[n].vector)
    {
      hide ReachSet, LinksAt, Ids;
      SameIds(hits, res);
      assert forall i :: 0 <= i < |hits| ==> hits[i] in hits;
    }
  }

  lemma SameIds<Vec>(hits: seq<Hit>, res: seq<(Id, Vec)>)
    requires |hits| == |res| && forall i :: 0 <= i < |hits| ==> res[i].0 == hits[i].id
    ensures forall id :: id in Ids(hits) <==> exists r :: r in res && r.0 == id
  {
    forall id ensures id in Ids(hits) <==> exists r :: r in res && r.0 == id {
      if id in Ids(hits) {
        var i :| 0 <= i < |hits| && hits[i].id == id;
        assert res[i] in res;
      }
      if exists r :: r in res && r.0 == id {
        var i :| 0 <= i < |res| && res[i].0 == id;
        assert hits[i] in hits;
      }
    }
  }

  lemma GraphLinksExist<Vec>(nodes: map<Id, Vertex<Vec>>, nb: Links, m: nat)
    requires GraphOk(nodes, nb, m)
    ensures LinksExist(nodes, nb)
  {
  }

  lemma {:induction false} SubsetSize(a: set<Id>, b: set<Id>)
    requires a <= b
    ensures |a| <= |b|
  {
    assert b == a + (b - a);
  }

  lemma {:induction false} SubsetFull(a: set<Id>, b: set<Id>)
    requires a <= b && |a| >= |b|
    ensures a == b
  {
    assert b == a + (b - a);
  }
}
