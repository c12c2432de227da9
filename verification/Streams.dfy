/** Streams and consumer groups of src/core/DataStore.js. Ids are compared as strings. */
module Streams {
  import opened Wrappers
  import opened Numbers
  import opened Ordering

  datatype Entry = Entry(id: string, fields: seq<string>)

  datatype Pending = Pending(id: string, owner: string)

  /** `delivered` is history: the ids handed out by XREADGROUP, oldest first. */
  datatype Group = Group(
    lastId: string,
    consumers: map<string, set<string>>,
    pending: seq<Pending>,
    delivered: seq<string>)

  function PendingIds(p: seq<Pending>): (r: seq<string>)
    ensures |r| == |p|
    ensures forall i :: 0 <= i < |r| ==> r[i] == p[i].id
  {
    seq(|p|, i requires 0 <= i < |p| => p[i].id)
  }

  ghost predicate Increasing(ids: seq<string>) {
    forall i, j :: 0 <= i < j < |ids| ==> StrLess(ids[i], ids[j])
  }

  ghost predicate UpTo(ids: seq<string>, last: string) {
    forall id :: id in ids ==> StrAtMost(id, last)
  }

  /** No id was handed out twice; pending ids increase and are not above the last id; what the consumers
      hold between them is exactly what is pending, and every recorded owner holds its id. */
  ghost predicate GroupOk(g: Group) {
    && Increasing(g.delivered) && UpTo(g.delivered, g.lastId)
    && Increasing(PendingIds(g.pending)) && UpTo(PendingIds(g.pending), g.lastId)
    && (forall p :: p in g.pending ==> p.id in g.delivered && p.owner in g.consumers && p.id in g.consumers[p.owner])
    && (forall c, id :: c in g.consumers && id in g.consumers[c] ==> id in PendingIds(g.pending))
  }

  // ---------- one delivery ----------

  function Ensure(g: Group, consumer: string): Group {
    if consumer in g.consumers then g else g.(consumers := g.consumers[consumer := {}])
  }

  function Take(g: Group, e: Entry, consumer: string): Group
    requires consumer in g.consumers
  {
    g.(lastId := e.id,
       pending := g.pending + [Pending(e.id, consumer)],
       consumers := g.consumers[consumer := g.consumers[consumer] + {e.id}],
       delivered := g.delivered + [e.id])
  }

  lemma AppendIncreasing(ids: seq<string>, last: string, id: string)
    requires Increasing(ids) && UpTo(ids, last) && StrLess(last, id)
    ensures Increasing(ids + [id]) && UpTo(ids + [id], id)
  {
    hide StrLess;
    forall x | x in ids ensures StrLess(x, id) {
      if x != last { StrTransitive(x, last, id); }
    }
    forall i | 0 <= i < |ids| ensures StrLess(ids[i], id) { assert ids[i] in ids; }
  }

  lemma EnsureOk(g: Group, consumer: string)
    requires GroupOk(g)
    ensures GroupOk(Ensure(g, consumer)) && consumer in Ensure(g, consumer).consumers
  {
  }

  lemma TakeOk(g: Group, e: Entry, consumer: string)
    requires GroupOk(g) && consumer in g.consumers && StrLess(g.lastId, e.id)
    ensures GroupOk(Take(g, e, consumer))
  {
    hide StrLess, Increasing, UpTo;
    var t := Take(g, e, consumer);
    var ids := PendingIds(g.pending);
    AppendIncreasing(g.delivered, g.lastId, e.id);
    AppendIncreasing(ids, g.lastId, e.id);
    assert PendingIds(t.pending) == ids + [e.id];
    forall p | p in t.pending ensures p.id in t.delivered && p.owner in t.consumers && p.id in t.consumers[p.owner] {
      assert p in g.pending || p == Pending(e.id, consumer);
    }
  }

  // ---------- reading ----------

  /** The read loop with `budget` deliveries left. */
  function Deliver(g: Group, entries: seq<Entry>, consumer: string, budget: nat): (Group, seq<Entry>)
    requires consumer in g.consumers
    decreases |entries|
  {
    if entries == [] || budget == 0 then (g, [])
    else if StrLess(g.lastId, entries[0].id) then
      var r := Deliver(Take(g, entries[0], consumer), entries[1..], consumer, budget - 1);
      (r.0, [entries[0]] + r.1)
    else Deliver(g, entries[1..], consumer, budget)
  }

  lemma {:induction false} DeliverOk(g: Group, entries: seq<Entry>, consumer: string, budget: nat)
    requires GroupOk(g) && consumer in g.consumers
    ensures GroupOk(Deliver(g, entries, consumer, budget).0)
    ensures consumer in Deliver(g, entries, consumer, budget).0.consumers
    ensures Deliver(g, entries, consumer, budget).0.delivered
                == g.delivered + IdsOf(Deliver(g, entries, consumer, budget).1)
    decreases |entries|
  {
    hide GroupOk, StrLess;
    if entries == [] || budget == 0 {
      assert g.delivered + [] == g.delivered;
    } else if StrLess(g.lastId, entries[0].id) {
      TakeOk(g, entries[0], consumer);
      var t := Take(g, entries[0], consumer);
      DeliverOk(t, entries[1..], consumer, budget - 1);
      var out := Deliver(t, entries[1..], consumer, budget - 1).1;
      assert g.delivered + IdsOf([entries[0]] + out) == (g.delivered + [entries[0].id]) + IdsOf(out);
    } else {
      DeliverOk(g, entries[1..], consumer, budget);
    }
  }

  function IdsOf(entries: seq<Entry>): (r: seq<string>)
    ensures |r| == |entries|
    ensures forall i :: 0 <= i < |r| ==> r[i] == entries[i].id
  {
    seq(|entries|, i requires 0 <= i < |entries| => entries[i].id)
  }

  /** The entries still ahead of a group whose last id is `last`. */
  function Ahead(entries: seq<Entry>, last: string): seq<Entry> {
    if entries == [] then []
    else (if StrLess(last, entries[0].id) then [entries[0]] else []) + Ahead(entries[1..], last)
  }

  lemma {:induction false} AheadOfIncreasing(entries: seq<Entry>, last: string, later: string)
    requires Increasing(IdsOf(entries)) && StrLess(last, later) && forall e :: e in entries ==> StrLess(later, e.id)
    ensures Ahead(entries, last) == entries && Ahead(entries, later) == entries
  {
    if entries != [] {
      assert entries[0] in entries;
      StrTransitive(last, later, entries[0].id);
      assert IdsOf(entries[1..]) == IdsOf(entries)[1..];
      AheadOfIncreasing(entries[1..], last, later);
    }
  }

  /** On a stream whose ids increase, a read returns the next entries in order, up to its count, and what
      is then ahead is exactly the rest: successive reads neither skip nor repeat. */
  lemma {:induction false} ReadsDeliverTheSuffix(g: Group, entries: seq<Entry>, consumer: string, budget: nat)
    requires consumer in g.consumers && Increasing(IdsOf(entries))
    ensures var ahead := Ahead(entries, g.lastId);
            var n := if budget <= |ahead| then budget else |ahead|;
            var r := Deliver(g, entries, consumer, budget);
            r.1 == ahead[..n] && Ahead(entries, r.0.lastId) == ahead[n..]
    decreases |entries|, 1
  {
    hide StrLess;
    if entries != [] {
      var e, rest := entries[0], entries[1..];
      TailIncreases(entries);
      if !StrLess(g.lastId, e.id) {
        ReadsDeliverTheSuffix(g, rest, consumer, budget);
        DeliverMovesForward(g, rest, consumer, budget);
        AtMostTransfers(e.id, g.lastId, Deliver(g, rest, consumer, budget).0.lastId);
        assert Ahead(entries, g.lastId) == Ahead(rest, g.lastId);
      } else {
        StrIrreflexive(e.id);
        AheadOfIncreasing(rest, g.lastId, e.id);
        assert entries == [e] + rest;
        if budget > 0 { TakeThenRead(g, entries, consumer, budget); }
      }
    }
  }

  lemma {:induction false} TakeThenRead(g: Group, entries: seq<Entry>, consumer: string, budget: nat)
    requires consumer in g.consumers && entries != [] && budget > 0 && Increasing(IdsOf(entries))
    requires StrLess(g.lastId, entries[0].id) && Ahead(entries, g.lastId) == entries
    requires Ahead(entries[1..], entries[0].id) == entries[1..]
    ensures var n := if budget <= |entries| then budget else |entries|;
            var r := Deliver(g, entries, consumer, budget);
            r.1 == entries[..n] && Ahead(entries, r.0.lastId) == entries[n..]
    decreases |entries|, 0
  {
    hide StrLess, Increasing, Take, IdsOf, Deliver, Ahead;
    var e, rest := entries[0], entries[1..];
    var n := if budget <= |entries| then budget else |entries|;
    assert entries[..n] == [e] + rest[..n - 1] && entries[n..] == rest[n - 1..];
    TailIncreases(entries);
    var t := Take(g, e, consumer);
    TakeFacts(g, e, consumer);
    ReadsDeliverTheSuffix(t, rest, consumer, budget - 1);
    DeliverMovesForward(t, rest, consumer, budget - 1);
    var last := Deliver(t, rest, consumer, budget - 1).0.lastId;
    StrNotBefore(e.id, last);
    AheadSkips(entries, last);
    DeliverTakes(g, entries, consumer, budget);
  }

  lemma DeliverTakes(g: Group, entries: seq<Entry>, consumer: string, budget: nat)
    requires consumer in g.consumers && entries != [] && budget > 0 && StrLess(g.lastId, entries[0].id)
    ensures var t := Deliver(Take(g, entries[0], consumer), entries[1..], consumer, budget - 1);
            Deliver(g, entries, consumer, budget) == (t.0, [entries[0]] + t.1)
  {
  }

  lemma AheadSkips(entries: seq<Entry>, last: string)
    requires entries != [] && !StrLess(last, entries[0].id)
    ensures Ahead(entries, last) == Ahead(entries[1..], last)
  {
  }

  lemma TakeFacts(g: Group, e: Entry, consumer: string)
    requires consumer in g.consumers
    ensures consumer in Take(g, e, consumer).consumers && Take(g, e, consumer).lastId == e.id
  {
  }

  lemma TailIncreases(entries: seq<Entry>)
    requires entries != [] && Increasing(IdsOf(entries))
    ensures Increasing(IdsOf(entries[1..]))
    ensures forall x :: x in entries[1..] ==> StrLess(entries[0].id, x.id)
  {
  }

  lemma {:induction false} AheadIsAhead(entries: seq<Entry>, last: string)
    ensures forall e :: e in Ahead(entries, last) ==> StrLess(last, e.id)
  {
    hide StrLess;
    if entries != [] { AheadIsAhead(entries[1..], last); }
  }

  lemma {:induction false} DeliverMovesForward(g: Group, entries: seq<Entry>, consumer: string, budget: nat)
    requires consumer in g.consumers
    ensures StrAtMost(g.lastId, Deliver(g, entries, consumer, budget).0.lastId)
    decreases |entries|
  {
    hide StrLess;
    if entries != [] && budget > 0 {
      if StrLess(g.lastId, entries[0].id) {
        var t := Take(g, entries[0], consumer);
        DeliverMovesForward(t, entries[1..], consumer, budget - 1);
        var last := Deliver(t, entries[1..], consumer, budget - 1).0.lastId;
        if entries[0].id != last { StrTransitive(g.lastId, entries[0].id, last); }
      } else {
        DeliverMovesForward(g, entries[1..], consumer, budget);
      }
    }
  }

  lemma StrNotBefore(a: string, b: string)
    requires StrAtMost(a, b)
    ensures !StrLess(b, a)
  {
  }

  lemma AtMostTransfers(a: string, b: string, c: string)
    requires !StrLess(b, a) && StrAtMost(b, c)
    ensures !StrLess(c, a)
  {
    if StrLess(c, a) && b != c { StrTransitive(b, c, a); }
  }

  /** What a read hands out always increases, and starts above the group's last id. */
  lemma {:induction false} DeliveredIncreases(g: Group, entries: seq<Entry>, consumer: string, budget: nat)
    requires consumer in g.consumers
    ensures var out := Deliver(g, entries, consumer, budget).1;
            Increasing(IdsOf(out)) && forall e :: e in out ==> StrLess(g.lastId, e.id)
    decreases |entries|
  {
    hide StrLess;
    if entries != [] && budget > 0 {
      if StrLess(g.lastId, entries[0].id) {
        var t := Take(g, entries[0], consumer);
        DeliveredIncreases(t, entries[1..], consumer, budget - 1);
        var later := Deliver(t, entries[1..], consumer, budget - 1).1;
        forall e | e in later ensures StrLess(g.lastId, e.id) { StrTransitive(g.lastId, entries[0].id, e.id); }
        assert IdsOf([entries[0]] + later) == [entries[0].id] + IdsOf(later);
        forall i | 0 <= i < |later| ensures StrLess(entries[0].id, IdsOf(later)[i]) { assert later[i] in later; }
      } else {
        DeliveredIncreases(g, entries[1..], consumer, budget);
      }
    }
  }

  /** A read without COUNT returns everything ahead exactly when the ids ahead increase; XADD accepts
      explicit ids in any order, and an entry behind a larger one that is delivered first is skipped. */
  lemma {:induction false} ReadsEverythingIff(g: Group, entries: seq<Entry>, consumer: string)
    requires consumer in g.consumers
    ensures Deliver(g, entries, consumer, |entries|).1 == Ahead(entries, g.lastId)
       <==> Increasing(IdsOf(Ahead(entries, g.lastId)))
  {
    DeliveredIncreases(g, entries, consumer, |entries|);
    if Increasing(IdsOf(Ahead(entries, g.lastId))) {
      AheadIsAhead(entries, g.lastId);
      DeliverSkipsBehind(g, g.lastId, entries, consumer, |entries|);
    }
  }

  lemma {:induction false} DeliverSkipsBehind(g: Group, last: string, entries: seq<Entry>, consumer: string,
      budget: nat)
    requires consumer in g.consumers && StrAtMost(last, g.lastId) && budget >= |entries|
    requires Increasing(IdsOf(Ahead(entries, last)))
    requires forall e :: e in Ahead(entries, last) ==> StrLess(g.lastId, e.id)
    ensures Deliver(g, entries, consumer, budget).1 == Ahead(entries, last)
    decreases |entries|
  {
    hide StrLess, Increasing, IdsOf, Take;
    if entries != [] {
      var e, rest := entries[0], entries[1..];
      var ahead, more := Ahead(entries, last), Ahead(rest, last);
      if StrLess(last, e.id) {
        assert ahead == [e] + more && ahead[1..] == more && e in ahead;
        TailIncreases(ahead);
        assert forall x :: x in more ==> x in ahead;
        TakeFacts(g, e, consumer);
        DeliverSkipsBehind(Take(g, e, consumer), last, rest, consumer, budget - 1);
      } else {
        assert ahead == more;
        AtMostTransfers(e.id, last, g.lastId);
        DeliverSkipsBehind(g, last, rest, consumer, budget);
      }
    }
  }

  /** Within one millisecond the tenth and eleventh sequence numbers are already out of string order. */
  lemma SequenceNumbersOutOfOrder()
    ensures StrLess("5-10", "5-9")
  {
  }

  // ---------- acknowledging and claiming ----------

  /** findIndex of a pending id, -1 when there is none. */
  function FindPending(p: seq<Pending>, id: string): (k: int)
    ensures k == -1 <==> id !in PendingIds(p)
    ensures k != -1 ==> 0 <= k < |p| && p[k].id == id
  {
    if p == [] then -1
    else
      var k := FindPending(p[..|p| - 1], id);
      assert p == p[..|p| - 1] + [p[|p| - 1]];
      assert PendingIds(p) == PendingIds(p[..|p| - 1]) + [p[|p| - 1].id];
      if k != -1 then k else if p[|p| - 1].id == id then |p| - 1 else -1
  }

  function WithoutId(consumers: map<string, set<string>>, id: string): map<string, set<string>> {
    map c | c in consumers :: consumers[c] - {id}
  }

  /** splice(k, 1) */
  function Cut(p: seq<Pending>, k: nat): (r: seq<Pending>)
    requires k < |p|
    ensures |r| == |p| - 1
  {
    p[..k] + p[k + 1..]
  }

  function AckOne(g: Group, id: string): Group {
    var k := FindPending(g.pending, id);
    g.(pending := if k == -1 then g.pending else Cut(g.pending, k),
       consumers := WithoutId(g.consumers, id))
  }

  /** Acknowledging takes the id, and only it, from the pending list and from every consumer. */
  lemma {:induction false} AckOk(g: Group, id: string)
    requires GroupOk(g)
    ensures GroupOk(AckOne(g, id))
    ensures id !in PendingIds(AckOne(g, id).pending)
    ensures forall p :: p in AckOne(g, id).pending <==> p in g.pending && p.id != id
  {
    hide StrLess, GroupOk, WithoutId, PendingIds, Increasing;
    AckPending(g, id);
    PendingKept(g, AckOne(g, id), id);
  }

  lemma AckPending(g: Group, id: string)
    requires GroupOk(g)
    ensures Increasing(PendingIds(AckOne(g, id).pending))
    ensures forall p :: p in AckOne(g, id).pending <==> p in g.pending && p.id != id
  {
    hide StrLess, GroupOk, WithoutId, Increasing, PendingIds, FindPending, Cut;
    GroupIncreases(g);
    var k := FindPending(g.pending, id);
    if k != -1 { CutPending(g.pending, k); } else { NoSuchPending(g.pending, id); }
  }

  lemma GroupIncreases(g: Group)
    requires GroupOk(g)
    ensures Increasing(PendingIds(g.pending))
  {
  }

  lemma NoSuchPending(p: seq<Pending>, id: string)
    requires id !in PendingIds(p)
    ensures forall x :: x in p ==> x.id != id
  {
  }

  lemma {:induction false} CutPending(p: seq<Pending>, k: nat)
    requires Increasing(PendingIds(p)) && k < |p|
    ensures Increasing(PendingIds(Cut(p, k)))
    ensures forall x :: x in Cut(p, k) <==> x in p && x.id != p[k].id
  {
    hide Increasing, PendingIds;
    CutByIndex(p, Cut(p, k), k);
  }

  lemma {:induction false} CutByIndex(p: seq<Pending>, t: seq<Pending>, k: nat)
    requires Increasing(PendingIds(p)) && k < |p| && |t| == |p| - 1
    requires forall j :: 0 <= j < |t| ==> t[j] == p[if j < k then j else j + 1]
    ensures Increasing(PendingIds(t))
    ensures forall x :: x in t <==> x in p && x.id != p[k].id
  {
    hide StrLess;
    var ids, left := PendingIds(p), PendingIds(t);
    StrIrreflexive(p[k].id);
    forall j | 0 <= j < |p| && j != k ensures p[j].id != p[k].id && p[j] in t {
      assert ids[j] == p[j].id && ids[k] == p[k].id;
      assert t[if j < k then j else j - 1] == p[j];
    }
    forall i, j | 0 <= i < j < |t| ensures StrLess(left[i], left[j]) {
      assert left[i] == ids[if i < k then i else i + 1] && left[j] == ids[if j < k then j else j + 1];
    }
  }

  lemma PendingKept(g: Group, t: Group, id: string)
    requires GroupOk(g) && t.lastId == g.lastId && t.delivered == g.delivered
    requires t.consumers == WithoutId(g.consumers, id)
    requires Increasing(PendingIds(t.pending))
    requires forall p :: p in t.pending <==> p in g.pending && p.id != id
    ensures GroupOk(t) && id !in PendingIds(t.pending)
  {
    hide StrLess, Increasing;
    forall x | x in PendingIds(t.pending) ensures x in PendingIds(g.pending) && x != id {
      var j :| 0 <= j < |t.pending| && t.pending[j].id == x;
      assert t.pending[j] in g.pending;
      var i :| 0 <= i < |g.pending| && g.pending[i] == t.pending[j];
      assert PendingIds(g.pending)[i] == x;
    }
    forall x | x in PendingIds(g.pending) && x != id ensures x in PendingIds(t.pending) {
      var i :| 0 <= i < |g.pending| && g.pending[i].id == x;
      assert g.pending[i] in t.pending;
      var j :| 0 <= j < |t.pending| && t.pending[j] == g.pending[i];
      assert PendingIds(t.pending)[j] == x;
    }
  }

  lemma AckCount(g: Group, id: string)
    ensures |AckOne(g, id).pending| == |g.pending| - if FindPending(g.pending, id) != -1 then 1 else 0
  {
  }

  function AckAll(g: Group, ids: seq<string>): Group {
    if ids == [] then g else AckOne(AckAll(g, ids[..|ids| - 1]), ids[|ids| - 1])
  }

  /** A pending id gets a new owner; the former owner's own record of it stays. */
  function ClaimOne(g: Group, consumer: string, id: string): Group
    requires consumer in g.consumers
  {
    var k := FindPending(g.pending, id);
    if k == -1 then g
    else g.(pending := g.pending[k := Pending(id, consumer)],
            consumers := g.consumers[consumer := g.consumers[consumer] + {id}])
  }

  lemma {:induction false} ClaimOk(g: Group, consumer: string, id: string)
    requires GroupOk(g) && consumer in g.consumers
    ensures GroupOk(ClaimOne(g, consumer, id)) && consumer in ClaimOne(g, consumer, id).consumers
    ensures PendingIds(ClaimOne(g, consumer, id).pending) == PendingIds(g.pending)
  {
    hide StrLess, Increasing, UpTo;
    var t, k := ClaimOne(g, consumer, id), FindPending(g.pending, id);
    assert PendingIds(t.pending) == PendingIds(g.pending);
    if k != -1 {
      assert g.pending[k] in g.pending;
      assert PendingIds(g.pending)[k] == id;
      forall p | p in t.pending
        ensures p.id in t.delivered && p.owner in t.consumers && p.id in t.consumers[p.owner]
      {
        assert p in g.pending || p == Pending(id, consumer);
      }
    }
  }

  function ClaimAll(g: Group, consumer: string, ids: seq<string>): (t: Group)
    requires consumer in g.consumers
    ensures consumer in t.consumers
  {
    if ids == [] then g else ClaimOne(ClaimAll(g, consumer, ids[..|ids| - 1]), consumer, ids[|ids| - 1])
  }

  // ---------- entries by id ----------

  /** Place of the first entry with this id, -1 when there is none. */
  function FindEntryIn(entries: seq<Entry>, id: string): (k: int)
    ensures k == -1 <==> id !in IdsOf(entries)
    ensures k != -1 ==> 0 <= k < |entries| && entries[k].id == id && id !in IdsOf(entries)[..k]
  {
    if entries == [] then -1
    else
      assert IdsOf(entries) == [entries[0].id] + IdsOf(entries[1..]);
      if entries[0].id == id then 0
      else
        var k := FindEntryIn(entries[1..], id);
        if k == -1 then -1
        else
          assert IdsOf(entries)[..k + 1] == [entries[0].id] + IdsOf(entries[1..])[..k];
          k + 1
  }

  /** XCLAIM's reply: of the ids that are pending, in the order asked for, the entries still in the stream. */
  function ClaimedEntries(entries: seq<Entry>, pending: seq<string>, ids: seq<string>): seq<Entry> {
    if ids == [] then []
    else
      var n := |ids| - 1;
      var k := FindEntryIn(entries, ids[n]);
      ClaimedEntries(entries, pending, ids[..n]) + if ids[n] in pending && k != -1 then [entries[k]] else []
  }

  /** The ids asked for that are pending and still have an entry, in the order asked for */
  function StillThere(ids: seq<string>, pending: seq<string>, present: seq<string>): seq<string> {
    if ids == [] then []
    else (if ids[0] in pending && ids[0] in present then [ids[0]] else []) + StillThere(ids[1..], pending, present)
  }

  /** XCLAIM replies with an entry for exactly these, each the first one with its id. */
  lemma {:induction false} ClaimedEntriesAre(entries: seq<Entry>, pending: seq<string>, ids: seq<string>)
    ensures var out := ClaimedEntries(entries, pending, ids);
            IdsOf(out) == StillThere(ids, pending, IdsOf(entries))
            && forall e :: e in out ==>
                 exists k :: 0 <= k < |entries| && entries[k] == e && e.id !in IdsOf(entries[..k])
    decreases |ids|
  {
    if ids != [] {
      var n := |ids| - 1;
      ClaimedEntriesAre(entries, pending, ids[..n]);
      assert ids == ids[..n] + [ids[n]];
      StillThereSnoc(ids[..n], ids[n], pending, IdsOf(entries));
      var k := FindEntryIn(entries, ids[n]);
      if k != -1 { assert IdsOf(entries[..k]) == IdsOf(entries)[..k]; }
      var front := ClaimedEntries(entries, pending, ids[..n]);
      assert k != -1 ==> IdsOf(front + [entries[k]]) == IdsOf(front) + [ids[n]];
      assert front + [] == front;
    }
  }

  lemma {:induction false} StillThereSnoc(ids: seq<string>, id: string, pending: seq<string>, present: seq<string>)
    ensures StillThere(ids + [id], pending, present)
         == StillThere(ids, pending, present) + if id in pending && id in present then [id] else []
  {
    if ids == [] {
      assert ids + [id] == [id] && [id][1..] == [];
    } else {
      assert (ids + [id])[0] == ids[0] && (ids + [id])[1..] == ids[1..] + [id];
      StillThereSnoc(ids[1..], id, pending, present);
    }
  }

  function DeleteEntry(entries: seq<Entry>, id: string): seq<Entry> {
    var k := FindEntryIn(entries, id);
    if k == -1 then entries else entries[..k] + entries[k + 1..]
  }

  function DeleteAll(entries: seq<Entry>, ids: seq<string>): seq<Entry> {
    if ids == [] then entries else DeleteEntry(DeleteAll(entries, ids[..|ids| - 1]), ids[|ids| - 1])
  }

  lemma OneEntryPerId(entries: seq<Entry>, i: nat, j: nat)
    requires Increasing(IdsOf(entries)) && i < |entries| && j < |entries| && entries[i].id == entries[j].id
    ensures i == j
  {
    hide StrLess;
    var ids := IdsOf(entries);
    assert ids[i] == ids[j];
    StrIrreflexive(ids[i]);
  }

  lemma CutEntries(entries: seq<Entry>, k: nat)
    requires Increasing(IdsOf(entries)) && k < |entries|
    ensures Increasing(IdsOf(entries[..k] + entries[k + 1..]))
  {
  }

  lemma CutMembers(entries: seq<Entry>, k: nat)
    requires Increasing(IdsOf(entries)) && k < |entries|
    ensures forall e :: e in entries[..k] + entries[k + 1..] <==> e in entries && e.id != entries[k].id
  {
    hide StrLess, Increasing, IdsOf;
    var left := entries[..k] + entries[k + 1..];
    forall e | e in entries && e.id != entries[k].id ensures e in left {
      var j :| 0 <= j < |entries| && entries[j] == e;
      assert left[if j < k then j else j - 1] == e;
    }
    forall e | e in left ensures e in entries && e.id != entries[k].id {
      var j :| 0 <= j < |left| && left[j] == e;
      var i := if j < k then j else j + 1;
      assert entries[i] == e;
      if e.id == entries[k].id { OneEntryPerId(entries, i, k); }
    }
  }

  lemma DeleteEntryKeeps(entries: seq<Entry>, id: string)
    requires Increasing(IdsOf(entries))
    ensures Increasing(IdsOf(DeleteEntry(entries, id)))
    ensures forall e :: e in DeleteEntry(entries, id) <==> e in entries && e.id != id
  {
    hide StrLess, Increasing;
    var k := FindEntryIn(entries, id);
    if k != -1 {
      CutEntries(entries, k);
      CutMembers(entries, k);
    } else {
      forall e | e in entries ensures e.id != id {
        var j :| 0 <= j < |entries| && entries[j] == e;
        assert IdsOf(entries)[j] == e.id;
      }
    }
  }

  /** On a stream whose ids increase XDEL leaves exactly the entries not named, in order. */
  lemma {:induction false} DeleteAllKeeps(entries: seq<Entry>, ids: seq<string>)
    requires Increasing(IdsOf(entries))
    ensures Increasing(IdsOf(DeleteAll(entries, ids)))
    ensures forall e :: e in DeleteAll(entries, ids) <==> e in entries && e.id !in ids
    decreases |ids|
  {
    hide Increasing, DeleteEntry;
    if ids != [] {
      var n := |ids| - 1;
      DeleteAllKeeps(entries, ids[..n]);
      DeleteEntryKeeps(DeleteAll(entries, ids[..n]), ids[n]);
      assert forall id :: id in ids <==> id in ids[..n] || id == ids[n];
    }
  }

  // ---------- automatic ids ----------

  /** The id XADD makes for `*`: the sequence number never leaves 0, because 0 counts as "none yet". */
  function AutoId(ms: nat): string { Digits(ms) + "-0" }

  lemma {:induction false} DigitsInjective(a: nat, b: nat)
    requires Digits(a) == Digits(b)
    ensures a == b
  {
    if a >= 10 && b >= 10 {
      var x, y := Digits(a / 10), Digits(b / 10);
      assert |Digits(a)| == |x| + 1 && |Digits(b)| == |y| + 1;
      assert Digits(a)[..|x|] == x && Digits(b)[..|y|] == y;
      assert Digits(a)[|x|] == Digits(b)[|y|];
      DigitsInjective(a / 10, b / 10);
    } else {
      DigitsLength(a);
      DigitsLength(b);
      assert Digits(a)[0] == Digits(b)[0];
    }
  }

  lemma DigitsLength(a: nat)
    ensures |Digits(a)| == 1 <==> a < 10
    ensures |Digits(a)| >= 1
  {
  }

  /** An automatic id is the time in milliseconds, a hyphen and a zero. */
  lemma AutoIdReads(ms: nat)
    ensures var id := AutoId(ms); var n := |id| - 2;
            n > 0 && id[n..] == "-0" && NumberOf(id[..n]) == ms && id[..n] == Digits(ms)
  {
    DigitsAre(ms);
    var id := AutoId(ms);
    assert id[..|id| - 2] == Digits(ms);
  }

  /** Automatic ids collide exactly within one millisecond. */
  lemma {:induction false} AutoIdsCollideIff(a: nat, b: nat)
    ensures AutoId(a) == AutoId(b) <==> a == b
  {
    if AutoId(a) == AutoId(b) {
      var x, y := Digits(a), Digits(b);
      assert |x| == |y|;
      assert x == AutoId(a)[..|x|] && y == AutoId(b)[..|y|];
      DigitsInjective(a, b);
    }
  }

  class Stream {
    var entries: seq<Entry>
    var groups: map<string, Group>
    var lastMs: Option<nat>
    var lastSeq: nat

    ghost predicate Valid()
      reads this
    {
      (forall name :: name in groups ==> GroupOk(groups[name])) && lastSeq == 0
    }

    constructor ()
      ensures Valid() && entries == [] && groups == map[]
    {
      entries, groups, lastMs, lastSeq := [], map[], None, 0;
    }

    /** None stands for `*`; any other id is taken as it is. */
    method XAdd(id: Option<string>, fields: seq<string>, now: nat) returns (entryId: string)
      requires Valid()
      modifies this
      ensures Valid() && groups == old(groups)
      ensures entryId == if id.Some? then id.value else AutoId(now)
      ensures entries == old(entries) + [Entry(entryId, fields)]
    {
      if id.None? {
        // An undefined lastSeq and a lastSeq of 0 are both falsy.
        var seqNo := if lastSeq != 0 && lastMs == Some(now) then lastSeq + 1 else 0;
        entryId := Digits(now) + "-" + Digits(seqNo);
        assert Digits(0) == "0";
        assert entryId == AutoId(now);
        lastMs, lastSeq := Some(now), seqNo;
      } else {
        entryId := id.value;
      }
      entries := entries + [Entry(entryId, fields)];
    }

    /** None stands for `$`. */
    method XGroupCreate(name: string, id: Option<string>) returns (ok: bool)
      requires Valid()
      modifies this
      ensures Valid() && entries == old(entries)
      ensures ok <==> name !in old(groups)
      ensures !ok ==> groups == old(groups)
      ensures ok ==> name in groups && groups == old(groups)[name := groups[name]] && groups[name].delivered == []
      ensures var start := if id.Some? then id.value else if entries == [] then "0-0" else entries[|entries| - 1].id;
              ok ==> groups[name].lastId == start
    {
      if name in groups { return false; }
      var lastId := if id.Some? then id.value else if |entries| > 0 then entries[|entries| - 1].id else "0-0";
      groups := groups[name := Group(lastId, map[], [], [])];
      return true;
    }

    /** None is the NOGROUP error. The entries returned are appended to the group's delivery history, in
        which no id occurs twice (Valid). */
    method XReadGroup(name: string, consumer: string, count: Option<nat>) returns (r: Option<seq<Entry>>)
      requires Valid() && (count.Some? ==> count.value > 0)
      modifies this
      ensures Valid() && entries == old(entries)
      ensures r.None? <==> name !in old(groups)
      ensures r.None? ==> groups == old(groups)
      ensures r.Some? ==>
                var d := Deliver(Ensure(old(groups)[name], consumer), entries, consumer,
                                 if count.Some? then count.value else |entries|);
                groups == old(groups)[name := d.0] && r.value == d.1
                && groups[name].delivered == old(groups)[name].delivered + IdsOf(r.value)
    {
      if name !in groups { return None; }
      hide GroupOk, Deliver, Ensure;
      EnsureOk(groups[name], consumer);
      var g := Ensure(groups[name], consumer);
      DeliverOk(g, entries, consumer, if count.Some? then count.value else |entries|);
      EnsureKeeps(groups[name], consumer);
      var g', out := ReadLoop(g, consumer, count);
      groups := groups[name := g'];
      return Some(out);
    }

    method ReadLoop(g0: Group, consumer: string, count: Option<nat>) returns (g: Group, out: seq<Entry>)
      requires consumer in g0.consumers && (count.Some? ==> count.value > 0)
      ensures (g, out) == Deliver(g0, entries, consumer, if count.Some? then count.value else |entries|)
    {
      hide StrLess, Take;
      ghost var budget := if count.Some? then count.value else |entries|;
      g, out := g0, [];
      var i := 0;
      assert entries[0..] == entries
          && [] + Deliver(g0, entries, consumer, budget).1 == Deliver(g0, entries, consumer, budget).1;
      while i < |entries|
        invariant 0 <= i <= |entries| && |out| <= i && consumer in g.consumers
        invariant |out| <= budget && (count.Some? ==> |out| < budget)
        invariant var rest := Deliver(g, entries[i..], consumer, budget - |out|);
                  Deliver(g0, entries, consumer, budget) == (rest.0, out + rest.1)
      {
        var e := entries[i];
        assert entries[i..][0] == e && entries[i..][1..] == entries[i + 1..];
        if StrLess(g.lastId, e.id) {
          DeliverTakes(g, entries[i..], consumer, budget - |out|);
          g := Taken(g, e, consumer);
          OutGrows(out, e, Deliver(g, entries[i + 1..], consumer, budget - |out| - 1).1);
          out := out + [e];
          if count.Some? && |out| >= count.value {
            assert out + [] == out;
            break;
          }
        }
        i := i + 1;
      }
      assert out + [] == out;
    }

    static method Taken(g: Group, e: Entry, consumer: string) returns (t: Group)
      requires consumer in g.consumers
      ensures t == Take(g, e, consumer) && consumer in t.consumers
    {
      var held := g.consumers[consumer] + {e.id};
      t := Group(e.id, g.consumers[consumer := held], g.pending + [Pending(e.id, consumer)], g.delivered + [e.id]);
    }

    /** 0 when there is no such group, else the number of ids that were pending. */
    method XAck(name: string, ids: seq<string>) returns (acked: nat)
      requires Valid()
      modifies this
      ensures Valid() && entries == old(entries)
      ensures name !in old(groups) ==> groups == old(groups) && acked == 0
      ensures name in old(groups) ==> groups == old(groups)[name := AckAll(old(groups)[name], ids)]
      ensures name in old(groups) ==> acked == |old(groups)[name].pending| - |groups[name].pending|
    {
      hide GroupOk, AckOne, FindPending;
      acked := 0;
      if name !in groups { return; }
      var g := groups[name];
      for i := 0 to |ids|
        invariant GroupOk(g) && g == AckAll(groups[name], ids[..i])
        invariant acked == |groups[name].pending| - |g.pending|
        modifies {}
      {
        assert ids[..i + 1][..i] == ids[..i];
        AckOk(g, ids[i]);
        AckCount(g, ids[i]);
        if FindPending(g.pending, ids[i]) != -1 { acked := acked + 1; }
        g := AckOne(g, ids[i]);
      }
      assert ids[..|ids|] == ids;
      groups := groups[name := g];
    }

    method XClaim(name: string, consumer: string, ids: seq<string>) returns (r: Option<seq<Entry>>)
      requires Valid()
      modifies this
      ensures Valid() && entries == old(entries)
      ensures r.None? <==> name !in old(groups)
      ensures r.None? ==> groups == old(groups)
      ensures r.Some? ==> groups == old(groups)[name := ClaimAll(Ensure(old(groups)[name], consumer), consumer, ids)]
      ensures r.Some? ==> PendingIds(groups[name].pending) == PendingIds(old(groups)[name].pending)
      ensures r.Some? ==> forall p :: p in groups[name].pending && p.id in ids ==> p.owner == consumer
      ensures r.Some? ==> r.value == ClaimedEntries(entries, PendingIds(old(groups)[name].pending), ids)
    {
      if name !in groups { return None; }
      hide GroupOk, ClaimAll, ClaimedEntries;
      EnsureOk(groups[name], consumer);
      var g, claimed := ClaimLoop(Ensure(groups[name], consumer), consumer, ids);
      groups := groups[name := g];
      return Some(claimed);
    }

    method ClaimLoop(g0: Group, consumer: string, ids: seq<string>) returns (g: Group, claimed: seq<Entry>)
      requires GroupOk(g0) && consumer in g0.consumers
      ensures GroupOk(g) && g == ClaimAll(g0, consumer, ids)
      ensures PendingIds(g.pending) == PendingIds(g0.pending)
      ensures forall p :: p in g.pending && p.id in ids ==> p.owner == consumer
      ensures claimed == ClaimedEntries(entries, PendingIds(g0.pending), ids)
    {
      hide GroupOk, ClaimOne, FindEntryIn, FindPending, PendingIds;
      g, claimed := g0, [];
      for i := 0 to |ids|
        invariant GroupOk(g) && consumer in g.consumers
        invariant g == ClaimAll(g0, consumer, ids[..i]) && PendingIds(g.pending) == PendingIds(g0.pending)
        invariant forall p :: p in g.pending && p.id in ids[..i] ==> p.owner == consumer
        invariant claimed == ClaimedEntries(entries, PendingIds(g0.pending), ids[..i])
      {
        assert ids[..i + 1][..i] == ids[..i] && claimed + [] == claimed;
        assert forall id :: id in ids[..i + 1] <==> id in ids[..i] || id == ids[i];
        ClaimOk(g, consumer, ids[i]);
        ClaimedOwner(g, consumer, ids[i]);
        if FindPending(g.pending, ids[i]) != -1 {
          var k := FindEntry(ids[i]);
          if k != -1 { claimed := claimed + [entries[k]]; }
        }
        g := ClaimOne(g, consumer, ids[i]);
      }
      assert ids[..|ids|] == ids;
    }

    method FindEntry(id: string) returns (k: int)
      ensures k == FindEntryIn(entries, id)
    {
      for i := 0 to |entries|
        invariant FindEntryIn(entries, id) == var k := FindEntryIn(entries[i..], id); if k == -1 then -1 else k + i
      {
        assert entries[i..][1..] == entries[i + 1..];
        if entries[i].id == id { return i; }
      }
      k := -1;
    }

    /** Deleting entries never touches a group. */
    method XDel(ids: seq<string>) returns (removed: nat)
      requires Valid()
      modifies this
      ensures Valid() && groups == old(groups)
      ensures entries == DeleteAll(old(entries), ids)
      ensures removed == |old(entries)| - |entries|
    {
      removed := 0;
      assert ids[..|ids|] == ids;
      for i := 0 to |ids|
        invariant Valid() && groups == old(groups) && removed == |old(entries)| - |entries|
        invariant entries == DeleteAll(old(entries), ids[..i])
      {
        assert ids[..i + 1][..i] == ids[..i];
        var k := FindEntry(ids[i]);
        if k != -1 {
          entries := entries[..k] + entries[k + 1..];
          removed := removed + 1;
        }
      }
    }

    method XTrim(n: nat) returns (removed: nat)
      requires Valid()
      modifies this
      ensures Valid() && groups == old(groups)
      ensures removed == if old(|entries|) > n then old(|entries|) - n else 0
      ensures entries == old(entries)[removed..]
    {
      var before := |entries|;
      removed := 0;
      if before > n {
        entries := entries[before - n..];
        removed := before - n;
      }
    }
  }

  lemma EnsureKeeps(g: Group, consumer: string)
    ensures Ensure(g, consumer).delivered == g.delivered
  {
  }

  lemma OutGrows(out: seq<Entry>, e: Entry, more: seq<Entry>)
    ensures out + ([e] + more) == (out + [e]) + more
  {
  }

  lemma {:induction false} ClaimedOwner(g: Group, consumer: string, id: string)
    requires GroupOk(g) && consumer in g.consumers
    ensures forall p :: p in ClaimOne(g, consumer, id).pending ==>
              (p.id == id ==> p.owner == consumer) && (p.id != id ==> p in g.pending)
  {
    hide StrLess, UpTo;
    var k := FindPending(g.pending, id);
    var t, ids := ClaimOne(g, consumer, id), PendingIds(g.pending);
    if k == -1 {
      forall p | p in g.pending ensures p.id in ids {
        var j :| 0 <= j < |ids| && g.pending[j] == p;
        assert ids[j] == p.id;
      }
    } else {
      forall p | p in t.pending && p.id == id ensures p.owner == consumer {
        var j :| 0 <= j < |t.pending| && t.pending[j] == p;
        StrIrreflexive(id);
        assert ids[j] == id && ids[k] == id;
      }
    }
  }

  // ---------- several streams in one command ----------

  datatype Content = Content(entries: seq<Entry>, groups: map<string, Group>)

  type StreamLists = seq<(string, seq<Entry>)>

  function Budget(count: Option<nat>, entries: seq<Entry>): nat { if count.Some? then count.value else |entries| }

  predicate HasGroup(store: map<string, Content>, key: string, name: string) {
    key in store && name in store[key].groups
  }

  function ReadOne(c: Content, name: string, consumer: string, count: Option<nat>): (Content, seq<Entry>)
    requires name in c.groups
  {
    var d := Deliver(Ensure(c.groups[name], consumer), c.entries, consumer, Budget(count, c.entries));
    (c.(groups := c.groups[name := d.0]), d.1)
  }

  /** The streams one after the other; None is the NOGROUP error of the first that has no such group. */
  function ReadKeys(store: map<string, Content>, keys: seq<string>, name: string, consumer: string,
                    count: Option<nat>, out: StreamLists): (map<string, Content>, Option<StreamLists>)
    decreases |keys|
  {
    if keys == [] then (store, Some(out))
    else if !HasGroup(store, keys[0], name) then (store, None)
    else
      var r := ReadOne(store[keys[0]], name, consumer, count);
      ReadKeys(store[keys[0] := r.0], keys[1..], name, consumer, count,
               if r.1 == [] then out else out + [(keys[0], r.1)])
  }

  /** The error comes if and only if some stream named has no such group; reading never adds or removes one. */
  lemma {:induction false} NoGroupIff(store: map<string, Content>, keys: seq<string>, name: string, consumer: string,
                                      count: Option<nat>, out: StreamLists)
    ensures ReadKeys(store, keys, name, consumer, count, out).1.None? <==>
                exists k :: k in keys && !HasGroup(store, k, name)
    decreases |keys|
  {
    if keys != [] && HasGroup(store, keys[0], name) {
      var r := ReadOne(store[keys[0]], name, consumer, count);
      var store' := store[keys[0] := r.0];
      assert forall k :: HasGroup(store', k, name) <==> HasGroup(store, k, name);
      assert forall k :: k in keys <==> k == keys[0] || k in keys[1..];
      NoGroupIff(store', keys[1..], name, consumer, count, if r.1 == [] then out else out + [(keys[0], r.1)]);
    } else if keys != [] {
      assert keys[0] in keys;
    }
  }

  /** The error comes too late: the streams named before the one without the group have been read all the same,
      their entries are pending, and the reply does not hold them. */
  lemma {:induction false} ErrorLosesDeliveries(store: map<string, Content>, before: seq<string>, bad: string,
                                                after: seq<string>, name: string, consumer: string,
                                                count: Option<nat>, out: StreamLists)
    requires (forall k :: k in before ==> HasGroup(store, k, name)) && !HasGroup(store, bad, name)
    ensures ReadKeys(store, before + [bad] + after, name, consumer, count, out)
         == (ReadKeys(store, before, name, consumer, count, out).0, None)
    decreases |before|
  {
    var keys := before + [bad] + after;
    if before != [] {
      assert keys[0] == before[0] && keys[1..] == before[1..] + [bad] + after;
      assert before[0] in before;
      assert forall k :: k in before[1..] ==> k in before;
      var r := ReadOne(store[before[0]], name, consumer, count);
      ErrorLosesDeliveries(store[before[0] := r.0], before[1..], bad, after, name, consumer, count,
                           if r.1 == [] then out else out + [(before[0], r.1)]);
    }
  }

  lemma {:induction false} DeliverHistory(g: Group, entries: seq<Entry>, consumer: string, budget: nat)
    requires consumer in g.consumers
    ensures var r := Deliver(g, entries, consumer, budget);
            r.0.delivered == g.delivered + IdsOf(r.1)
            && (r.1 == [] <==> budget == 0 || Ahead(entries, g.lastId) == [])
            && (r.1 == [] ==> r.0 == g)
    decreases |entries|
  {
    hide StrLess;
    if entries == [] || budget == 0 {
      assert g.delivered + IdsOf([]) == g.delivered;
    } else if StrLess(g.lastId, entries[0].id) {
      var t := Take(g, entries[0], consumer);
      DeliverHistory(t, entries[1..], consumer, budget - 1);
      var out := Deliver(t, entries[1..], consumer, budget - 1).1;
      assert g.delivered + IdsOf([entries[0]] + out) == (g.delivered + [entries[0].id]) + IdsOf(out);
    } else {
      DeliverHistory(g, entries[1..], consumer, budget);
    }
  }

  /** Whether a read of this stream would hand out anything. */
  predicate SomethingToRead(c: Content, name: string, count: Option<nat>)
    requires name in c.groups
  {
    count != Some(0) && Ahead(c.entries, c.groups[name].lastId) != []
  }

  lemma ReadOneHistory(c: Content, name: string, consumer: string, count: Option<nat>)
    requires name in c.groups
    ensures var t := ReadOne(c, name, consumer, count).0;
            name in t.groups
            && |t.groups[name].delivered| >= |c.groups[name].delivered|
            && (|t.groups[name].delivered| > |c.groups[name].delivered| <==> SomethingToRead(c, name, count))
            && (!SomethingToRead(c, name, count) ==>
                t.groups[name].delivered == c.groups[name].delivered && !SomethingToRead(t, name, count))
  {
    hide Deliver, Ahead, IdsOf;
    DeliverHistory(Ensure(c.groups[name], consumer), c.entries, consumer, Budget(count, c.entries));
    NothingAhead(c.groups[name].lastId);
  }

  lemma NothingAhead(last: string)
    ensures Ahead([], last) == []
  {
  }

  /** Reading several streams adds to the history of a group exactly if it names its stream and there is something
      to read in it. */
  lemma {:induction false} ReadKeysHistory(store: map<string, Content>, keys: seq<string>, name: string,
                                           consumer: string, count: Option<nat>, out: StreamLists, key: string)
    requires HasGroup(store, key, name) && forall k :: k in keys ==> HasGroup(store, k, name)
    ensures var t := ReadKeys(store, keys, name, consumer, count, out).0;
            HasGroup(t, key, name)
            && var g, h := store[key].groups[name], t[key].groups[name];
            |h.delivered| >= |g.delivered|
            && (|h.delivered| > |g.delivered| <==> key in keys && SomethingToRead(store[key], name, count))
            && (|h.delivered| == |g.delivered| ==> h.delivered == g.delivered)
    decreases |keys|
  {
    hide ReadOne, SomethingToRead;
    if keys != [] {
      var first, rest := keys[0], keys[1..];
      assert first in keys;
      assert forall k :: k in keys <==> k == first || k in rest;
      var r := ReadOne(store[first], name, consumer, count);
      ReadOneHistory(store[first], name, consumer, count);
      ReadOneKeeps(store[first], name, consumer, count);
      var store' := store[first := r.0];
      assert forall k :: HasGroup(store, k, name) ==> HasGroup(store', k, name);
      ReadKeysHistory(store', rest, name, consumer, count, if r.1 == [] then out else out + [(first, r.1)], key);
    }
  }

  lemma ReadOneKeeps(c: Content, name: string, consumer: string, count: Option<nat>)
    requires name in c.groups
    ensures ReadOne(c, name, consumer, count).0.groups.Keys == c.groups.Keys
  {
    hide Deliver;
  }

  /** When nothing is lost: the error leaves a group's deliveries as they were if and only if there was nothing to
      read in its stream. */
  lemma {:induction false} ErrorLosesNothingIff(store: map<string, Content>, before: seq<string>, bad: string,
                                                after: seq<string>, name: string, consumer: string,
                                                count: Option<nat>, out: StreamLists, key: string)
    requires (forall k :: k in before ==> HasGroup(store, k, name)) && !HasGroup(store, bad, name) && key in before
    ensures var t := ReadKeys(store, before + [bad] + after, name, consumer, count, out);
            t.1 == None && HasGroup(t.0, key, name) && HasGroup(store, key, name)
            && (t.0[key].groups[name].delivered == store[key].groups[name].delivered <==>
                count == Some(0) || Ahead(store[key].entries, store[key].groups[name].lastId) == [])
  {
    hide ReadKeys, Ahead;
    ErrorLosesDeliveries(store, before, bad, after, name, consumer, count, out);
    ReadKeysHistory(store, before, name, consumer, count, out, key);
  }

  datatype GroupReply = SyntaxError | NoGroup | Lists(lists: StreamLists)

  /** How XREADGROUP tells keys from ids: it takes keys as long as they are fewer than half of the words left, so
      that of three keys and three ids only two are taken for keys. */
  method SplitWords(rest: seq<string>) returns (keys: seq<string>, ids: seq<string>)
    ensures keys + ids == rest
    ensures |keys| == |ids| && keys != [] <==> |rest| in {2, 4}
  {
    keys := [];
    var i := 0;
    while i < |rest| && (|keys| == 0 || 2 * |keys| < |rest| - i)
      invariant 0 <= i <= |rest| && keys == rest[..i]
      invariant i >= 2 ==> 3 * (i - 1) < |rest|
    {
      keys := keys + [rest[i]];
      i := i + 1;
    }
    ids := rest[i..];
  }

  class StreamStore {
    var streams: map<string, Stream>

    ghost predicate Valid()
      reads this, streams.Values
    {
      && (forall k :: k in streams ==> streams[k].Valid())
      && (forall j, k :: j in streams && k in streams && j != k ==> streams[j] != streams[k])
    }

    ghost function Contents(): map<string, Content>
      reads this, streams.Values
    {
      map k | k in streams :: Content(streams[k].entries, streams[k].groups)
    }

    /** XREADGROUP; `rest` are the words behind STREAMS. The keys are all of its first half if that is one or two,
        and anything longer is a syntax error. */
    method XReadGroup(rest: seq<string>, name: string, consumer: string, count: Option<nat>) returns (r: GroupReply)
      requires Valid() && (count.Some? ==> count.value > 0)
      modifies streams.Values
      ensures Valid()
      ensures |rest| !in {2, 4} ==> r == SyntaxError && Contents() == old(Contents())
      ensures |rest| in {2, 4} ==>
                var read := ReadKeys(old(Contents()), rest[..|rest| / 2], name, consumer, count, []);
                Contents() == read.0 && r == if read.1.None? then NoGroup else Lists(read.1.value)
    {
      var keys, ids := SplitWords(rest);
      if |keys| == 0 || |ids| != |keys| { return SyntaxError; }
      var lists := ReadStreams(keys, name, consumer, count);
      return if lists.None? then NoGroup else Lists(lists.value);
    }

    /** None is the NOGROUP error, and an empty list of lists is the null reply. */
    method ReadStreams(keys: seq<string>, name: string, consumer: string, count: Option<nat>)
      returns (r: Option<StreamLists>)
      requires Valid() && (count.Some? ==> count.value > 0)
      modifies streams.Values
      ensures Valid() && (Contents(), r) == ReadKeys(old(Contents()), keys, name, consumer, count, [])
    {
      var out: StreamLists := [];
      assert keys[0..] == keys;
      for i := 0 to |keys|
        invariant Valid()
        invariant ReadKeys(Contents(), keys[i..], name, consumer, count, out)
               == ReadKeys(old(Contents()), keys, name, consumer, count, [])
      {
        assert keys[i..][0] == keys[i] && keys[i..][1..] == keys[i + 1..];
        if keys[i] !in streams { return None; }
        var read := ReadFrom(keys[i], name, consumer, count);
        if read == None { return None; }
        if |read.value| > 0 { out := out + [(keys[i], read.value)]; }
      }
      return Some(out);
    }

    lemma ContentsAt(key: string)
      requires key in streams
      ensures key in Contents() && Contents()[key] == Content(streams[key].entries, streams[key].groups)
    {
    }

    twostate lemma OneChanged(key: string)
      requires streams == old(streams) && key in streams
      requires forall k :: k in streams && k != key ==> unchanged(streams[k])
      ensures Contents() == old(Contents())[key := Content(streams[key].entries, streams[key].groups)]
    {
    }

    method ReadFrom(key: string, name: string, consumer: string, count: Option<nat>)
      returns (read: Option<seq<Entry>>)
      requires Valid() && key in streams && (count.Some? ==> count.value > 0)
      modifies streams[key]
      ensures Valid() && (read.Some? <==> HasGroup(old(Contents()), key, name))
      ensures read.None? ==> Contents() == old(Contents())
      ensures read.Some? ==> var one := ReadOne(old(Contents())[key], name, consumer, count);
                             Contents() == old(Contents())[key := one.0] && read.value == one.1
    {
      hide Deliver, GroupOk, Ensure, IdsOf, StreamStore.Contents;
      ContentsAt(key);
      read := streams[key].XReadGroup(name, consumer, count);
      OneChanged(key);
    }
  }
}
