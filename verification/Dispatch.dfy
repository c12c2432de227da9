/** What the store's dispatch does to values of the wrong kind, and when a forwarded command throws on a replica:
    src/core/DataStore.js, src/server/Server.js. */
module Dispatching {
  import opened Wrappers
  import opened Bytes
  import Replicas
  import Replication

  datatype Value = Text(text: Bytes) | List(items: seq<Bytes>) | Members(members: set<Bytes>)

  type Store = map<Bytes, Value>

  /** SET key text, DEL key more..., RPUSH key items..., SADD key items... */
  datatype Op =
    | Set(key: Bytes, text: Bytes)
    | Del(key: Bytes, more: seq<Bytes>)
    | Rpush(key: Bytes, items: seq<Bytes>)
    | Sadd(key: Bytes, items: seq<Bytes>)

  /** Refused is an error reply; Threw is the TypeError of asking a value for a method of another kind. */
  datatype Outcome = Done(store: Store) | Refused | Threw

  function Dispatch(s: Store, op: Op): Outcome {
    match op
    case Set(key, text) => Done(s[key := Text(text)])
    case Del(key, more) => Done(s - {key} - Elements(more))
    case Rpush(key, items) =>
      if items == [] then Refused
      else if key !in s then Done(s[key := List(items)])
      else if s[key].List? then Done(s[key := List(s[key].items + items)])
      else Threw
    case Sadd(key, items) =>
      if items == [] then Refused
      else if key !in s then Done(s[key := Members(Elements(items))])
      else if s[key].Members? then Done(s[key := Members(s[key].members + Elements(items))])
      else Threw
  }

  function Elements(items: seq<Bytes>): set<Bytes> { set x | x in items }

  datatype Reply = Fine | Wrong

  class DataStore {
    var kv: Store

    /** The loop over the pushed values asks the entry for `push`; only a list has it. */
    method Rpush(key: Bytes, items: seq<Bytes>) returns (o: Outcome)
      modifies this
      ensures o == Dispatch(old(kv), Op.Rpush(key, items))
      ensures kv == if o.Done? then o.store else old(kv)
    {
      if items == [] { return Refused; }
      ghost var was := kv;
      ghost var before := if key in was && was[key].List? then was[key].items else [];
      if key !in kv { kv := kv[key := List([])]; }
      for i := 0 to |items|
        invariant key in kv && kv == was[key := kv[key]]
        invariant kv[key].List? ==> kv[key].items == before + items[..i]
        invariant kv[key].List? <==> key !in was || was[key].List?
        invariant !kv[key].List? ==> i == 0 && kv == was
      {
        if !kv[key].List? { return Threw; }
        kv := kv[key := List(kv[key].items + [items[i]])];
      }
      assert items[..|items|] == items && [] + items == items;
      return Done(kv);
    }

    /** As for a list; only a set has `has`. */
    method Sadd(key: Bytes, items: seq<Bytes>) returns (o: Outcome)
      modifies this
      ensures o == Dispatch(old(kv), Op.Sadd(key, items))
      ensures kv == if o.Done? then o.store else old(kv)
    {
      if items == [] { return Refused; }
      ghost var was := kv;
      ghost var before := if key in was && was[key].Members? then was[key].members else {};
      if key !in kv { kv := kv[key := Members({})]; }
      for i := 0 to |items|
        invariant key in kv && kv == was[key := kv[key]]
        invariant kv[key].Members? ==> kv[key].members == before + Elements(items[..i])
        invariant kv[key].Members? <==> key !in was || was[key].Members?
        invariant !kv[key].Members? ==> i == 0 && kv == was
      {
        if !kv[key].Members? { return Threw; }
        assert Elements(items[..i + 1]) == Elements(items[..i]) + {items[i]};
        assert items[i] in kv[key].members ==> kv[key].members + {items[i]} == kv[key].members;
        if items[i] !in kv[key].members { kv := kv[key := Members(kv[key].members + {items[i]})]; }
      }
      assert items[..|items|] == items && {} + Elements(items) == Elements(items);
      return Done(kv);
    }

    method Del(key: Bytes, more: seq<Bytes>)
      modifies this
      ensures kv == Dispatch(old(kv), Op.Del(key, more)).store
    {
      kv := kv - {key};
      for i := 0 to |more|
        invariant kv == old(kv) - {key} - Elements(more[..i])
      {
        assert Elements(more[..i + 1]) == Elements(more[..i]) + {more[i]};
        kv := kv - {more[i]};
      }
      assert more[..|more|] == more;
    }
  }

  // ---------- when a run of commands throws ----------

  /** Commands dispatched one after the other; the first that throws ends it. */
  function Replay(s: Store, ops: seq<Op>): (r: Outcome)
    ensures !r.Refused?
  {
    if ops == [] then Done(s)
    else
      var n := |ops| - 1;
      var before := Replay(s, ops[..n]);
      if before.Threw? then Threw
      else
        var o := Dispatch(before.store, ops[n]);
        if o.Refused? then before else o
  }

  datatype Kind = Nothing | Texts | Lists | Sets

  function KindIn(s: Store, key: Bytes): Kind {
    if key !in s then Nothing
    else
      match s[key]
      case Text(_) => Texts
      case List(_) => Lists
      case Members(_) => Sets
  }

  /** The kind a command leaves behind under a key, None if it leaves the key alone. */
  function Leaves(op: Op, key: Bytes): Option<Kind> {
    match op
    case Set(k, _) => if k == key then Some(Texts) else None
    case Del(k, more) => if k == key || key in more then Some(Nothing) else None
    case Rpush(k, items) => if k == key && items != [] then Some(Lists) else None
    case Sadd(k, items) => if k == key && items != [] then Some(Sets) else None
  }

  /** The last of the commands that concerns the key. */
  function LastOn(ops: seq<Op>, key: Bytes): (r: Option<nat>)
    ensures r.Some? ==> r.value < |ops| && Leaves(ops[r.value], key).Some?
    ensures r.Some? ==> forall i :: r.value < i < |ops| ==> Leaves(ops[i], key).None?
    ensures r.None? ==> forall i :: 0 <= i < |ops| ==> Leaves(ops[i], key).None?
  {
    if ops == [] then None
    else if Leaves(ops[|ops| - 1], key).Some? then Some(|ops| - 1)
    else LastOn(ops[..|ops| - 1], key)
  }

  /** The kind under a key before command `j`, as the commands alone tell it. */
  function KindBefore(s: Store, ops: seq<Op>, j: nat, key: Bytes): Kind
    requires j <= |ops|
  {
    match LastOn(ops[..j], key)
    case None => KindIn(s, key)
    case Some(i) => Leaves(ops[i], key).value
  }

  predicate WrongKind(op: Op, kind: Kind) {
    (op.Rpush? || op.Sadd?) && op.items != [] && kind !in {Nothing, if op.Rpush? then Lists else Sets}
  }

  /** Command `j` pushes onto what the last command on its key has left as another kind. */
  predicate Clashes(s: Store, ops: seq<Op>, j: nat) {
    j < |ops| && WrongKind(ops[j], KindBefore(s, ops, j, ops[j].key))
  }

  lemma {:induction false} ReplayKinds(s: Store, ops: seq<Op>, key: Bytes)
    requires Replay(s, ops).Done?
    ensures KindIn(Replay(s, ops).store, key) == KindBefore(s, ops, |ops|, key)
    decreases |ops|
  {
    assert ops[..|ops|] == ops;
    if ops != [] {
      var n := |ops| - 1;
      ReplayKinds(s, ops[..n], key);
      assert ops[..n][..n] == ops[..n];
      DispatchKind(Replay(s, ops[..n]).store, ops[n], key);
    }
  }

  lemma DispatchKind(s: Store, op: Op, key: Bytes)
    ensures match Dispatch(s, op)
            case Done(t) => KindIn(t, key) == (if Leaves(op, key).Some? then Leaves(op, key).value else KindIn(s, key))
            case Refused => Leaves(op, key).None?
            case Threw => true
    ensures Dispatch(s, op).Threw? <==> WrongKind(op, KindIn(s, op.key))
  {
  }

  /** WHEN DISPATCH THROWS. A run of commands throws if and only if one of them pushes onto a key that the last
      command on that key, or failing that the store at the start, has left as a value of another kind. */
  lemma {:induction false} ReplayThrowsIff(s: Store, ops: seq<Op>)
    ensures Replay(s, ops).Threw? <==> exists j: nat :: Clashes(s, ops, j)
    decreases |ops|
  {
    hide Dispatch, Leaves, KindIn;
    if ops != [] {
      var n := |ops| - 1;
      var front := ops[..n];
      ReplayThrowsIff(s, front);
      forall j: nat | j < n ensures Clashes(s, ops, j) <==> Clashes(s, front, j) {
        assert front[..j] == ops[..j] && front[j] == ops[j];
      }
      if Replay(s, front).Done? {
        var key := ops[n].key;
        ReplayKinds(s, front, key);
        assert front[..n] == front;
        DispatchKind(Replay(s, front).store, ops[n], key);
        assert Replay(s, ops).Threw? <==> Clashes(s, ops, n);
      } else {
        var j: nat :| Clashes(s, front, j);
        assert Clashes(s, ops, j);
      }
    } else {
      assert forall j: nat :: !Clashes(s, ops, j);
    }
  }

  // ---------- what a master forwards ----------

  const OPENING: Bytes := Ascii("{db")

  /** _dbPrefix in front of a key */
  function StoredKey(db: nat, key: Bytes): Bytes { OPENING + Decimal(db) + Ascii("}:") + key }

  predicate IsStored(key: Bytes) { |key| >= 3 && key[..3] == OPENING }

  /** A client's command in its database, alone or from a transaction, which is not forwarded; FLUSHDB, neither. */
  datatype Request = Execute(db: nat, op: Op, queued: bool) | FlushDb(db: nat)

  /** Of several keys of DEL only the first is moved into the database. */
  function Rewrite(db: nat, op: Op): Op { op.(key := StoredKey(db, op.key)) }

  datatype Served = Served(store: Store, sent: seq<Op>)

  /** What throws is answered with an error; what is not answered with one is forwarded as the client sent it. */
  function Serve(s: Store, q: Request): Served {
    match q
    case FlushDb(db) =>
      var prefix := StoredKey(db, []);
      Served(map k | k in s && !(|prefix| <= |k| && k[..|prefix|] == prefix) :: s[k], [])
    case Execute(db, op, queued) =>
      match Dispatch(s, Rewrite(db, op))
      case Done(t) => Served(t, if queued then [] else [op])
      case _ => Served(s, [])
  }

  function ServeAll(s: Store, qs: seq<Request>): Served {
    if qs == [] then Served(s, [])
    else
      var first := ServeAll(s, qs[..|qs| - 1]);
      var last := Serve(first.store, qs[|qs| - 1]);
      Served(last.store, first.sent + last.sent)
  }

  function Digits(s: Bytes): Bytes {
    if s != [] && IsDigit(s[0]) then [s[0]] + Digits(s[1..]) else []
  }

  lemma {:induction false} DigitsEnd(a: Bytes, x: Bytes)
    requires forall i :: 0 <= i < |a| ==> IsDigit(a[i])
    ensures Digits(a + ([125] + x)) == a
  {
    var s := a + ([125] + x);
    if a != [] {
      assert s[1..] == a[1..] + ([125] + x);
      DigitsEnd(a[1..], x);
    }
  }

  /** Databases share no stored key. */
  lemma StoredKeysDiffer(db: nat, key: Bytes, db': nat, key': Bytes)
    ensures IsStored(StoredKey(db, key))
    ensures StoredKey(db, key) == StoredKey(db', key') <==> db == db' && key == key'
  {
    var s, t := StoredKey(db, key), StoredKey(db', key');
    assert s[..3] == OPENING;
    if s == t {
      var d, d' := Decimal(db), Decimal(db');
      var x, y := [58] + key, [58] + key';
      assert Ascii("}:") == [125, 58];
      assert s[3..] == d + ([125] + x);
      assert t[3..] == d' + ([125] + y);
      DigitsEnd(d, x);
      DigitsEnd(d', y);
      assert d == d';
      assert x == s[4 + |d|..] && y == t[4 + |d|..];
      assert key == x[1..] && key' == y[1..];
      ReadDecimal(db);
      ReadDecimal(db');
    }
  }

  /** Requests that keep to one database, name no stored key themselves and are all forwarded. */
  predicate Plain(q: Request, db: nat) {
    q.Execute? && q.db == db && !q.queued && !IsStored(q.op.key)
    && (q.op.Del? ==> forall k | k in q.op.more :: !IsStored(k))
  }

  /** Whatever a replica has under a client's key, the master has of the same kind in this database. */
  ghost predicate Follows(replica: Store, master: Store, db: nat) {
    forall k :: k in replica && !IsStored(k) ==> KindIn(replica, k) == KindIn(master, StoredKey(db, k))
  }

  lemma ServeFollows(replica: Store, master: Store, q: Request, db: nat)
    requires Plain(q, db) && Follows(replica, master, db) && Dispatch(master, Rewrite(db, q.op)).Done?
    ensures Dispatch(replica, q.op).Done?
    ensures Follows(Dispatch(replica, q.op).store, Serve(master, q).store, db)
  {
    hide Dispatch, StoredKey, IsStored;
    var op, there := q.op, Rewrite(db, q.op);
    DispatchKind(replica, op, op.key);
    DispatchKind(master, there, there.key);
    RefusedIff(replica, op);
    RefusedIff(master, there);
    var r, m := Dispatch(replica, op).store, Serve(master, q).store;
    forall k | k in r && !IsStored(k) ensures KindIn(r, k) == KindIn(m, StoredKey(db, k)) {
      DispatchKind(replica, op, k);
      DispatchKind(master, there, StoredKey(db, k));
      StoredKeysDiffer(db, k, db, op.key);
    }
  }

  lemma RefusedIff(s: Store, op: Op)
    ensures Dispatch(s, op).Refused? <==> (op.Rpush? || op.Sadd?) && op.items == []
  {
  }

  /** ONE DATABASE IS SAFE. As long as clients keep to one database, flush nothing and use no transactions, no
      forwarded command throws on a replica that started empty or from the master's snapshot. */
  lemma {:induction false} OneDatabaseNeverThrows(replica: Store, master: Store, qs: seq<Request>, db: nat)
    requires Follows(replica, master, db) && forall q | q in qs :: Plain(q, db)
    ensures Replay(replica, ServeAll(master, qs).sent).Done?
    ensures Follows(Replay(replica, ServeAll(master, qs).sent).store, ServeAll(master, qs).store, db)
    decreases |qs|
  {
    hide Dispatch, Plain, Follows, Serve, Replay;
    ReplayNothing(replica);
    if qs != [] {
      var n := |qs| - 1;
      OneDatabaseNeverThrows(replica, master, qs[..n], db);
      var first := ServeAll(master, qs[..n]);
      var q := qs[n];
      assert Plain(q, db);
      PlainExecutes(q, db);
      ServedCases(first.store, q);
      if Dispatch(first.store, Rewrite(db, q.op)).Done? {
        ServeFollows(Replay(replica, first.sent).store, first.store, q, db);
        ReplayOneMore(replica, first.sent, q.op);
      } else {
        assert first.sent + [] == first.sent;
      }
    }
  }

  lemma ReplayOneMore(s: Store, ops: seq<Op>, op: Op)
    requires Replay(s, ops).Done? && Dispatch(Replay(s, ops).store, op).Done?
    ensures Replay(s, ops + [op]) == Dispatch(Replay(s, ops).store, op)
  {
    assert (ops + [op])[..|ops|] == ops;
  }

  lemma ReplayNothing(s: Store)
    ensures Replay(s, []) == Done(s)
  {
  }

  lemma ServedCases(s: Store, q: Request)
    requires q.Execute? && !q.queued
    ensures var o := Dispatch(s, Rewrite(q.db, q.op));
            Serve(s, q) == if o.Done? then Served(o.store, [q.op]) else Served(s, [])
  {
    hide Dispatch;
  }

  lemma PlainExecutes(q: Request, db: nat)
    requires Plain(q, db)
    ensures q.Execute? && q.db == db && !q.queued
  {
  }

  lemma SnapshotFollows(master: Store, db: nat)
    requires forall k | k in master :: IsStored(k)
    ensures Follows(master, master, db) && Follows(map[], master, db)
  {
  }

  // ---------- three ways to throw ----------

  /** What can lie between pushing onto a list and adding to a set of the same name, in whatever database, for the
      master to accept both: another database, FLUSHDB, or a DEL from a transaction. */
  predicate Apart(between: seq<Request>, key: Bytes, db: nat, db': nat) {
    (between == [] && db != db')
    || (between == [FlushDb(db)] && db == db')
    || (between == [Execute(db, Del(key, []), true)] && db == db')
  }

  /** A THROW IS REACHABLE. The master accepts and forwards both commands, and no store survives dispatching them. */
  lemma {:induction false} MasterAcceptsBoth(key: Bytes, x: Bytes, y: Bytes, between: seq<Request>, db: nat, db': nat)
    requires Apart(between, key, db, db')
    ensures var first, last := Execute(db, Rpush(key, [x]), false), Execute(db', Sadd(key, [y]), false);
            ServeAll(map[], [first] + between + [last]).sent == [Rpush(key, [x]), Sadd(key, [y])]
    ensures Replay(map[], [Rpush(key, [x])]).Done?
    ensures forall s: Store :: Replay(s, [Rpush(key, [x]), Sadd(key, [y])]).Threw?
  {
    ReplayOne(Rpush(key, [x]));
    hide Dispatch, StoredKey, Serve;
    var push, add := Rpush(key, [x]), Sadd(key, [y]);
    var first, last := Execute(db, push, false), Execute(db', add, false);
    var s1 := Serve(map[], first).store;
    ServedPush(map[], db, push);
    StoredKeysDiffer(db, key, db', key);
    ServeTwo(map[], first, last);
    if between == [] {
      assert [first] + between + [last] == [first, last];
      ServedPush(s1, db', add);
      ServePush(db, push, StoredKey(db', key));
    } else {
      var q := between[0];
      assert [first] + between + [last] == [first, q, last];
      ServeThree(map[], first, q, last);
      ServeAway(s1, db, key, q);
      ServedPush(Serve(s1, q).store, db, add);
    }
    forall s: Store ensures Replay(s, [push, add]).Threw? { PushesClash(s, push, add); }
  }

  lemma ReplayOne(push: Op)
    requires push.Rpush? && push.items != []
    ensures Replay(map[], [push]).Done?
  {
    assert [push][..0] == [];
  }

  lemma PushesClash(s: Store, push: Op, add: Op)
    requires push.Rpush? && add.Sadd? && push.key == add.key && push.items != [] && add.items != []
    ensures Replay(s, [push, add]).Threw?
  {
    hide Dispatch;
    var ops := [push, add];
    assert ops[..1] == [push];
    var i := LastOn(ops[..1], add.key);
    assert Leaves(ops[..1][0], add.key) == Some(Lists);
    assert i == Some(0);
    assert Clashes(s, ops, 1);
    ReplayThrowsIff(s, ops);
  }

  /** A push is forwarded if and only if the key holds nothing of another kind. */
  lemma ServedPush(s: Store, db: nat, op: Op)
    requires (op.Rpush? || op.Sadd?) && op.items != []
    ensures Serve(s, Execute(db, op, false)).sent
         == if WrongKind(op, KindIn(s, StoredKey(db, op.key))) then [] else [op]
  {
    hide StoredKey;
  }

  lemma ServePush(db: nat, op: Op, other: Bytes)
    requires op.Rpush? && other != StoredKey(db, op.key)
    ensures KindIn(Serve(map[], Execute(db, op, false)).store, other) == Nothing
  {
    hide StoredKey;
  }

  lemma ServeAway(s: Store, db: nat, key: Bytes, q: Request)
    requires q == FlushDb(db) || q == Execute(db, Del(key, []), true)
    ensures Serve(s, q).sent == [] && KindIn(Serve(s, q).store, StoredKey(db, key)) == Nothing
  {
    hide Decimal;
    assert StoredKey(db, key)[..|StoredKey(db, [])|] == StoredKey(db, []);
  }

  lemma ServeTwo(s: Store, a: Request, b: Request)
    ensures ServeAll(s, [a, b]).sent == Serve(s, a).sent + Serve(Serve(s, a).store, b).sent
    ensures ServeAll(s, [a, b]).store == Serve(Serve(s, a).store, b).store
  {
    hide Serve;
    assert [a, b][..1] == [a] && [a][..0] == [];
    assert ServeAll(s, [a]) == Served(Serve(s, a).store, [] + Serve(s, a).sent);
  }

  lemma ServeThree(s: Store, a: Request, b: Request, c: Request)
    ensures ServeAll(s, [a, b, c]).sent
         == Serve(s, a).sent + Serve(Serve(s, a).store, b).sent + Serve(Serve(Serve(s, a).store, b).store, c).sent
  {
    hide Serve;
    ServeTwo(s, a, b);
    assert [a, b, c][..2] == [a, b];
  }

  /** The words a client sends */
  function Words(op: Op): (r: seq<Bytes>)
    ensures r != []
  {
    match op
    case Set(key, text) => [Ascii("SET"), key, text]
    case Del(key, more) => [Ascii("DEL"), key] + more
    case Rpush(key, items) => [Ascii("RPUSH"), key] + items
    case Sadd(key, items) => [Ascii("SADD"), key] + items
  }

  /** ORDINARY WRITES END A REPLICA. Two writes that the master accepts as above, forwarded to a replica that has just
      loaded its snapshot, end it: of the four messages of the delivery the last is the one that throws. */
  lemma {:induction false} OrdinaryWritesEndTheReplica(key: Bytes, x: Bytes, y: Bytes, between: seq<Request>, db: nat,
                                                       db': nat, runId: Bytes, maxBytes: nat,
                                                       saving: Replication.Saving)
    requires Apart(between, key, db, db')
    requires Replicas.RunIdOk(runId) && Replication.SavingOk(saving) && saving.Json?
    ensures var requests := [Execute(db, Rpush(key, [x]), false)] + between + [Execute(db', Sadd(key, [y]), false)];
            var sent := ServeAll(map[], requests).sent;
            |sent| == 2 && Replay(map[], sent[..1]).Done? && Replay(map[], sent).Threw?
            && var s := Replication.Run(Replication.Init(runId, maxBytes),
                                        [Replication.Connect, Replication.Answer(saving),
                                         Replication.Write(Words(sent[0])), Replication.Write(Words(sent[1]))]);
            Replication.Inv(s, false) && s.link.Streaming? && s.link.registered
            && var t := Replication.Next(s, Replication.Deliver(|s.link.pipe|, Some(3)));
            t.link.Down? && t.replica.masterRunId == None
            && t.replica.consumed == [Replication.Args(Words(sent[0]))]
  {
    hide Replay, ServeAll, Words, Replication.Run, Replication.Next, Replication.Init, Replication.Inv,
      Replication.Args;
    var push, add := Rpush(key, [x]), Sadd(key, [y]);
    MasterAcceptsBoth(key, x, y, between, db, db');
    assert [push, add][..1] == [push];
    var one, two := Replication.Args(Words(push)), Replication.Args(Words(add));
    assert [one, two][..1] == [one];
    Replication.ThrowIsReachable(runId, maxBytes, saving, Words(push), Words(add), 1);
  }
}
