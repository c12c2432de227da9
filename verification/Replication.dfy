/** Master, link and replica as one transition system, and what holds in every run of it. */
module Replication {
  import opened Wrappers
  import opened Bytes
  import opened Protocol
  import opened Commands
  import opened Backlogs
  import opened Replicas
  import opened Snapshots

  datatype Master = Master(runId: Bytes, backlog: Backlog)

  /** Requested: PSYNC id off is on its way. Streaming: the master has answered; `pipe` is in flight to the
      replica, `unread` is what its parser keeps of the bytes already delivered, and `registered` says that the
      socket is among those that writes are sent to. */
  datatype Link = Down | Requested(id: Bytes, off: Bytes) | Streaming(pipe: Bytes, unread: Bytes, registered: bool)

  /** What serializing the store came to: the snapshot, or the message of the error thrown on an unknown type. */
  datatype Saving = Json(text: Bytes) | Threw(message: Bytes)

  /** JSON.stringify of an object; the error names a type in one line. */
  predicate SavingOk(x: Saving) {
    match x
    case Json(text) => StartsWith(text, [OPEN_BRACE])
    case Threw(message) => NoCrlf(message)
  }

  /** `logs` records, for every run id ever used, the write commands of that run. */
  datatype System = System(master: Master, replica: Replica, link: Link, logs: map<Bytes, seq<Command>>)

  datatype Event =
    | Write(args: seq<Bytes>)
    | Connect
    | Answer(saving: Saving)
    | Deliver(size: nat, thrown: Option<nat>)
    | Drop
    | Detach
    | Restart(runId: Bytes)

  function Args(args: seq<Bytes>): Command {
    seq(|args|, i requires 0 <= i < |args| => Some(args[i]))
  }

  function Init(runId: Bytes, maxBytes: nat): System {
    System(Master(runId, Backlog([], 0, maxBytes)), Replica(None, -1, [], -1, false), Down, map[runId := []])
  }

  function DoWrite(s: System, args: seq<Bytes>): System
    requires s.master.runId in s.logs
  {
    var id, payload := s.master.runId, EncodeArray(Args(args));
    s.(master := s.master.(backlog := Append(s.master.backlog, payload)),
       link := if s.link.Streaming? && s.link.registered then s.link.(pipe := s.link.pipe + payload) else s.link,
       logs := s.logs[id := s.logs[id] + [Args(args)]])
  }

  function DoConnect(s: System): System {
    var r := s.replica;
    s.(link := Requested(if r.masterRunId.Some? then r.masterRunId.value else NO_RUN_ID,
                         DecimalInt(if r.applied >= 0 then r.applied else -1)))
  }

  predicate Continues(s: System)
    requires s.link.Requested?
  {
    CanContinue(s.master.backlog, s.master.runId, s.link.id, ParseInt(s.link.off))
  }

  function FullResync(m: Master): Node { Simple(FullResyncLine(m.runId, m.backlog.offset)) }

  function SavingNode(x: Saving): Node { if x.Json? then Bulk(Some(x.text)) else Error(x.message) }

  /** The line of a full resync is written before the store is serialized; if that throws, the error is written
      behind it and the socket is not registered. */
  function DoAnswer(s: System, saving: Saving): System
    requires s.link.Requested?
  {
    var m := s.master;
    var reply :=
      if Continues(s)
      then EncodeSimpleString(CONTINUE) + SliceFrom(m.backlog, ParseInt(s.link.off).value)
      else EncodeSimpleString(FullResyncLine(m.runId, m.backlog.offset)) +
           (match saving case Json(text) => EncodeBulkString(Some(text)) case Threw(message) => EncodeError(message));
    s.(link := Streaming(reply, [], Continues(s) || saving.Json?))
  }

  /** What the parser returns when the next `size` bytes arrive. */
  function Arriving(s: System, size: nat): Drained
    requires s.link.Streaming?
  {
    Drain(s.link.unread + s.link.pipe[..if size <= |s.link.pipe| then size else |s.link.pipe|])
  }

  /** Whether a command among them, the one at position `thrown`, makes the replica's dispatch throw. */
  predicate DeliveryThrows(s: System, size: nat, thrown: Option<nat>)
    requires s.link.Streaming?
  {
    BreaksOff(Arriving(s, size).messages, thrown)
  }

  /** Nothing catches what dispatch throws inside the data handler: the replica's process ends. */
  function DoDeliver(s: System, size: nat, thrown: Option<nat>): System
    requires s.link.Streaming?
  {
    var arriving := Arriving(s, size);
    var r := HandleBatch(s.replica, arriving.messages, thrown);
    if DeliveryThrows(s, size, thrown) then s.(replica := Ended(r), link := Down)
    else
      var n := if size <= |s.link.pipe| then size else |s.link.pipe|;
      s.(replica := r, link := Streaming(s.link.pipe[n..], arriving.rest, s.link.registered))
  }

  /** An event that cannot happen in this state leaves it as it is. */
  function Next(s: System, e: Event): System
    requires s.master.runId in s.logs
    ensures Next(s, e).master.runId in Next(s, e).logs
  {
    match e
    case Write(args) => if args == [] then s else DoWrite(s, args)
    case Connect => if s.link.Down? then DoConnect(s) else s
    case Answer(saving) => if s.link.Requested? && SavingOk(saving) then DoAnswer(s, saving) else s
    case Deliver(size, thrown) => if s.link.Streaming? then DoDeliver(s, size, thrown) else s
    case Drop => s.(link := Down)
    case Detach => s.(link := Down, replica := Ended(s.replica))
    case Restart(id) =>
      // Run ids are random, so a fresh one is assumed never to have been used.
      if !RunIdOk(id) || id in s.logs then s
      else s.(master := Master(id, Backlog([], 0, s.master.backlog.maxBytes)), link := Down, logs := s.logs[id := []])
  }

  function Run(s: System, events: seq<Event>): System
    requires s.master.runId in s.logs
    decreases |events|
  {
    if events == [] then s else Run(Next(s, events[0]), events[1..])
  }

  // ---------- agreement ----------

  ghost predicate LogOk(log: seq<Command>) {
    forall c | c in log :: c != [] && forall a | a in c :: a.Some?
  }

  /** The replica has consumed exactly log[from..to]; both of its offsets are command boundaries. */
  ghost predicate Agrees(r: Replica, log: seq<Command>, from: nat, to: nat) {
    from <= to <= |log|
    && r.consumed == log[from..to]
    && r.syncOffset == |Log(log[..from])|
    && r.applied == |Log(log[..to])|
  }

  ghost predicate ReplicaOk(r: Replica, logs: map<Bytes, seq<Command>>) {
    r.masterRunId.Some? ==>
      r.masterRunId.value in logs
      && exists from: nat, to: nat :: Agrees(r, logs[r.masterRunId.value], from, to)
  }

  ghost predicate CaughtUp(r: Replica, logs: map<Bytes, seq<Command>>, id: Bytes)
    requires id in logs
  {
    r.masterRunId == Some(id) && exists from: nat :: Agrees(r, logs[id], from, |logs[id]|)
  }

  /** The offset of the last full resync is known but its snapshot has not been loaded. */
  predicate AwaitsSnapshot(r: Replica) { r.masterRunId.Some? && !r.loaded }

  /** Handling `pending` keeps the replica in agreement after every message and, on a registered link, ends
      caught up; when `intact`, a replica that awaits its snapshot always finds it next. */
  ghost predicate Replays(r: Replica, pending: seq<Node>, logs: map<Bytes, seq<Command>>, id: Bytes, intact: bool,
                          registered: bool)
    requires id in logs
    decreases |pending|
  {
    ReplicaOk(r, logs)
    && (intact && AwaitsSnapshot(r) ==> r.consumed == [] && pending != [] && IsSnapshot(pending[0]))
    && if pending == [] then registered ==> CaughtUp(r, logs, id)
       else Replays(Handle(r, pending[0]), pending[1..], logs, id, intact, registered)
  }

  ghost predicate Linked(s: System, pending: seq<Node>, intact: bool)
    requires s.link.Streaming? && s.master.runId in s.logs
  {
    s.link.unread + s.link.pipe == EncodeAll(pending)
    && (forall m | m in pending :: Encodable(m))
    && Drain(s.link.unread) == Drained([], s.link.unread)
    && (intact ==> s.link.registered)
    && Replays(s.replica, pending, s.logs, s.master.runId, intact, s.link.registered)
  }

  ghost predicate Inv(s: System, intact: bool) {
    s.master.runId in s.logs
    && (forall id | id in s.logs :: RunIdOk(id) && LogOk(s.logs[id]))
    && Holds(s.master.backlog, Log(s.logs[s.master.runId]))
    && ReplicaOk(s.replica, s.logs)
    && match s.link
       case Down => intact ==> !AwaitsSnapshot(s.replica)
       case Requested(_, _) => s.link == DoConnect(s).link && (intact ==> !AwaitsSnapshot(s.replica))
       case Streaming(_, _, _) => exists pending :: Linked(s, pending, intact)
  }

  // ---------- single messages ----------

  lemma {:induction false} StringArgsOfStrings(args: Command)
    requires forall a | a in args :: a.Some?
    ensures StringArgs(args) == args
  {
    forall i | 0 <= i < |args| ensures StringArgs(args)[i] == args[i] {
      assert args[i] in args;
    }
  }

  /** A logged command moves the applied offset to the next command boundary if and only if its dispatch does not
      throw; if it throws, the replica stays where it was. */
  lemma {:induction false} HandleCommand(r: Replica, log: seq<Command>, from: nat, to: nat, throws: bool)
    requires LogOk(log) && Agrees(r, log, from, to) && to < |log|
    ensures Dispatched(CommandNode(log[to]))
    ensures var t := Step(r, CommandNode(log[to]), throws);
            (Agrees(t, log, from, to + 1) <==> !throws)
            && (throws ==> t == r)
            && t.masterRunId == r.masterRunId && t.loaded == r.loaded
  {
    hide Log, EncodeArray;
    var args := log[to];
    assert args in log;
    StringsOfBulkNodes(args);
    StringArgsOfStrings(args);
    assert log[..to + 1] == log[..to] + [args];
    assert log[from..to + 1] == log[from..to] + [args];
    LogConcat(log[..to], [args]);
    LogOfOne(args);
  }

  lemma {:induction false} HandleFullResync(r: Replica, id: Bytes, offset: nat, saving: Saving)
    requires RunIdOk(id) && SavingOk(saving)
    ensures Handle(r, Simple(FullResyncLine(id, offset))) == Replica(Some(id), offset, [], offset, false)
    ensures Handle(Replica(Some(id), offset, [], offset, false), SavingNode(saving))
         == Replica(Some(id), offset, [], offset, saving.Json?)
    ensures Encodable(Simple(FullResyncLine(id, offset))) && Encodable(SavingNode(saving))
    ensures saving.Threw? ==> !IsSnapshot(SavingNode(saving))
    ensures saving.Json? ==> IsSnapshot(SavingNode(saving))
  {
    FullResyncLineReadsBack(r, id, offset);
  }

  // ---------- what the master owes ----------

  /** From agreement at `to`, the commands from `to` on bring the replica up to date. */
  lemma {:induction false} CommandsReplay(r: Replica, logs: map<Bytes, seq<Command>>, id: Bytes,
                                          from: nat, to: nat, intact: bool)
    requires id in logs && LogOk(logs[id]) && r.masterRunId == Some(id) && Agrees(r, logs[id], from, to)
    requires intact ==> !AwaitsSnapshot(r)
    ensures Replays(r, CommandNodes(logs[id][to..]), logs, id, intact, true)
    decreases |logs[id]| - to
  {
    hide Handle, Agrees, LogOk;
    var log := logs[id];
    assert to <= |log| && from <= to by { hide *; AgreesBounds(r, log, from, to); }
    var nodes := CommandNodes(log[to..]);
    if to < |log| {
      var next := Handle(r, CommandNode(log[to]));
      HandleCommand(r, log, from, to, false);
      assert nodes[1..] == CommandNodes(log[to + 1..]);
      CommandsReplay(next, logs, id, from, to + 1, intact);
    }
  }

  /** Of the commands behind `to`, handled in one batch, exactly those before the one that throws are consumed. */
  lemma {:induction false} BatchConsumes(r: Replica, log: seq<Command>, from: nat, to: nat, thrown: Option<nat>)
    requires LogOk(log) && Agrees(r, log, from, to)
    ensures var end := if thrown.Some? && to + thrown.value < |log| then to + thrown.value else |log|;
            var batch := CommandNodes(log[to..]);
            && (BreaksOff(batch, thrown) <==> end < |log|)
            && Agrees(HandleBatch(r, batch, thrown), log, from, end)
  {
    hide Handle, Agrees, Dispatched, LogOk;
    AgreesBounds(r, log, from, to);
    var batch := CommandNodes(log[to..]);
    assert batch[..|batch|] == batch && log[to..|log|] == log[to..];
    if thrown.Some? && to + thrown.value < |log| {
      var end := to + thrown.value;
      ConsumeUpTo(r, log, from, to, end);
      HandleCommand(HandleAll(r, CommandNodes(log[to..end])), log, from, end, true);
      assert batch[thrown.value] == CommandNode(log[end]);
      assert batch[..thrown.value] == CommandNodes(log[to..end]);
    } else {
      ConsumeUpTo(r, log, from, to, |log|);
    }
  }

  lemma {:induction false} ConsumeUpTo(r: Replica, log: seq<Command>, from: nat, to: nat, end: nat)
    requires LogOk(log) && Agrees(r, log, from, to) && to <= end <= |log|
    ensures Agrees(HandleAll(r, CommandNodes(log[to..end])), log, from, end)
    decreases end - to
  {
    hide Handle, Agrees, LogOk;
    var nodes := CommandNodes(log[to..end]);
    if to < end {
      HandleCommand(r, log, from, to, false);
      assert nodes[1..] == CommandNodes(log[to + 1..end]);
      ConsumeUpTo(Handle(r, nodes[0]), log, from, to + 1, end);
    }
  }

  lemma AgreesBounds(r: Replica, log: seq<Command>, from: nat, to: nat)
    requires Agrees(r, log, from, to)
    ensures from <= to <= |log|
  {
  }

  /** Messages already handled leave the rest still good. */
  lemma {:induction false} ReplaysAfter(r: Replica, pending: seq<Node>, j: nat,
                                        logs: map<Bytes, seq<Command>>, id: Bytes, intact: bool, registered: bool)
    requires id in logs && j <= |pending| && Replays(r, pending, logs, id, intact, registered)
    ensures Replays(HandleAll(r, pending[..j]), pending[j..], logs, id, intact, registered)
    decreases j
  {
    hide Handle, ReplicaOk;
    if j == 0 {
      assert pending[0..] == pending && pending[..0] == [];
    } else {
      ReplaysAfter(Handle(r, pending[0]), pending[1..], j - 1, logs, id, intact, registered);
      assert pending[1..][..j - 1] == pending[..j][1..];
      assert pending[1..][j - 1..] == pending[j..];
    }
  }

  /** A new write keeps old agreements ... */
  lemma {:induction false} AgreesExtends(r: Replica, log: seq<Command>, from: nat, to: nat, more: seq<Command>)
    requires Agrees(r, log, from, to)
    ensures Agrees(r, log + more, from, to)
  {
    assert (log + more)[from..to] == log[from..to];
    assert (log + more)[..from] == log[..from];
    assert (log + more)[..to] == log[..to];
  }

  lemma {:induction false} ReplicaOkExtends(r: Replica, logs: map<Bytes, seq<Command>>, id: Bytes, more: seq<Command>)
    requires id in logs && ReplicaOk(r, logs)
    ensures ReplicaOk(r, logs[id := logs[id] + more])
  {
    hide Agrees;
    var now := logs[id := logs[id] + more];
    if r.masterRunId == Some(id) {
      var from: nat, to: nat :| Agrees(r, logs[id], from, to);
      AgreesExtends(r, logs[id], from, to, more);
      assert Agrees(r, now[id], from, to);
    } else if r.masterRunId.Some? {
      assert now[r.masterRunId.value] == logs[r.masterRunId.value];
    }
  }

  /** ... and is owed after everything else that is pending. */
  lemma {:induction false} ReplaysExtends(r: Replica, pending: seq<Node>, logs: map<Bytes, seq<Command>>,
                                          id: Bytes, args: Command, intact: bool)
    requires id in logs && LogOk(logs[id]) && LogOk([args]) && Replays(r, pending, logs, id, intact, true)
    ensures Replays(r, pending + [CommandNode(args)], logs[id := logs[id] + [args]], id, intact, true)
    decreases |pending|
  {
    hide Handle, Agrees;
    var now := logs[id := logs[id] + [args]];
    var all := pending + [CommandNode(args)];
    ReplicaOkExtends(r, logs, id, [args]);
    if pending == [] {
      var from: nat :| Agrees(r, logs[id], from, |logs[id]|);
      AgreesExtends(r, logs[id], from, |logs[id]|, [args]);
      assert LogOk(now[id]);
      CommandsReplay(r, now, id, from, |logs[id]|, intact);
      assert CommandNodes(now[id][|logs[id]|..]) == all;
    } else {
      assert all[1..] == pending[1..] + [CommandNode(args)];
      ReplaysExtends(Handle(r, pending[0]), pending[1..], logs, id, args, intact);
    }
  }

  /** On a link that is not registered the write is not owed. */
  lemma {:induction false} ReplaysUnregistered(r: Replica, pending: seq<Node>, logs: map<Bytes, seq<Command>>,
                                               id: Bytes, args: Command, intact: bool)
    requires id in logs && Replays(r, pending, logs, id, intact, false)
    ensures Replays(r, pending, logs[id := logs[id] + [args]], id, intact, false)
    decreases |pending|
  {
    hide Handle, ReplicaOk;
    ReplicaOkExtends(r, logs, id, [args]);
    if pending != [] { ReplaysUnregistered(Handle(r, pending[0]), pending[1..], logs, id, args, intact); }
  }

  // ---------- the invariant, event by event ----------

  lemma {:induction false} InitInv(runId: Bytes, maxBytes: nat)
    requires RunIdOk(runId)
    ensures Inv(Init(runId, maxBytes), true)
  {
  }

  lemma {:induction false} WriteInv(s: System, args: seq<Bytes>, intact: bool)
    requires Inv(s, intact) && args != []
    ensures Inv(DoWrite(s, args), intact)
  {
    hide Linked, EncodeArray, Append, Holds;
    var id, command := s.master.runId, Args(args);
    var log, payload := s.logs[id], EncodeArray(command);
    assert command != [] && forall a | a in command :: a.Some?;
    LogConcat(log, [command]);
    LogOfOne(command);
    AppendKeepsWindow(s.master.backlog, Log(log), payload);
    ReplicaOkExtends(s.replica, s.logs, id, [command]);
    if s.link.Streaming? {
      var pending :| Linked(s, pending, intact);
      WriteLinks(s, args, pending, intact);
    }
  }

  /** A write is in flight behind everything else, if the link is registered. */
  lemma WriteLinks(s: System, args: seq<Bytes>, pending: seq<Node>, intact: bool)
    requires s.link.Streaming? && s.master.runId in s.logs && LogOk(s.logs[s.master.runId])
    requires Linked(s, pending, intact) && args != []
    ensures Linked(DoWrite(s, args), pending + if s.link.registered then [CommandNode(Args(args))] else [], intact)
  {
    hide Replays, EncodeArray, Encode, Encodable, Append, Holds, Drain;
    var id, command := s.master.runId, Args(args);
    var payload := EncodeArray(command);
    assert LogOk([command]);
    LogOfOne(command);
    CommandsAreEncodable([command]);
    assert CommandNodes([command]) == [CommandNode(command)];
    if s.link.registered {
      ReplaysExtends(s.replica, pending, s.logs, id, command, intact);
      EncodeAllConcat(pending, [CommandNode(command)]);
      Assoc(s.link.unread, s.link.pipe, payload);
    } else {
      ReplaysUnregistered(s.replica, pending, s.logs, id, command, intact);
      assert pending + [] == pending;
    }
  }

  lemma {:induction false} DeliverInv(s: System, size: nat, thrown: Option<nat>, intact: bool)
    requires Inv(s, intact) && s.link.Streaming?
    ensures Inv(DoDeliver(s, size, thrown), intact)
  {
    hide Replays, Encode, Encodable, Holds, Drain, HandleAll, RunIdOk, LogOk, BreaksOff;
    if !DeliveryThrows(s, size, thrown) {
      var pending :| Linked(s, pending, intact);
      var n := if size <= |s.link.pipe| then size else |s.link.pipe|;
      var p, q := s.link.unread + s.link.pipe[..n], s.link.pipe[n..];
      assert p + q == s.link.unread + s.link.pipe;
      var j := DrainPrefix(pending, p, q);
      ReplaysAfter(s.replica, pending, j, s.logs, s.master.runId, intact, s.link.registered);
      var t := DoDeliver(s, size, thrown);
      assert Linked(t, pending[j..], intact);
      ReplaysNow(t.replica, pending[j..], t.logs, t.master.runId, intact, t.link.registered);
    }
  }

  lemma ReplaysNow(r: Replica, pending: seq<Node>, logs: map<Bytes, seq<Command>>, id: Bytes, intact: bool,
                   registered: bool)
    requires id in logs && Replays(r, pending, logs, id, intact, registered)
    ensures ReplicaOk(r, logs)
  {
  }

  lemma AgreesOffset(r: Replica, log: seq<Command>, from: nat, to: nat)
    requires Agrees(r, log, from, to)
    ensures from <= to <= |log| && r.applied == |Log(log[..to])|
    ensures Log(log[..to]) + Log(log[to..]) == Log(log)
  {
    assert log[..to] + log[to..] == log;
    LogConcat(log[..to], log[to..]);
  }

  lemma GreetingFacts(r: Replica)
    ensures Encodable(Simple(CONTINUE)) && Encode(Simple(CONTINUE)) == EncodeSimpleString(CONTINUE)
    ensures Handle(r, Simple(CONTINUE)) == r
    ensures Drain([]) == Drained([], [])
  {
  }

  /** +CONTINUE is sent only for the replica's own offset, and is followed by exactly the missing commands. */
  lemma {:induction false} ContinueLinks(s: System, saving: Saving, intact: bool) returns (to: nat)
    requires Inv(s, intact) && s.link.Requested? && Continues(s)
    ensures s.replica.masterRunId == Some(s.master.runId) && to <= |s.logs[s.master.runId]|
    ensures Linked(DoAnswer(s, saving), [Simple(CONTINUE)] + CommandNodes(s.logs[s.master.runId][to..]), intact)
  {
    hide Encode, Encodable, Holds, Drain, LogOk, Agrees, Handle, ParseInt, DecimalInt, EncodeSimpleString;
    var id, log, r := s.master.runId, s.logs[s.master.runId], s.replica;
    ParseIntDecimal(if r.applied >= 0 then r.applied else -1);
    assert r.masterRunId == Some(id);
    var from: nat;
    from, to :| Agrees(r, log, from, to);
    AgreesOffset(r, log, from, to);
    ContinueIff(s.master.backlog, Log(log), id, s.link.id, Some(r.applied));
    assert SliceFrom(s.master.backlog, r.applied) == Log(log[to..]);
    var tail := CommandNodes(log[to..]);
    CommandsReplay(r, s.logs, id, from, to, intact);
    CommandsAreEncodable(log[to..]);
    GreetingFacts(r);
    var pending := [Simple(CONTINUE)] + tail;
    assert pending[1..] == tail;
    var t := DoAnswer(s, saving);
    assert t.link.unread + t.link.pipe == t.link.pipe == EncodeAll(pending);
  }

  lemma {:induction false} ContinueInv(s: System, saving: Saving, intact: bool)
    requires Inv(s, intact) && s.link.Requested? && Continues(s)
    ensures Inv(DoAnswer(s, saving), intact)
  {
    hide Linked, ParseInt, Continues, Holds, ReplicaOk;
    var to := ContinueLinks(s, saving, intact);
  }

  /** The line of a full resync brings a replica in any state into agreement at the present offset, and what
      follows it, snapshot or error, leaves it there. */
  lemma {:induction false} FullResyncReplays(r: Replica, logs: map<Bytes, seq<Command>>, m: Master, saving: Saving,
                                             intact: bool)
    requires m.runId in logs && RunIdOk(m.runId) && m.backlog.offset == |Log(logs[m.runId])| && SavingOk(saving)
    requires ReplicaOk(r, logs) && (intact ==> !AwaitsSnapshot(r) && saving.Json?)
    ensures Replays(r, [FullResync(m), SavingNode(saving)], logs, m.runId, intact, saving.Json?)
  {
    hide Handle, FullResyncLine;
    var id, offset := m.runId, m.backlog.offset;
    var log := logs[id];
    var r1 := Replica(Some(id), offset, [], offset, false);
    var r2 := r1.(loaded := saving.Json?);
    var pending := [FullResync(m), SavingNode(saving)];
    HandleFullResync(r, id, offset, saving);
    assert log[..|log|] == log;
    assert Agrees(r1, log, |log|, |log|) && Agrees(r2, log, |log|, |log|);
    assert pending[1..] == [SavingNode(saving)] && pending[1..][1..] == [];
    assert Replays(r2, [], logs, id, intact, saving.Json?);
    assert Replays(r1, pending[1..], logs, id, intact, saving.Json?);
  }

  lemma FullResyncLinks(s: System, saving: Saving, intact: bool)
    requires Inv(s, intact) && s.link.Requested? && !Continues(s) && SavingOk(saving) && (intact ==> saving.Json?)
    ensures Linked(DoAnswer(s, saving), [FullResync(s.master), SavingNode(saving)], intact)
  {
    hide Replays, Encodable, Drain, Handle, ParseInt, FullResyncLine, EncodeSimpleString, EncodeBulkString, EncodeError,
      Continues;
    var line, node := FullResync(s.master), SavingNode(saving);
    var pending := [line, node];
    FullResyncReplays(s.replica, s.logs, s.master, saving, intact);
    HandleFullResync(s.replica, s.master.runId, s.master.backlog.offset, saving);
    GreetingFacts(s.replica);
    var t := DoAnswer(s, saving);
    assert pending[1..] == [node] && [node][1..] == [];
    assert EncodeAll([node]) == Encode(node) + [] == Encode(node);
    assert EncodeAll(pending) == Encode(line) + Encode(node) == t.link.pipe;
    assert [] + t.link.pipe == t.link.pipe;
  }

  lemma {:induction false} FullResyncInv(s: System, saving: Saving, intact: bool)
    requires Inv(s, intact) && s.link.Requested? && !Continues(s) && SavingOk(saving) && (intact ==> saving.Json?)
    ensures Inv(DoAnswer(s, saving), intact)
  {
    hide Linked, Continues, Holds, ReplicaOk;
    FullResyncLinks(s, saving, intact);
  }

  /** An intact run breaks when the link is cut while a snapshot is owed, and when a full resync is answered from
      a store that cannot be serialized. */
  predicate Breaks(s: System, e: Event) {
    match e
    case Drop => AwaitsSnapshot(s.replica)
    case Restart(id) => RunIdOk(id) && id !in s.logs && AwaitsSnapshot(s.replica)
    case Answer(saving) => s.link.Requested? && SavingOk(saving) && !Continues(s) && saving.Threw?
    case _ => false
  }

  lemma {:induction false} StepInv(s: System, e: Event, intact: bool)
    requires Inv(s, intact) && (intact ==> !Breaks(s, e))
    ensures Inv(Next(s, e), intact)
  {
    hide Continues, Inv, DoAnswer, DoWrite, DoDeliver;
    match e
    case Write(args) => if args != [] { WriteInv(s, args, intact); }
    case Connect => ConnectInv(s, intact);
    case Answer(saving) =>
      if s.link.Requested? && SavingOk(saving) {
        if Continues(s) { ContinueInv(s, saving, intact); } else { FullResyncInv(s, saving, intact); }
      }
    case Deliver(size, thrown) => if s.link.Streaming? { DeliverInv(s, size, thrown, intact); }
    case Drop => CutInv(s, e, intact);
    case Detach => CutInv(s, e, intact);
    case Restart(_) => CutInv(s, e, intact);
  }

  lemma {:induction false} ConnectInv(s: System, intact: bool)
    requires Inv(s, intact)
    ensures Inv(Next(s, Connect), intact)
  {
    hide Replays, Drain, Holds, LogOk, Agrees;
  }

  lemma {:induction false} CutInv(s: System, e: Event, intact: bool)
    requires Inv(s, intact) && (intact ==> !Breaks(s, e)) && (e.Drop? || e.Detach? || e.Restart?)
    ensures Inv(Next(s, e), intact)
  {
    hide Replays, Drain, Agrees, Linked;
    if e.Restart? && RunIdOk(e.runId) && e.runId !in s.logs {
      var t := Next(s, e);
      assert CommandNodes([]) == [];
      if s.replica.masterRunId.Some? {
        var id := s.replica.masterRunId.value;
        assert t.logs[id] == s.logs[id];
      }
    }
  }

  // ---------- whole runs ----------

  predicate NeverBreaks(s: System, events: seq<Event>)
    requires s.master.runId in s.logs
    decreases |events|
  {
    events == [] || (!Breaks(s, events[0]) && NeverBreaks(Next(s, events[0]), events[1..]))
  }

  lemma {:induction false} RunInv(s: System, events: seq<Event>, intact: bool)
    requires Inv(s, intact) && (intact ==> NeverBreaks(s, events))
    ensures Inv(Run(s, events), intact)
    decreases |events|
  {
    hide Inv, Next, Breaks;
    if events != [] {
      InvRunId(s, intact);
      StepInv(s, events[0], intact);
      RunInv(Next(s, events[0]), events[1..], intact);
    }
  }

  lemma InvRunId(s: System, intact: bool)
    requires Inv(s, intact)
    ensures s.master.runId in s.logs
  {
  }

  lemma {:induction false} InitWeakInv(runId: Bytes, maxBytes: nat)
    requires RunIdOk(runId)
    ensures Inv(Init(runId, maxBytes), false)
  {
  }

  /** SAFETY. In every run of writes, connections, answers, deliveries of any size with or without a dispatch that
      throws, drops, detachments and master restarts: what the replica has consumed since its last full resync is
      exactly the stretch of the named master's log between the offset of that resync and its applied offset, in
      order, with no gap and no repeat; both offsets are command boundaries, whatever the backlog has evicted. */
  lemma {:induction false} ReplicaAgreesInEveryRun(runId: Bytes, maxBytes: nat, events: seq<Event>)
    requires RunIdOk(runId)
    ensures var s := Run(Init(runId, maxBytes), events);
            var r := s.replica;
            r.masterRunId.Some? ==>
              r.masterRunId.value in s.logs
              && var log := s.logs[r.masterRunId.value];
              exists from: nat, to: nat ::
                from <= to <= |log|
                && r.consumed == log[from..to]
                && r.syncOffset == |Log(log[..from])|
                && r.applied == |Log(log[..to])|
  {
    InitWeakInv(runId, maxBytes);
    RunInv(Init(runId, maxBytes), events, false);
    AgreementOfInv(Run(Init(runId, maxBytes), events));
  }

  lemma AgreementOfInv(s: System)
    requires Inv(s, false)
    ensures s.replica.masterRunId.Some? ==>
              s.replica.masterRunId.value in s.logs
              && var log := s.logs[s.replica.masterRunId.value];
              exists from: nat, to: nat ::
                from <= to <= |log|
                && s.replica.consumed == log[from..to]
                && s.replica.syncOffset == |Log(log[..from])|
                && s.replica.applied == |Log(log[..to])|
  {
  }

  /** PROGRESS. Once everything in flight has been delivered: if no delivered command made the dispatch throw, no
      byte is left in the parser, otherwise the replica has ended. On a registered link it has then consumed the
      master's whole log, with the master's offset, if and only if none threw. */
  lemma {:induction false} DeliveringAllCatchesUp(s: System, thrown: Option<nat>, intact: bool)
    requires Inv(s, intact) && s.link.Streaming?
    ensures var t := DoDeliver(s, |s.link.pipe|, thrown);
            var broken := DeliveryThrows(s, |s.link.pipe|, thrown);
            t.link == (if broken then Down else Streaming([], [], s.link.registered))
            && (broken ==> t.replica.masterRunId == None && t.replica.applied == -1)
            && (s.link.registered ==> (CaughtUp(t.replica, t.logs, t.master.runId) <==> !broken))
            && (s.link.registered && !broken ==> t.replica.applied == t.master.backlog.offset)
            && (intact ==> !AwaitsSnapshot(t.replica))
  {
    hide Encode, Encodable, Drain, HandleAll, Handle, RunIdOk, LogOk, BreaksOff;
    var pending :| Linked(s, pending, intact);
    DeliverAll(s, pending, thrown, intact);
    ReplaysAfter(s.replica, pending, |pending|, s.logs, s.master.runId, intact, s.link.registered);
    assert pending[..|pending|] == pending && pending[|pending|..] == [];
    var log := s.logs[s.master.runId];
    assert log[..|log|] == log;
  }

  /** Delivering everything hands the replica exactly what is pending. */
  lemma DeliverAll(s: System, pending: seq<Node>, thrown: Option<nat>, intact: bool)
    requires s.link.Streaming? && s.master.runId in s.logs && Linked(s, pending, intact)
    ensures DeliveryThrows(s, |s.link.pipe|, thrown) <==> BreaksOff(pending, thrown)
    ensures DoDeliver(s, |s.link.pipe|, thrown)
         == if BreaksOff(pending, thrown)
            then s.(replica := Ended(HandleBatch(s.replica, pending, thrown)), link := Down)
            else s.(replica := HandleAll(s.replica, pending), link := Streaming([], [], s.link.registered))
  {
    hide Encode, Encodable, Drain, HandleAll, Replays, BreaksOff;
    DrainAll(pending, s.link.unread + s.link.pipe);
    assert s.link.pipe[..|s.link.pipe|] == s.link.pipe && s.link.pipe[|s.link.pipe|..] == [];
  }

  lemma {:induction false} DrainAll(pending: seq<Node>, bytes: Bytes)
    requires (forall m | m in pending :: Encodable(m)) && bytes == EncodeAll(pending)
    ensures Drain(bytes) == Drained(pending, [])
  {
    hide Encodable, Encode;
    DrainEncoded(pending, []);
    assert bytes + [] == bytes && pending + [] == pending;
    GreetingFacts(Replica(None, -1, [], -1, false));
  }

  // ---------- which links are registered ----------

  /** What the serializer comes to for a store. */
  ghost predicate IsSavingOf<J>(saving: Saving, store: Store<J>) { saving.Json? <==> Savable(store) }

  /** An answered link is registered if and only if PSYNC continues or the store can be serialized. */
  lemma RegisteredIff<J>(s: System, saving: Saving, store: Store<J>)
    requires s.master.runId in s.logs && s.link.Requested? && SavingOk(saving) && IsSavingOf(saving, store)
    ensures Next(s, Answer(saving)).link.Streaming?
    ensures Next(s, Answer(saving)).link.registered <==> Continues(s) || Savable(store)
  {
  }

  /** Of a replica that is up to date: a write reaches it if and only if its link is registered and the write's
      dispatch does not throw there, whatever else is delivered. Unregistered it stays as it is; a dispatch that
      throws ends it. */
  lemma WritesReachIff(s: System, args: seq<Bytes>, throws: bool)
    requires Inv(s, false) && s.link.Streaming? && s.link.pipe == [] && args != []
    requires CaughtUp(s.replica, s.logs, s.master.runId)
    ensures var t := DoWrite(s, args);
            var u := DoDeliver(t, |t.link.pipe|, if throws then Some(0) else None);
            (CaughtUp(u.replica, u.logs, u.master.runId) <==> s.link.registered && !throws)
            && (!s.link.registered ==> u.replica == s.replica && u.link.Streaming?)
            && (s.link.registered && throws ==> u.replica == Ended(s.replica) && u.link.Down?)
  {
    hide Inv, Encode, Encodable, Drain, HandleAll, Handle, RunIdOk, LogOk, Append, EncodeArray, Replays, CaughtUp,
      Dispatched, Linked;
    InvRunId(s, false);
    var t, thrown := DoWrite(s, args), if throws then Some(0) else None;
    NothingPending(s);
    LogsAreOk(s);
    WriteLinks(s, args, [], false);
    var pending := if s.link.registered then [CommandNode(Args(args))] else [];
    assert [] + pending == pending;
    WriteInv(s, args, false);
    DeliveringAllCatchesUp(t, thrown, false);
    DeliverAll(t, pending, thrown, false);
    CommandIsDispatched(args);
    NothingHandled(s.replica);
    if !s.link.registered { BehindTheLog(s, Args(args)); }
  }

  /** With nothing in flight nothing is pending. */
  lemma NothingPending(s: System)
    requires Inv(s, false) && s.link.Streaming? && s.link.pipe == []
    ensures s.link.unread == [] && Linked(s, [], false)
  {
    hide Encode, Encodable, Drain, RunIdOk, LogOk, Holds, Handle;
    var pending :| Linked(s, pending, false);
    assert s.link.unread + [] == s.link.unread;
    DrainAll(pending, s.link.unread);
    assert pending == [];
  }

  lemma LogsAreOk(s: System)
    requires Inv(s, false)
    ensures s.master.runId in s.logs && LogOk(s.logs[s.master.runId])
  {
  }

  lemma CommandIsDispatched(args: seq<Bytes>)
    requires args != []
    ensures Dispatched(CommandNode(Args(args)))
  {
    StringsOfBulkNodes(Args(args));
  }

  lemma NothingHandled(r: Replica)
    ensures HandleAll(r, []) == r
  {
  }

  lemma BehindTheLog(s: System, command: Command)
    requires s.master.runId in s.logs && CaughtUp(s.replica, s.logs, s.master.runId)
    ensures var id := s.master.runId; !CaughtUp(s.replica, s.logs[id := s.logs[id] + [command]], id)
  {
    hide Log, EncodeArray;
    var log := s.logs[s.master.runId];
    var longer := log + [command];
    assert log[..|log|] == log && longer[..|longer|] == longer;
    LogConcat(log, [command]);
    LogOfOne(command);
    ArrayIsNotEmpty(command);
  }

  lemma ArrayIsNotEmpty(command: Command)
    ensures EncodeArray(command) != []
  {
  }

  // ---------- the snapshot of a full resync ----------

  /** No replica waits for a snapshot that is not on its way, and no answered link is left unregistered. */
  predicate SnapshotComing(s: System) {
    (s.link.Streaming? ==> s.link.registered)
    && (AwaitsSnapshot(s.replica) ==> s.replica.consumed == [] && s.link.Streaming?)
  }

  lemma IntactIsComing(s: System)
    requires Inv(s, true)
    ensures SnapshotComing(s)
  {
    if s.link.Streaming? {
      var pending :| Linked(s, pending, true);
    }
  }

  lemma BrokenIsNot(s: System, e: Event)
    requires s.master.runId in s.logs && Breaks(s, e)
    ensures !SnapshotComing(Next(s, e))
  {
  }

  /** SNAPSHOT FIRST. Throughout a run no replica consumes a command before the snapshot of its last full resync,
      nor waits for one in vain, if and only if the run never cuts the link while a snapshot is owed and never
      answers a full resync from a store that cannot be serialized. */
  lemma {:induction false} SnapshotFirstIff(s: System, events: seq<Event>)
    requires Inv(s, true)
    ensures s.master.runId in s.logs
    ensures (forall k: nat :: k <= |events| ==> SnapshotComing(Run(s, events[..k]))) <==> NeverBreaks(s, events)
    decreases |events|
  {
    hide Inv, Next, Breaks, SnapshotComing;
    InvRunId(s, true);
    IntactIsComing(s);
    if events == [] {
      assert forall k: nat :: k <= |events| ==> events[..k] == [];
    } else {
      var next, rest := Next(s, events[0]), events[1..];
      forall k: nat | 0 < k <= |events| ensures Run(s, events[..k]) == Run(next, rest[..k - 1]) {
        assert events[..k][0] == events[0] && events[..k][1..] == rest[..k - 1];
      }
      assert events[..0] == [];
      if Breaks(s, events[0]) {
        BrokenIsNot(s, events[0]);
        assert rest[..0] == [];
        assert !SnapshotComing(Run(s, events[..1]));
      } else {
        StepInv(s, events[0], true);
        SnapshotFirstIff(next, rest);
        if NeverBreaks(next, rest) {
          forall k: nat | k <= |events| ensures SnapshotComing(Run(s, events[..k])) {
            if k > 0 { assert SnapshotComing(Run(next, rest[..k - 1])); }
          }
        } else {
          var k: nat :| k <= |rest| && !SnapshotComing(Run(next, rest[..k]));
          assert !SnapshotComing(Run(s, events[..k + 1]));
        }
      }
    }
  }

  lemma SnapshotFirstFromTheStart(runId: Bytes, maxBytes: nat, events: seq<Event>)
    requires RunIdOk(runId)
    ensures var s := Init(runId, maxBytes);
            (forall k: nat :: k <= |events| ==> SnapshotComing(Run(s, events[..k]))) <==> NeverBreaks(s, events)
  {
    InitInv(runId, maxBytes);
    SnapshotFirstIff(Init(runId, maxBytes), events);
  }

  lemma {:induction false} CommandsKeepLoaded(r: Replica, commands: seq<Command>)
    ensures HandleAll(r, CommandNodes(commands)).loaded == r.loaded
    ensures HandleAll(r, CommandNodes(commands)).masterRunId == r.masterRunId
    decreases |commands|
  {
    if commands != [] {
      assert CommandNodes(commands)[1..] == CommandNodes(commands[1..]);
      CommandsKeepLoaded(Handle(r, CommandNode(commands[0])), commands[1..]);
    }
  }

  /** An answer, delivered in full, leaves the replica waiting for its snapshot if and only if no delivered command
      throws and it continues one that waited before, or is a full resync from a store that cannot be serialized. */
  lemma {:induction false} AnswerLoadsIff(s: System, saving: Saving, thrown: Option<nat>)
    requires Inv(s, false) && s.link.Requested? && SavingOk(saving)
    ensures var t := Next(s, Answer(saving));
            t.link.Streaming?
            && (AwaitsSnapshot(DoDeliver(t, |t.link.pipe|, thrown).replica) <==>
                if Continues(s) then AwaitsSnapshot(s.replica) && !DeliveryThrows(t, |t.link.pipe|, thrown)
                else saving.Threw?)
            && (DeliveryThrows(t, |t.link.pipe|, thrown) ==> Continues(s))
  {
    hide Linked, ReplicaOk, HandleAll, Handle, Continues, LogOk, DoDeliver, Holds, DeliveryThrows, BreaksOff;
    var t := DoAnswer(s, saving);
    if Continues(s) {
      var to := ContinueLinks(s, saving, false);
      var commands := s.logs[s.master.runId][to..];
      var pending := [Simple(CONTINUE)] + CommandNodes(commands);
      DeliverAll(t, pending, thrown, false);
      HandleAllConcat(s.replica, [Simple(CONTINUE)], CommandNodes(commands));
      OneHandled(s.replica, Simple(CONTINUE));
      GreetingFacts(s.replica);
      CommandsKeepLoaded(s.replica, commands);
    } else {
      FullResyncLinks(s, saving, false);
      var line, node := FullResync(s.master), SavingNode(saving);
      NothingToDispatch(s.master, saving, thrown);
      DeliverAll(t, [line, node], thrown, false);
      assert [line, node] == [line] + [node];
      HandleAllConcat(s.replica, [line], [node]);
      OneHandled(s.replica, line);
      OneHandled(Handle(s.replica, line), node);
      HandleFullResync(s.replica, s.master.runId, s.master.backlog.offset, saving);
    }
  }

  /** A full resync holds no command. */
  lemma NothingToDispatch(m: Master, saving: Saving, thrown: Option<nat>)
    requires RunIdOk(m.runId) && SavingOk(saving)
    ensures !BreaksOff([FullResync(m), SavingNode(saving)], thrown)
  {
    hide FullResyncLine;
    FullResyncLineReadsBack(Replica(None, -1, [], -1, false), m.runId, m.backlog.offset);
  }

  lemma OneHandled(r: Replica, m: Node)
    ensures HandleAll(r, [m]) == Handle(r, m)
  {
    hide Handle;
    assert [m][1..] == [];
  }

  /** The master still has everything after the replica's offset. */
  predicate Covers(s: System) {
    s.replica.masterRunId == Some(s.master.runId)
    && s.master.backlog.offset - |s.master.backlog.bytes| <= s.replica.applied
  }

  /** A CUT LOSES THE SNAPSHOT. A replica that is cut off while it waits for its snapshot is still waiting after it
      has reconnected and received everything in flight, no command among it throwing, if and only if the backlog
      still covers its offset, so that it is merely continued, or the store cannot be serialized; if registered it
      is then up to date with the log all the same. */
  lemma {:induction false} CutLosesSnapshotIff(s: System, saving: Saving, thrown: Option<nat>)
    requires Inv(s, false) && AwaitsSnapshot(s.replica) && SavingOk(saving)
    ensures var t := Next(Next(Next(s, Drop), Connect), Answer(saving));
            t.link.Streaming?
            && var u := DoDeliver(t, |t.link.pipe|, thrown);
            var broken := DeliveryThrows(t, |t.link.pipe|, thrown);
            (AwaitsSnapshot(u.replica) <==> !broken && (Covers(s) || saving.Threw?))
            && (!broken && (Covers(s) || saving.Json?) ==> CaughtUp(u.replica, u.logs, u.master.runId))
  {
    hide Inv, CaughtUp, HandleAll, DoDeliver, DoAnswer, Continues, DeliveryThrows;
    CutInv(s, Drop, false);
    var s1 := Next(s, Drop);
    ConnectInv(s1, false);
    var s2 := Next(s1, Connect);
    ContinuesIffCovers(s, s2);
    AnswerLoadsIff(s2, saving, thrown);
    var t := Next(s2, Answer(saving));
    StepInv(s2, Answer(saving), false);
    DeliveringAllCatchesUp(t, thrown, false);
    AnswerRegisters(s2, saving);
  }

  lemma AnswerRegisters(s: System, saving: Saving)
    requires s.link.Requested?
    ensures DoAnswer(s, saving).link.Streaming?
    ensures DoAnswer(s, saving).link.registered <==> Continues(s) || saving.Json?
  {
  }

  lemma ContinuesIffCovers(s: System, asked: System)
    requires Inv(s, false) && s.replica.masterRunId.Some? && asked == DoConnect(s.(link := Down))
    ensures Continues(asked) <==> Covers(s)
  {
    hide Inv, ParseInt, DecimalInt;
    AppliedIsKnown(s);
    ParseIntDecimal(s.replica.applied);
    if s.replica.masterRunId == Some(s.master.runId) { AppliedIsPast(s); }
  }

  lemma AppliedIsKnown(s: System)
    requires Inv(s, false) && s.replica.masterRunId.Some?
    ensures s.replica.applied >= 0 && RunIdOk(s.replica.masterRunId.value)
  {
  }

  lemma AppliedIsPast(s: System)
    requires Inv(s, false) && s.replica.masterRunId == Some(s.master.runId)
    ensures 0 <= s.replica.applied <= s.master.backlog.offset
  {
    var log := s.logs[s.master.runId];
    var from: nat, to: nat :| Agrees(s.replica, log, from, to);
    AgreesOffset(s.replica, log, from, to);
  }

  /** Such a cut can happen: a first connection of which only the FULLRESYNC line has been delivered. */
  lemma {:induction false} AwaitingIsReachable(runId: Bytes, maxBytes: nat, saving: Saving)
    requires RunIdOk(runId) && SavingOk(saving)
    ensures var line := EncodeSimpleString(FullResyncLine(runId, 0));
            var s := Next(Next(Next(Init(runId, maxBytes), Connect), Answer(saving)), Deliver(|line|, None));
            Inv(s, false) && AwaitsSnapshot(s.replica) && Covers(s)
            && (s.link.Streaming? && (s.link.registered <==> saving.Json?))
  {
    hide Inv, Drain, Handle, Encodable, FullResyncLine, EncodeBulkString, EncodeError, ParseInt;
    var s0 := Init(runId, maxBytes);
    InitWeakInv(runId, maxBytes);
    StepInv(s0, Connect, false);
    var s1 := Next(s0, Connect);
    StepInv(s1, Answer(saving), false);
    var s2 := Next(s1, Answer(saving));
    var node := Simple(FullResyncLine(runId, 0));
    var line := EncodeSimpleString(FullResyncLine(runId, 0));
    StepInv(s2, Deliver(|line|, None), false);
    HandleFullResync(s0.replica, runId, 0, saving);
    assert s2.link.pipe[..|line|] == line;
    assert [] + line == line;
    assert EncodeAll([node]) == line + [] == line;
    DrainAll([node], line);
    OneHandled(s0.replica, node);
  }

  /** A replica that has ended starts afresh: it is never continued, none of what it is sent can throw, and it comes
      up to date unless the store cannot be serialized. */
  lemma {:induction false} EndedStartsAfresh(s: System, saving: Saving, thrown: Option<nat>)
    requires Inv(s, false) && s.replica.masterRunId == None && SavingOk(saving)
    ensures var t := Next(Next(Next(s, Drop), Connect), Answer(saving));
            t.link.Streaming?
            && !DeliveryThrows(t, |t.link.pipe|, thrown)
            && var u := DoDeliver(t, |t.link.pipe|, thrown);
            (saving.Json? ==> CaughtUp(u.replica, u.logs, u.master.runId) && !AwaitsSnapshot(u.replica))
            && (saving.Threw? ==> AwaitsSnapshot(u.replica) && !u.link.registered)
  {
    hide Inv, CaughtUp, HandleAll, DoDeliver, DoAnswer, Continues, DeliveryThrows;
    CutInv(s, Drop, false);
    var s1 := Next(s, Drop);
    ConnectInv(s1, false);
    var s2 := Next(s1, Connect);
    UnknownIsNotContinued(s2);
    AnswerLoadsIff(s2, saving, thrown);
    var t := Next(s2, Answer(saving));
    StepInv(s2, Answer(saving), false);
    DeliveringAllCatchesUp(t, thrown, false);
    AnswerRegisters(s2, saving);
  }

  lemma UnknownIsNotContinued(s: System)
    requires Inv(s, false) && s.link.Requested? && s.replica.masterRunId == None
    ensures !Continues(s)
  {
    hide ParseInt, DecimalInt;
    assert RunIdOk(s.master.runId);
  }

  // ---------- a run id used again ----------

  /** The system after its master has been restarted under the run id it had, counting from 0, and has written
      `now`, of which it holds `b`. */
  function Reused(s: System, b: Backlog, now: seq<Command>): System {
    var id := s.master.runId;
    System(Master(id, b), s.replica, Down, s.logs[id := now])
  }

  /** A REUSED RUN ID. PSYNC then continues the replica if and only if its offset, which counts in the old history,
      falls into the window of the new one; what it has consumed plays no part. */
  lemma ReusedIdContinuesIff(s: System, b: Backlog, now: seq<Command>)
    requires Inv(s, false) && s.replica.masterRunId == Some(s.master.runId) && Holds(b, Log(now))
    ensures var evicted := if |Log(now)| > b.maxBytes then |Log(now)| - b.maxBytes else 0;
            Continues(DoConnect(Reused(s, b, now))) <==> evicted <= s.replica.applied <= |Log(now)|
  {
    hide Log, ParseInt, DecimalInt, Agrees, CanContinue, Holds;
    AppliedIsKnown(s);
    ParseIntDecimal(s.replica.applied);
    ContinueIff(b, Log(now), s.master.runId, s.master.runId, Some(s.replica.applied));
    assert s.replica.masterRunId.value != [];
  }

  /** So it may be continued into another history: two writes of the same length, one before the restart and one
      after it. */
  lemma {:induction false} ReusedIdMixesHistories(id: Bytes, maxBytes: nat, one: seq<Bytes>, two: seq<Bytes>)
    requires RunIdOk(id) && one != [] && two != [] && Args(one) != Args(two)
    requires |EncodeArray(Args(one))| == |EncodeArray(Args(two))|
    ensures var log, now := [Args(one)], [Args(two)];
            var b := Append(Backlog([], 0, maxBytes), EncodeArray(Args(one)));
            var c := Append(Backlog([], 0, maxBytes), EncodeArray(Args(two)));
            var s := System(Master(id, b), Replica(Some(id), |Log(log)|, log, 0, true), Down, map[id := log]);
            Inv(s, true) && CaughtUp(s.replica, s.logs, id)
            && var t := Reused(s, c, now);
            Continues(DoConnect(t)) && !ReplicaOk(t.replica, t.logs)
  {
    hide EncodeArray, ParseInt, DecimalInt, Append, Continues, Log;
    var log, now := [Args(one)], [Args(two)];
    LogOfOne(Args(one));
    LogOfOne(Args(two));
    NoLog();
    AppendKeepsWindow(Backlog([], 0, maxBytes), Log([]), EncodeArray(Args(one)));
    AppendKeepsWindow(Backlog([], 0, maxBytes), Log([]), EncodeArray(Args(two)));
    var b := Append(Backlog([], 0, maxBytes), EncodeArray(Args(one)));
    var c := Append(Backlog([], 0, maxBytes), EncodeArray(Args(two)));
    var s := System(Master(id, b), Replica(Some(id), |Log(log)|, log, 0, true), Down, map[id := log]);
    assert log[0..1] == log && log[..1] == log && log[..0] == [];
    assert Agrees(s.replica, log, 0, 1);
    ReusedIdContinuesIff(s, c, now);
    var t := Reused(s, c, now);
    assert t.logs[id] == now;
    forall from: nat, to: nat ensures !Agrees(t.replica, now, from, to) {
      OtherHistory(t.replica, Args(one), Args(two), from, to);
    }
  }

  lemma OtherHistory(r: Replica, x: Command, y: Command, from: nat, to: nat)
    requires r.consumed == [x] && x != y
    ensures !Agrees(r, [y], from, to)
  {
    assert from <= to <= 1 && to - from == 1 ==> [y][from..to] == [y];
    assert [x][0] != [y][0];
  }

  lemma NoLog()
    ensures Log([]) == []
  {
  }

  // ---------- a dispatch that throws ----------

  lemma FirstAnswer(runId: Bytes, maxBytes: nat, saving: Saving)
    requires RunIdOk(runId) && SavingOk(saving) && saving.Json?
    ensures var s := DoConnect(Init(runId, maxBytes));
            Inv(s, false) && !Continues(s)
            && Next(s, Answer(saving)) == DoAnswer(s, saving)
            && DoAnswer(s, saving).link.Streaming? && DoAnswer(s, saving).link.registered
            && DoAnswer(s, saving).replica == s.replica && DoAnswer(s, saving).master == s.master
            && Linked(DoAnswer(s, saving), [FullResync(s.master), SavingNode(saving)], false)
  {
    hide Inv, Linked, ParseInt, FullResyncLine;
    InitWeakInv(runId, maxBytes);
    StepInv(Init(runId, maxBytes), Connect, false);
    FullResyncLinks(DoConnect(Init(runId, maxBytes)), saving, false);
  }

  /** A write on a registered link, as one step of a run. */
  lemma WriteStep(s: System, args: seq<Bytes>, pending: seq<Node>)
    requires Inv(s, false) && s.link.Streaming? && s.link.registered && args != []
    requires s.master.runId in s.logs && Linked(s, pending, false)
    ensures var t := Next(s, Write(args));
            Inv(t, false) && t.master.runId in t.logs
            && t.link.Streaming? && t.link.registered && t.replica == s.replica
            && Linked(t, pending + [CommandNode(Args(args))], false)
  {
    hide Inv, Linked, Append, EncodeArray;
    LogsAreOk(s);
    WriteInv(s, args, false);
    WriteLinks(s, args, pending, false);
    InvRunId(DoWrite(s, args), false);
  }

  lemma StartConsumes(r: Replica, m: Master, saving: Saving, args: seq<Bytes>)
    requires RunIdOk(m.runId) && SavingOk(saving) && args != []
    ensures HandleAll(r, [FullResync(m), SavingNode(saving)]).consumed == []
    ensures HandleAll(r, [FullResync(m), SavingNode(saving), CommandNode(Args(args))]).consumed == [Args(args)]
  {
    hide Handle, FullResyncLine, EncodeArray;
    var line, node, c := FullResync(m), SavingNode(saving), CommandNode(Args(args));
    HandleFullResync(r, m.runId, m.backlog.offset, saving);
    var r1 := Handle(r, line);
    var r2 := Handle(r1, node);
    OneHandled(r2, c);
    assert [line, node][1..] == [node] && [line, node, c][1..] == [node, c] && [node, c][1..] == [c];
    OneHandled(r1, node);
    OffsetCountsBytesIff(r2, Args(args), false);
  }

  lemma RunFour(s: System, s1: System, s2: System, s3: System, a: Event, b: Event, c: Event, d: Event)
    requires s.master.runId in s.logs && s1 == Next(s, a)
    requires s1.master.runId in s1.logs && s2 == Next(s1, b)
    requires s2.master.runId in s2.logs && s3 == Next(s2, c)
    requires s3.master.runId in s3.logs
    ensures Run(s, [a, b, c, d]) == Next(s3, d)
  {
    hide Next, Run;
    assert [a] + [b, c, d] == [a, b, c, d] && [b] + [c, d] == [b, c, d] && [c] + [d] == [c, d];
    RunOne(s, a, [b, c, d]);
    RunOne(s1, b, [c, d]);
    RunOne(s2, c, [d]);
    RunLast(s3, d);
  }

  lemma RunOne(s: System, e: Event, events: seq<Event>)
    requires s.master.runId in s.logs
    ensures Run(s, [e] + events) == Run(Next(s, e), events)
  {
    hide Next;
    assert ([e] + events)[1..] == events;
  }

  lemma RunLast(s: System, e: Event)
    requires s.master.runId in s.logs
    ensures Run(s, [e]) == Next(s, e)
  {
    hide Next;
    assert [e][1..] == [];
  }

  /** What is pending after a first connection and two writes. */
  lemma TwoWritesPending(runId: Bytes, maxBytes: nat, saving: Saving, one: seq<Bytes>, two: seq<Bytes>)
    requires RunIdOk(runId) && SavingOk(saving) && saving.Json? && one != [] && two != []
    ensures var m := Master(runId, Backlog([], 0, maxBytes));
            var s := Run(Init(runId, maxBytes), [Connect, Answer(saving), Write(one), Write(two)]);
            Inv(s, false) && s.master.runId in s.logs && s.link.Streaming? && s.link.registered
            && s.replica == Init(runId, maxBytes).replica
            && Linked(s, [FullResync(m), SavingNode(saving), CommandNode(Args(one)), CommandNode(Args(two))], false)
  {
    hide Inv, DoWrite, DoAnswer, DoDeliver, Linked, FullResyncLine, Continues, Run, Next;
    var s0 := Init(runId, maxBytes);
    ConnectFirst(runId, maxBytes);
    var s1 := Next(s0, Connect);
    FirstAnswer(runId, maxBytes, saving);
    StepInv(s1, Answer(saving), false);
    var s2 := Next(s1, Answer(saving));
    var line, node := FullResync(s1.master), SavingNode(saving);
    var c, d := CommandNode(Args(one)), CommandNode(Args(two));
    InvRunId(s2, false);
    WriteStep(s2, one, [line, node]);
    var s3 := Next(s2, Write(one));
    assert [line, node] + [c] == [line, node, c] && [line, node, c] + [d] == [line, node, c, d];
    WriteStep(s3, two, [line, node, c]);
    RunFour(s0, s1, s2, s3, Connect, Answer(saving), Write(one), Write(two));
  }

  lemma ConnectFirst(runId: Bytes, maxBytes: nat)
    ensures var s := Init(runId, maxBytes);
            s.master.runId in s.logs && s.master == Master(runId, Backlog([], 0, maxBytes))
            && Next(s, Connect) == DoConnect(s) && DoConnect(s).replica == s.replica
            && DoConnect(s).master == s.master && DoConnect(s).link.Requested?
            && DoConnect(s).master.runId in DoConnect(s).logs
  {
    hide DecimalInt;
  }

  /** And the end of a replica can happen, on a registered link: a first connection, two writes and one delivery, in
      which one of the two makes the dispatch throw. */
  lemma {:induction false} ThrowIsReachable(runId: Bytes, maxBytes: nat, saving: Saving, one: seq<Bytes>,
                                            two: seq<Bytes>, thrown: nat)
    requires RunIdOk(runId) && SavingOk(saving) && saving.Json? && one != [] && two != [] && thrown < 2
    ensures var s := Run(Init(runId, maxBytes), [Connect, Answer(saving), Write(one), Write(two)]);
            Inv(s, false) && s.link.Streaming? && s.link.registered
            && var t := Next(s, Deliver(|s.link.pipe|, Some(2 + thrown)));
            t.link.Down? && t.replica.masterRunId == None
            && t.replica.consumed == [Args(one), Args(two)][..thrown]
  {
    hide Inv, Append, DoAnswer, DoDeliver, Linked, Handle, HandleAll, FullResyncLine, Dispatched, Continues, Run;
    var s := Run(Init(runId, maxBytes), [Connect, Answer(saving), Write(one), Write(two)]);
    TwoWritesPending(runId, maxBytes, saving, one, two);
    var m := Master(runId, Backlog([], 0, maxBytes));
    var line, node := FullResync(m), SavingNode(saving);
    var c, d := CommandNode(Args(one)), CommandNode(Args(two));
    var all := [line, node, c, d];
    DeliverAll(s, all, Some(2 + thrown), false);
    CommandIsDispatched(one);
    CommandIsDispatched(two);
    StartConsumes(s.replica, m, saving, one);
    assert all[..2] == [line, node] && all[..3] == [line, node, c];
    assert [Args(one), Args(two)][..1] == [Args(one)];
  }
}
