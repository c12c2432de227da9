/** The replica's side of a replication link: src/server/Server.js, the data handler of _becomeReplica. */
module Replicas {
  import opened Wrappers
  import opened Bytes
  import opened Protocol
  import opened Commands
  import opened CommandParsing

  /** `consumed`, `syncOffset` and `loaded` are history: the commands dispatched since the last full
      resync, the offset it announced, and whether its snapshot has been loaded. */
  datatype Replica = Replica(
    masterRunId: Option<Bytes>,
    applied: int,
    consumed: seq<Command>,
    syncOffset: int,
    loaded: bool)

  const FULLRESYNC: Bytes := Ascii("FULLRESYNC")
  const CONTINUE: Bytes := Ascii("CONTINUE")
  const OPEN_BRACE: Byte := 123

  predicate StartsWith(s: Bytes, prefix: Bytes) { |prefix| <= |s| && s[..|prefix|] == prefix }

  function Word(s: Bytes): (r: Bytes)
    ensures |r| <= |s| && s[..|r|] == r
    ensures |r| < |s| ==> IsSpace(s[|r|])
  {
    if s == [] || IsSpace(s[0]) then [] else
      assert s[1..][..|Word(s[1..])|] == Word(s[1..]);
      [s[0]] + Word(s[1..])
  }

  /** line.split(/\s+/) */
  function SplitFields(s: Bytes): (r: seq<Bytes>)
    ensures |r| >= 1
    decreases |s|
  {
    var w := Word(s);
    if |w| == |s| then [w] else [w] + SplitFields(SkipSpace(s[|w| + 1..]))
  }

  function StringOf(arg: Option<Bytes>): Bytes {
    match arg
    case None => Ascii("null")
    case Some(b) => b
  }

  /** arr.map(String) */
  function StringArgs(args: Command): Command {
    seq(|args|, i requires 0 <= i < |args| => Some(StringOf(args[i])))
  }

  function OnFullResync(r: Replica, line: Bytes): Replica {
    var parts := SplitFields(line);
    var id := if |parts| > 1 && parts[1] != [] then Some(parts[1]) else None;
    var off := ParseInt(if |parts| > 2 && parts[2] != [] then parts[2] else DecimalInt(-1));
    var applied := if off.Some? then off.value else -1;
    Replica(id, applied, [], applied, false)
  }

  function OnCommand(r: Replica, args: Command): Replica {
    r.(consumed := r.consumed + [args],
       applied := (if r.applied >= 0 then r.applied else 0) + |EncodeArray(StringArgs(args))|)
  }

  predicate IsSnapshot(m: Node) {
    m.Bulk? && m.value.Some? && StartsWith(m.value.value, [OPEN_BRACE])
  }

  function Handle(r: Replica, m: Node): Replica {
    if m.Simple? && StartsWith(m.line, FULLRESYNC) then OnFullResync(r, m.line)
    else if m.Simple? && StartsWith(m.line, CONTINUE) then r
    else if IsSnapshot(m) then r.(loaded := true)
    else
      match ArrayNodeToStrings(m)
      case Some(args) => if args == [] then r else OnCommand(r, args)
      case None => r
  }

  function HandleAll(r: Replica, messages: seq<Node>): Replica
    decreases |messages|
  {
    if messages == [] then r else HandleAll(Handle(r, messages[0]), messages[1..])
  }

  lemma {:induction false} HandleAllConcat(r: Replica, a: seq<Node>, b: seq<Node>)
    ensures HandleAll(r, a + b) == HandleAll(HandleAll(r, a), b)
    decreases |a|
  {
    if a == [] {
      assert a + b == b;
    } else {
      assert (a + b)[1..] == a[1..] + b;
      HandleAllConcat(Handle(r, a[0]), a[1..], b);
    }
  }

  // ---------- a dispatch that throws ----------

  /** The messages that reach `store.dispatch`, the one call of the handler that may throw. */
  predicate Dispatched(m: Node) {
    !(m.Simple? && (StartsWith(m.line, FULLRESYNC) || StartsWith(m.line, CONTINUE)))
    && !IsSnapshot(m)
    && ArrayNodeToStrings(m) !in {None, Some([])}
  }

  /** One message, of which `throws` says whether its dispatch would throw; if so, the offset does not move. */
  function Step(r: Replica, m: Node, throws: bool): Replica {
    if throws && Dispatched(m) then r else Handle(r, m)
  }

  /** Whether handling these messages is broken off at position `thrown`. */
  predicate BreaksOff(messages: seq<Node>, thrown: Option<nat>) {
    thrown.Some? && thrown.value < |messages| && Dispatched(messages[thrown.value])
  }

  /** The messages behind one that throws are lost: the parser has given them up already. */
  function HandleBatch(r: Replica, messages: seq<Node>, thrown: Option<nat>): Replica {
    HandleAll(r, if BreaksOff(messages, thrown) then messages[..thrown.value] else messages)
  }

  /** What a replica knows of its master when its process has ended, or when it is told to be a master. */
  function Ended(r: Replica): Replica { r.(masterRunId := None, applied := -1) }

  // ---------- counting what has been consumed ----------

  function Nulls(args: Command): nat {
    if args == [] then 0 else (if args[0].None? then 1 else 0) + Nulls(args[1..])
  }

  /** A null argument is counted as the word null, five bytes more than the null it was sent as. */
  lemma {:induction false} NullsCost(args: Command)
    ensures |EncodeBulks(StringArgs(args))| == |EncodeBulks(args)| + 5 * Nulls(args)
    decreases |args|
  {
    hide EncodeBulkString;
    if args != [] {
      assert StringArgs(args)[1..] == StringArgs(args[1..]);
      NullsCost(args[1..]);
      NullCosts();
    }
  }

  lemma NullCosts()
    ensures |EncodeBulkString(Some(StringOf(None)))| == |EncodeBulkString(None)| + 5
  {
    assert |DecimalInt(4)| == 1 && |DecimalInt(-1)| == 2;
  }

  lemma {:induction false} NoNulls(args: Command)
    ensures Nulls(args) == 0 <==> forall a | a in args :: a.Some?
    decreases |args|
  {
    if args != [] {
      var first, rest := args[0], args[1..];
      assert forall a :: a in args <==> a == first || a in rest;
      NoNulls(rest);
      if first.None? { assert first in args; }
    }
  }

  /** A command is consumed whatever its arguments unless its dispatch throws; the applied offset, 0 in place of an
      unknown one, moves on by exactly the bytes it was sent in if and only if it does not throw and none of its
      arguments is null. */
  lemma OffsetCountsBytesIff(r: Replica, args: Command, throws: bool)
    requires args != []
    ensures var t := Step(r, CommandNode(args), throws);
            var known := if r.applied >= 0 then r.applied else 0;
            && t.consumed == r.consumed + (if throws then [] else [args])
            && (t.masterRunId, t.syncOffset, t.loaded) == (r.masterRunId, r.syncOffset, r.loaded)
            && (t.applied == known + |Encode(CommandNode(args))| <==> !throws && forall a | a in args :: a.Some?)
  {
    hide EncodeArray, Encode, StringArgs, Nulls;
    EncodingIsNotEmpty(args);
    StringsOfBulkNodes(args);
    EncodeArrayIsEncode(args);
    NullsCost(args);
    NoNulls(args);
    ArrayLengths(args);
  }

  lemma EncodingIsNotEmpty(args: Command)
    ensures |Encode(CommandNode(args))| > 0
  {
  }

  lemma ArrayLengths(args: Command)
    ensures |EncodeArray(StringArgs(args))| - |EncodeArray(args)|
                == |EncodeBulks(StringArgs(args))| - |EncodeBulks(args)|
  {
    hide EncodeBulks, DecimalInt;
  }

  /** Nothing else is consumed: every message that is not a command leaves the offset and the commands alone, save
      the line of a full resync. */
  lemma OnlyCommandsCount(r: Replica, m: Node)
    requires ArrayNodeToStrings(m) in {None, Some([])} && !(m.Simple? && StartsWith(m.line, FULLRESYNC))
    ensures Handle(r, m) == r.(loaded := r.loaded || IsSnapshot(m))
  {
  }

  // ---------- the resync line ----------

  /** Run ids are non-empty words (forty hexadecimal digits unless configured), and never "?". */
  predicate RunIdOk(id: Bytes) {
    id != [] && id != NO_RUN_ID && forall b | b in id :: !IsSpace(b)
  }

  const NO_RUN_ID: Bytes := [63]

  function FullResyncLine(id: Bytes, offset: nat): Bytes {
    FULLRESYNC + [SPACE] + (id + [SPACE] + Decimal(offset))
  }

  lemma {:induction false} WordEndsAtSpace(w: Bytes, t: Bytes)
    requires forall b | b in w :: !IsSpace(b)
    requires t != [] ==> IsSpace(t[0])
    ensures Word(w + t) == w
  {
    if w == [] {
      assert w + t == t;
    } else {
      assert (w + t)[1..] == w[1..] + t;
      WordEndsAtSpace(w[1..], t);
    }
  }

  lemma {:induction false} SplitFirstField(w: Bytes, rest: Bytes)
    requires forall b | b in w :: !IsSpace(b)
    requires rest != [] && !IsSpace(rest[0])
    ensures SplitFields(w + [SPACE] + rest) == [w] + SplitFields(rest)
  {
    var s := w + [SPACE] + rest;
    assert s == w + ([SPACE] + rest);
    WordEndsAtSpace(w, [SPACE] + rest);
    assert s[|w| + 1..] == rest;
  }

  /** The line a master writes is split into exactly the id and the offset it was built from. */
  lemma {:induction false} FullResyncLineReadsBack(r: Replica, id: Bytes, offset: nat)
    requires RunIdOk(id)
    ensures StartsWith(FullResyncLine(id, offset), FULLRESYNC)
    ensures NoCrlf(FullResyncLine(id, offset))
    ensures OnFullResync(r, FullResyncLine(id, offset)) == Replica(Some(id), offset, [], offset, false)
  {
    hide Decimal, ParseInt, SkipSpace, Word;
    var digits := Decimal(offset);
    var tail := id + [SPACE] + digits;
    var line := FullResyncLine(id, offset);
    assert line[..|FULLRESYNC|] == FULLRESYNC;
    assert NoCrlf(line) by {
      forall i | 0 <= i < |line| ensures line[i] != CR {
        var n := |FULLRESYNC|;
        if i < n { assert FULLRESYNC == [70, 85, 76, 76, 82, 69, 83, 89, 78, 67]; }
        else if n < i < n + 1 + |id| { assert line[i] == id[i - n - 1] && id[i - n - 1] in id; }
        else if n + 1 + |id| < i { assert line[i] == digits[i - n - 2 - |id|]; }
      }
    }
    SplitFirstField(FULLRESYNC, tail);
    SplitFirstField(id, digits);
    WordEndsAtSpace(digits, []);
    assert digits + [] == digits;
    ParseIntDecimal(offset);
  }

  class ReplicaSession {
    var masterRunId: Option<Bytes>
    var replAppliedOffset: int
    ghost var consumed: seq<Command>
    ghost var syncOffset: int
    ghost var loaded: bool
    const parser: CommandParser

    ghost function State(): Replica
      reads this
    {
      Replica(masterRunId, replAppliedOffset, consumed, syncOffset, loaded)
    }

    constructor (masterRunId: Option<Bytes>, applied: int)
      ensures fresh(parser) && parser.buffer == []
      ensures State() == Replica(masterRunId, applied, [], applied, false)
    {
      this.masterRunId, replAppliedOffset := masterRunId, applied;
      consumed, syncOffset, loaded := [], applied, false;
      parser := new CommandParser();
    }

    /** One chunk from the socket: the messages it completes are handled in order, up to one whose dispatch throws,
        `thrown` naming its position. */
    method OnData(chunk: Bytes, thrown: Option<nat>) returns (threw: bool)
      modifies this, parser
      ensures threw == BreaksOff(Drain(old(parser.buffer) + chunk).messages, thrown)
      ensures State() == HandleBatch(old(State()), Drain(old(parser.buffer) + chunk).messages, thrown)
      ensures parser.buffer == Drain(old(parser.buffer) + chunk).rest
    {
      hide Handle, Drain, Dispatched;
      var msgs, _ := parser.Feed(chunk);
      ghost var end := if BreaksOff(msgs, thrown) then thrown.value else |msgs|;
      ghost var goal := HandleAll(State(), msgs[..end]);
      assert msgs[..|msgs|] == msgs && msgs[0..end] == msgs[..end];
      threw := false;
      for i := 0 to |msgs|
        invariant i <= end
        invariant HandleAll(State(), msgs[i..end]) == goal
        invariant parser.buffer == Drain(old(parser.buffer) + chunk).rest
      {
        if i < end { assert msgs[i..end][0] == msgs[i] && msgs[i..end][1..] == msgs[i + 1..end]; }
        threw := OnMessage(msgs[i], thrown == Some(i));
        if threw { return; }
      }
    }

    method OnMessage(m: Node, throws: bool) returns (threw: bool)
      modifies `masterRunId, `replAppliedOffset, `consumed, `syncOffset, `loaded
      ensures State() == Step(old(State()), m, throws)
      ensures threw == (throws && Dispatched(m))
    {
      threw := false;
      if m.Simple? {
        if StartsWith(m.line, FULLRESYNC) {
          var parts := SplitFields(m.line);
          masterRunId := if |parts| > 1 && parts[1] != [] then Some(parts[1]) else None;
          var off := ParseInt(if |parts| > 2 && parts[2] != [] then parts[2] else DecimalInt(-1));
          replAppliedOffset := if off.Some? then off.value else -1;
          consumed, syncOffset, loaded := [], replAppliedOffset, false;
          return;
        }
        if StartsWith(m.line, CONTINUE) { return; }
      }
      if IsSnapshot(m) {
        loaded := true;
        return;
      }
      var arr := ArrayNodeToStrings(m);
      if arr.Some? && |arr.value| > 0 {
        if throws { return true; }
        var payload := EncodeArrayOfBulkStrings(StringArgs(arr.value));
        replAppliedOffset := (if replAppliedOffset >= 0 then replAppliedOffset else 0) + |payload|;
        consumed := consumed + [arr.value];
      }
    }
  }
}
