/** src/server/aof.js: a log written by the encoder and replayed through the chunked parser. */
module Aof {
  import opened Wrappers
  import opened Bytes
  import opened Protocol
  import opened Commands
  import opened CommandParsing

  /** The replay loop runs only messages that are non-empty arrays of bulk strings. */
  function Executable(messages: seq<Node>): seq<Command> {
    if messages == [] then []
    else
      var later := Executable(messages[1..]);
      match ArrayNodeToStrings(messages[0])
      case Some(args) => if args == [] then later else [args] + later
      case None => later
  }

  function NonEmpty(commands: seq<Command>): seq<Command> {
    if commands == [] then []
    else if commands[0] == [] then NonEmpty(commands[1..])
    else [commands[0]] + NonEmpty(commands[1..])
  }

  lemma {:induction false} ExecutableCommands(commands: seq<Command>)
    ensures Executable(CommandNodes(commands)) == NonEmpty(commands)
  {
    if commands != [] {
      ExecutableCommands(commands[1..]);
      assert CommandNodes(commands)[1..] == CommandNodes(commands[1..]);
      StringsOfBulkNodes(commands[0]);
    }
  }

  lemma {:induction false} ExecutableConcat(a: seq<Node>, b: seq<Node>)
    ensures Executable(a + b) == Executable(a) + Executable(b)
  {
    if a == [] {
      assert a + b == b;
    } else {
      assert (a + b)[1..] == a[1..] + b;
      ExecutableConcat(a[1..], b);
    }
  }

  // ---------- a file that ends in the middle of a command ----------

  /** A TORN FILE. Of a file cut anywhere exactly the commands written whole are replayed, and what is left over
      is less than the next one. */
  lemma {:induction false} TornFileReplays(commands: seq<Command>, p: Bytes, q: Bytes) returns (j: nat)
    requires p + q == Log(commands)
    ensures j <= |commands|
    ensures Executable(Drain(p).messages) == NonEmpty(commands[..j])
    ensures p == Log(commands[..j]) + Drain(p).rest
    ensures j < |commands| ==> |p| < |Log(commands[..j + 1])|
    ensures j == |commands| ==> Drain(p).rest == []
  {
    hide Drain, EncodeAll, EncodeArray, Encode, Encodable, Executable, NonEmpty;
    var nodes := CommandNodes(commands);
    CommandsAreEncodable(commands);
    j := DrainPrefix(nodes, p, q);
    var rest := Drain(p).rest;
    assert nodes[..j] == CommandNodes(commands[..j]) && nodes[j..] == CommandNodes(commands[j..]);
    ExecutableCommands(commands[..j]);
    assert commands == commands[..j] + commands[j..];
    LogConcat(commands[..j], commands[j..]);
    Assoc(Log(commands[..j]), rest, q);
    SameEnd(p, Log(commands[..j]) + rest, q);
    if j < |commands| {
      LastOneOut(commands, j);
      WholeIsFound(commands[j], commands[j + 1..], rest, q);
    } else {
      LogOfNone();
      assert commands[j..] == [];
    }
  }

  lemma SameEnd(a: Bytes, b: Bytes, q: Bytes)
    requires a + q == b + q
    ensures a == b
  {
    assert |a| == |b|;
    assert a == (a + q)[..|a|] && b == (b + q)[..|a|];
  }

  lemma LogOfNone()
    ensures Log([]) == []
  {
  }

  lemma LastOneOut(commands: seq<Command>, j: nat)
    requires j < |commands|
    ensures Log(commands[..j + 1]) == Log(commands[..j]) + EncodeArray(commands[j])
    ensures Log(commands[j..]) == EncodeArray(commands[j]) + Log(commands[j + 1..])
  {
    hide Log, EncodeArray;
    var c := [commands[j]];
    assert commands[..j + 1] == commands[..j] + c && commands[j..] == c + commands[j + 1..];
    LogConcat(commands[..j], c);
    LogConcat(c, commands[j + 1..]);
    LogOfOne(commands[j]);
  }

  /** Bytes that hold no whole message are shorter than the first of the commands they begin. */
  lemma WholeIsFound(command: Command, more: seq<Command>, rest: Bytes, q: Bytes)
    requires rest + q == EncodeArray(command) + Log(more) && Drain(rest) == Drained([], rest)
    ensures |rest| < |EncodeArray(command)|
  {
    hide EncodeArray, Log;
    var e := EncodeArray(command);
    if |rest| >= |e| {
      var tail := rest[|e|..];
      assert rest == e + tail by {
        assert rest[..|e|] == (rest + q)[..|e|] == (e + Log(more))[..|e|] == e;
      }
      HoldsOne(command, tail);
    }
  }

  lemma HoldsOne(command: Command, tail: Bytes)
    ensures Drain(EncodeArray(command) + tail).messages != []
  {
    hide EncodeArray, Log;
    LogDrains([command]);
    LogOfOne(command);
    DrainConcat(EncodeArray(command), tail);
    assert |Drain(EncodeArray(command)).messages| == 1;
  }

  /** Appending goes on behind a torn tail, and the commands written then are read behind it. */
  lemma {:induction false} TornTailIsReadFirst(commands: seq<Command>, p: Bytes, q: Bytes, more: seq<Command>)
      returns (j: nat)
    requires p + q == Log(commands)
    ensures j <= |commands|
    ensures Executable(Drain(p + Log(more)).messages)
         == NonEmpty(commands[..j]) + Executable(Drain(Drain(p).rest + Log(more)).messages)
    ensures Drain(p).rest == [] ==>
              Executable(Drain(p + Log(more)).messages) == NonEmpty(commands[..j]) + NonEmpty(more)
  {
    hide Drain, Log, Executable, NonEmpty, CommandNodes;
    j := TornFileReplays(commands, p, q);
    DrainConcat(p, Log(more));
    ExecutableConcat(Drain(p).messages, Drain(Drain(p).rest + Log(more)).messages);
    LogDrains(more);
    ExecutableCommands(more);
    assert [] + Log(more) == Log(more);
  }

  /** A line of a star and a number is no number. */
  lemma StarLine(n: nat)
    ensures ParseInt([STAR] + DecimalInt(n)) == None && NoCrlf([STAR] + DecimalInt(n))
  {
    ParseIntDecimal(n);
  }

  lemma BulksAreEncodable(command: Command)
    ensures forall x | x in BulkNodes(command) :: Encodable(x)
  {
  }

  lemma {:induction false} BulksDoNotRun(command: Command)
    ensures Executable(BulkNodes(command)) == []
  {
    if command != [] {
      assert BulkNodes(command)[1..] == BulkNodes(command[1..]);
      BulksDoNotRun(command[1..]);
    }
  }

  /** A line first, then messages. */
  lemma DrainAfter(prefix: Byte, line: Bytes, messages: seq<Node>)
    requires NoCrlf(line) && prefix != CR && ReadLine(prefix, line).Whole?
    requires forall x | x in messages :: Encodable(x)
    ensures Drain([prefix] + line + CRLF + EncodeAll(messages)).messages == [ReadLine(prefix, line).node] + messages
  {
    hide Encode, Encodable, Parse, ReadLine;
    var t := EncodeAll(messages);
    WholeLineParses(prefix, line, t);
    assert ([prefix] + line + CRLF + t)[|line| + 3..] == t;
    DrainEncoded(messages, []);
    assert t + [] == t && messages + [] == messages;
    DrainOfNothing();
  }

  lemma DrainOfNothing()
    ensures Drain([]) == Drained([], [])
  {
  }

  lemma ErrorIsSkipped(message: Bytes, messages: seq<Node>)
    ensures Executable([Error(message)] + messages) == Executable(messages)
  {
    assert ([Error(message)] + messages)[1..] == messages;
  }

  lemma StarLineIsError(n: nat)
    ensures ReadLine(STAR, [STAR] + DecimalInt(n)).Whole? && ReadLine(STAR, [STAR] + DecimalInt(n)).node.Error?
  {
    hide ParseInt;
    StarLine(n);
  }

  /** It swallows them: behind a tail of one byte the first command appended is lost, whatever it is. */
  lemma {:induction false} TornStarLosesOne(command: Command, more: seq<Command>)
    ensures Executable(Drain([STAR] + Log([command] + more)).messages) == NonEmpty(more)
  {
    hide Drain, EncodeAll, EncodeBulks, DecimalInt, Parse, ParseInt, CommandNodes, BulkNodes, Executable, NonEmpty,
      Encodable;
    var line := [STAR] + DecimalInt(|command|);
    var bulks, nodes := BulkNodes(command), CommandNodes(more);
    var t := EncodeAll(bulks + nodes);
    LogConcat([command], more);
    LogOfOne(command);
    EncodeBulksIsEncodeAll(command);
    EncodeAllConcat(bulks, nodes);
    assert [STAR] + Log([command] + more) == [STAR] + line + CRLF + t;
    StarLine(|command|);
    StarLineIsError(|command|);
    BulksAreEncodable(command);
    CommandsAreEncodable(more);
    DrainAfter(STAR, line, bulks + nodes);
    ExecutableConcat(bulks, nodes);
    BulksDoNotRun(command);
    ExecutableCommands(more);
    ErrorIsSkipped(ReadLine(STAR, line).node.message, bulks + nodes);
  }

  /** But not always: behind a tail of two bytes, a star and the digit 1, a single word runs as if nothing had
      happened. */
  lemma TornOneLosesNothing(word: Option<Bytes>)
    ensures Executable(Drain([STAR, 49] + Log([[word]])).messages) == [[word]]
  {
    hide Drain, EncodeBulkString, Parse, Executable;
    var bulk, line := EncodeBulkString(word), [49, STAR, 49];
    LogOfOne([word]);
    var s := [STAR] + line + CRLF + bulk;
    assert [word][1..] == [] && bulk + [] == bulk;
    assert DecimalInt(1) == [49];
    assert EncodeBulks([word]) == bulk by { assert EncodeBulks([]) == []; }
    assert Log([[word]]) == [STAR] + [49] + CRLF + bulk;
    assert [STAR, 49] + Log([[word]]) == s;
    OneStarOne(line);
    LineReadsBack(STAR, line, bulk);
    BulkRoundTrip(word, []);
    ArrayOfOne(s, line, word);
    DrainOfNothing();
    OneMessage(s, Array([Bulk(word)]));
    assert [Bulk(word)] == BulkNodes([word]) && CommandNodes([[word]]) == [Array(BulkNodes([word]))];
    ExecutableCommands([[word]]);
    assert [[word]][1..] == [];
  }

  lemma OneStarOne(line: Bytes)
    requires line == [49, STAR, 49]
    ensures ParseInt(line) == Some(1) && NoCrlf(line)
  {
    assert SkipSpace(line) == line && line[1..][0] == STAR;
    assert ReadDigits(line, 0) == ReadDigits(line[1..], 1) == 1;
  }

  lemma ArrayOfOne(s: Bytes, line: Bytes, word: Option<Bytes>)
    requires s == [STAR] + line + CRLF + EncodeBulkString(word) && !StartsBlank(s) && ParseInt(line) == Some(1)
    requires CrlfIndex(s[1..]) == Some(|line|) && s[1..|line| + 1] == line
    requires s[|line| + 3..] == EncodeBulkString(word)
    requires Parse(EncodeBulkString(word) + []) == Complete(Bulk(word), |EncodeBulkString(word)|)
    ensures Parse(s) == Complete(Array([Bulk(word)]), |s|)
  {
    hide CrlfIndex, EncodeBulkString, ParseInt;
    var bulk := EncodeBulkString(word);
    assert bulk + [] == bulk && bulk[|bulk|..] == [];
    OneBulk(bulk, word);
  }

  lemma OneBulk(bulk: Bytes, word: Option<Bytes>)
    requires Parse(bulk) == Complete(Bulk(word), |bulk|)
    ensures ParseItems(bulk, 1) == Items([Bulk(word)], |bulk|)
  {
    hide Parse;
    assert ParseItems(bulk[|bulk|..], 0) == Items([], 0);
  }

  lemma OneMessage(s: Bytes, node: Node)
    requires Parse(s) == Complete(node, |s|)
    ensures Drain(s).messages == [node]
  {
    hide Parse;
    assert s[|s|..] == [];
    DrainOfNothing();
  }

  class AppendOnlyFile {
    var file: Bytes
    ghost var appended: seq<Command>

    ghost predicate Valid()
      reads this
    {
      file == Log(appended)
    }

    constructor ()
      ensures Valid() && appended == []
    {
      file, appended := [], [];
    }

    method AppendCommand(args: Command)
      requires Valid()
      modifies this
      ensures Valid() && appended == old(appended) + [args]
    {
      var payload := EncodeArrayOfBulkStrings(args);
      LogConcat(appended, [args]);
      LogOfOne(args);
      file := file + payload;
      appended := appended + [args];
    }

    /** Whatever chunks the file is read in, exactly the commands that its bytes drain to run; of a whole file these
        are the appended ones, in order. */
    method LoadAndReplay(chunks: seq<Bytes>) returns (executed: seq<Command>)
      requires Flatten(chunks) == file
      ensures executed == Executable(Drain(file).messages)
      ensures Valid() ==> executed == NonEmpty(appended)
    {
      hide Drain, CommandNodes, EncodeAll;
      var parser := new CommandParser();
      executed := [];
      ghost var messages: seq<Node> := [];
      for i := 0 to |chunks|
        invariant fresh(parser)
        invariant FeedRun([], chunks)
               == Drained(messages + FeedRun(parser.buffer, chunks[i..]).messages,
                   FeedRun(parser.buffer, chunks[i..]).rest)
        invariant executed == Executable(messages)
      {
        assert chunks[i..][0] == chunks[i] && chunks[i..][1..] == chunks[i + 1..];
        ghost var before := parser.buffer;
        var fed, _ := parser.Feed(chunks[i]);
        Assoc(messages, fed, FeedRun(parser.buffer, chunks[i + 1..]).messages);
        ExecutableConcat(messages, fed);
        messages := messages + fed;
        var ran := ExecuteAll(fed);
        executed := executed + ran;
      }
      assert messages + [] == messages;
      DrainOfNothing();
      ChunkingIsInvisible([], chunks);
      assert [] + Flatten(chunks) == file;
      LogDrains(appended);
      ExecutableCommands(appended);
    }

    method ExecuteAll(messages: seq<Node>) returns (ran: seq<Command>)
      ensures ran == Executable(messages)
    {
      ran := [];
      for i := 0 to |messages|
        invariant ran + Executable(messages[i..]) == Executable(messages)
      {
        assert messages[i..][1..] == messages[i + 1..];
        var args := ArrayNodeToStrings(messages[i]);
        if args.None? || args.value == [] { continue; }
        Assoc(ran, [args.value], Executable(messages[i + 1..]));
        ran := ran + [args.value];
      }
      assert ran + [] == ran;
    }
  }
}
