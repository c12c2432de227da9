/** Commands, and logs of commands as the append-only file and the replication stream carry them. */
module Commands {
  import opened Wrappers
  import opened Bytes
  import opened Protocol

  type Command = seq<Option<Bytes>>

  function CommandNode(args: Command): Node { Array(BulkNodes(args)) }

  function CommandNodes(commands: seq<Command>): (r: seq<Node>)
    ensures |r| == |commands|
    ensures forall i :: 0 <= i < |r| ==> r[i] == CommandNode(commands[i])
  {
    seq(|commands|, i requires 0 <= i < |commands| => CommandNode(commands[i]))
  }

  /** The bytes of these commands, one after the other: an append-only file, or a replication history. */
  function Log(commands: seq<Command>): Bytes { EncodeAll(CommandNodes(commands)) }

  lemma {:induction false} LogConcat(a: seq<Command>, b: seq<Command>)
    ensures Log(a + b) == Log(a) + Log(b)
  {
    assert CommandNodes(a + b) == CommandNodes(a) + CommandNodes(b);
    EncodeAllConcat(CommandNodes(a), CommandNodes(b));
  }

  lemma {:induction false} LogOfOne(args: Command)
    ensures Log([args]) == EncodeArray(args)
  {
    hide EncodeArray, Encode;
    EncodeArrayIsEncode(args);
    var nodes := CommandNodes([args]);
    assert nodes == [CommandNode(args)] && nodes[1..] == [];
    assert EncodeAll(nodes) == Encode(nodes[0]) + EncodeAll([]) == EncodeArray(args) + [];
  }

  lemma {:induction false} CommandsAreEncodable(commands: seq<Command>)
    ensures forall x | x in CommandNodes(commands) :: Encodable(x)
  {
  }

  /** A log drains to its own commands and leaves nothing unread. */
  lemma {:induction false} LogDrains(commands: seq<Command>)
    ensures Drain(Log(commands)) == Drained(CommandNodes(commands), [])
  {
    CommandsAreEncodable(commands);
    DrainEncoded(CommandNodes(commands), []);
    assert Log(commands) + [] == Log(commands);
    assert Drain([]) == Drained([], []);
    assert CommandNodes(commands) + [] == CommandNodes(commands);
  }
}
