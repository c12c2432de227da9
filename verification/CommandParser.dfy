/** The stateful parser of src/core/protocol.js, proved against the functions of module Protocol. */
module CommandParsing {
  import opened Wrappers
  import AsWritten
  import opened Bytes
  import opened Protocol

  /** `nodes` are the first `i` of `count` elements of `s`, and `used` bytes long. */
  ghost predicate ReadSoFar(s: Bytes, count: int, i: int, nodes: seq<Node>, used: nat) {
    used <= |s| &&
    match ParseItems(s[used..], count - i)
    case Items(more, size) => ParseItems(s, count) == Items(nodes + more, used + size)
    case stopped => ParseItems(s, count) == stopped
  }

  lemma ReadOne(s: Bytes, count: int, i: int, nodes: seq<Node>, used: nat)
    requires i < count && ReadSoFar(s, count, i, nodes, used)
    ensures match Parse(s[used..])
            case Incomplete => ParseItems(s, count) == ItemsIncomplete
            case Runaway => ParseItems(s, count) == ItemsRunaway
            case Complete(node, c) => ReadSoFar(s, count, i + 1, nodes + [node], used + c)
  {
    hide Parse;
    var parsed := Parse(s[used..]);
    if parsed.Complete? {
      assert s[used..][parsed.consumed..] == s[used + parsed.consumed..];
      var later := ParseItems(s[used + parsed.consumed..], count - i - 1);
      if later.Items? {
        Assoc(nodes, [parsed.node], later.nodes);
      }
    }
  }

  lemma ReadAll(s: Bytes, count: int, i: int, nodes: seq<Node>, used: nat)
    requires count <= i && ReadSoFar(s, count, i, nodes, used)
    ensures ParseItems(s, count) == Items(nodes, used)
  {
  }

  class CommandParser {
    var buffer: Bytes

    constructor ()
      ensures buffer == []
    {
      buffer := [];
    }

    /** Appends `data` and returns every message that is now complete. `cut` says that a runaway header comes
        next: from there on the program's loop need not end (AsWritten.RunsForeverIff), so this one stops. Up to
        there it has done what the program does, and without such a header all of it. */
    method Feed(data: Bytes) returns (messages: seq<Node>, cut: bool)
      modifies this
      ensures Drained(messages, buffer) == Drain(old(buffer) + data)
      ensures cut <==> Parse(buffer).Runaway?
      ensures AsWritten.LoopReaches(old(buffer) + data, messages, buffer)
      ensures !cut ==> AsWritten.LoopEnds(old(buffer) + data, messages, buffer)
    {
      hide Parse, AsWritten.LoopReaches, AsWritten.LoopEnds;
      buffer := buffer + data;
      ghost var whole := buffer;
      messages, cut := [], false;
      while true
        invariant Drain(whole) == Drained(messages + Drain(buffer).messages, Drain(buffer).rest)
        decreases |buffer|
      {
        var parsed := ParseNext(0);
        assert buffer[0..] == buffer;
        if !parsed.Complete? {
          assert messages + [] == messages;
          cut := parsed.Runaway?;
          break;
        }
        Assoc(messages, [parsed.node], Drain(buffer[parsed.consumed..]).messages);
        messages := messages + [parsed.node];
        buffer := buffer[parsed.consumed..];
      }
      AsWritten.DrainIsTheLoop(whole);
    }

    method ParseNext(offset: nat) returns (r: Parsed)
      requires offset <= |buffer|
      ensures r == Parse(buffer[offset..])
      decreases |buffer| - offset, 1
    {
      hide CrlfIndex, ParseInt, ParseItems, FaultText, StripErr;
      if offset == |buffer| { return Incomplete; }
      var prefix := buffer[offset];
      ghost var s := buffer[offset..];
      if prefix == STAR {
        r := ParseArray(offset);
        return;
      }
      if prefix !in [PLUS, MINUS, DOLLAR, COLON] {
        // The line of an unknown prefix starts at the prefix itself.
        var idx := IndexOfCrlf(offset);
        LineFromPrefix(s);
        if idx == -1 || idx == offset { return Incomplete; }
        return Complete(Error(FaultText(UnknownPrefix(prefix))), idx - offset + 2);
      }
      var idx := IndexOfCrlf(offset + 1);
      assert buffer[offset + 1..] == s[1..];
      if idx == -1 { return Incomplete; }
      var line := buffer[offset + 1..idx];
      var header := idx - offset + 2;
      assert line == s[1..CrlfIndex(s[1..]).value + 1];
      if prefix == PLUS { return Complete(Simple(line), header); }
      if prefix == MINUS { return Complete(Error(StripErr(line)), header); }
      var number := ParseInt(line);
      if prefix == COLON {
        return Complete(if number.None? then Error(FaultText(InvalidInteger)) else Integer(number.value), header);
      }
      if number.None? { return Complete(Error(FaultText(InvalidBulkLength)), header); }
      if number.value == -1 { return Complete(Bulk(None), header); }
      r := ParseBulk(buffer[offset..], header, number.value);
    }

    method ParseArray(offset: nat) returns (r: Parsed)
      requires offset < |buffer| && buffer[offset] == STAR
      ensures r == Parse(buffer[offset..])
      decreases |buffer| - offset, 0
    {
      hide CrlfIndex, ParseInt, ParseItems, FaultText, StripErr;
      ghost var s := buffer[offset..];
      var idx := IndexOfCrlf(offset + 1);
      assert buffer[offset + 1..] == s[1..];
      if idx == -1 { return Incomplete; }
      var line := buffer[offset + 1..idx];
      var header := idx - offset + 2;
      assert line == s[1..CrlfIndex(s[1..]).value + 1];
      var number := ParseInt(line);
      if number.None? { return Complete(Error(FaultText(InvalidArrayLength)), header); }
      if number.value == -1 { return Complete(NullArray, header); }
      assert s[header..] == buffer[offset + header..];
      var items := ParseElements(offset + header, number.value);
      match items
      case ItemsIncomplete => return Incomplete;
      case ItemsRunaway => return Runaway;
      case Items(nodes, size) => return Complete(Array(nodes), header + size);
    }

    /** The element loop of `_parseArray`. */
    method ParseElements(first: nat, count: int) returns (r: ParsedItems)
      requires first <= |buffer|
      ensures r == ParseItems(buffer[first..], count)
      decreases |buffer| - first, 2
    {
      hide Parse;
      ghost var s := buffer[first..];
      assert s[0..] == s;
      var consumed := first;
      var items := [];
      var i := 0;
      while i < count
        invariant first <= consumed <= |buffer|
        invariant ReadSoFar(s, count, i, items, consumed - first)
      {
        assert buffer[consumed..] == s[consumed - first..];
        var parsed := ParseNext(consumed);
        ReadOne(s, count, i, items, consumed - first);
        if !parsed.Complete? { return if parsed.Incomplete? then ItemsIncomplete else ItemsRunaway; }
        items := items + [parsed.node];
        consumed := consumed + parsed.consumed;
        i := i + 1;
      }
      ReadAll(s, count, i, items, consumed - first);
      r := Items(items, consumed - first);
    }

    /** Position of the first CR LF at or after `offset`, -1 when there is none. */
    method IndexOfCrlf(offset: nat) returns (idx: int)
      requires offset <= |buffer|
      ensures idx == -1 <==> CrlfIndex(buffer[offset..]).None?
      ensures idx != -1 ==> idx == offset + CrlfIndex(buffer[offset..]).value
    {
      var i := offset;
      while i < |buffer| - 1
        invariant offset <= i <= |buffer|
        invariant CrlfIndex(buffer[offset..]).None? <==> CrlfIndex(buffer[i..]).None?
        invariant CrlfIndex(buffer[i..]).Some? ==>
                    CrlfIndex(buffer[offset..]).value == i - offset + CrlfIndex(buffer[i..]).value
      {
        if buffer[i] == CR && buffer[i + 1] == LF { return i; }
        assert buffer[i..][1..] == buffer[i + 1..];
        i := i + 1;
      }
      idx := -1;
    }
  }
}
