/** RESP2 (Redis serialization protocol specification): encoders, the incremental parser and its laws. */
module Protocol {
  import opened Wrappers
  import opened Bytes

  datatype Node =
    | Simple(line: Bytes)
    | Error(message: Bytes)
    | Integer(num: int)
    | Bulk(value: Option<Bytes>)
    | NullArray
    | Array(items: seq<Node>)

  // ---------- encoders ----------

  const PLUS: Byte := 43
  const MINUS: Byte := 45
  const COLON: Byte := 58
  const DOLLAR: Byte := 36
  const STAR: Byte := 42

  const ERR: Bytes := Ascii("ERR ")

  function EncodeSimpleString(line: Bytes): Bytes { [PLUS] + line + CRLF }

  function EncodeError(message: Bytes): Bytes { [MINUS] + (ERR + message) + CRLF }

  function EncodeInteger(num: int): Bytes { [COLON] + DecimalInt(num) + CRLF }

  function EncodeBulkString(value: Option<Bytes>): Bytes {
    match value
    case None => [DOLLAR] + DecimalInt(-1) + CRLF
    case Some(b) => [DOLLAR] + DecimalInt(|b|) + CRLF + (b + CRLF)
  }

  function EncodeBulks(arr: seq<Option<Bytes>>): Bytes {
    if arr == [] then [] else EncodeBulkString(arr[0]) + EncodeBulks(arr[1..])
  }

  function EncodeArray(arr: seq<Option<Bytes>>): Bytes {
    [STAR] + DecimalInt(|arr|) + CRLF + EncodeBulks(arr)
  }

  method EncodeArrayOfBulkStrings(arr: seq<Option<Bytes>>) returns (out: Bytes)
    ensures out == EncodeArray(arr)
  {
    hide EncodeBulkString, DecimalInt;
    out := [STAR] + DecimalInt(|arr|) + CRLF;
    for i := 0 to |arr|
      invariant out + EncodeBulks(arr[i..]) == EncodeArray(arr)
    {
      assert arr[i..][0] == arr[i] && arr[i..][1..] == arr[i + 1..];
      assert out + (EncodeBulkString(arr[i]) + EncodeBulks(arr[i + 1..]))
          == out + EncodeBulkString(arr[i]) + EncodeBulks(arr[i + 1..]);
      out := out + EncodeBulkString(arr[i]);
    }
    assert out + [] == out;
  }

  /** Any reply, including the nested arrays that command handlers assemble by hand. */
  function Encode(node: Node): Bytes {
    match node
    case Simple(line) => EncodeSimpleString(line)
    case Error(message) => EncodeError(message)
    case Integer(num) => EncodeInteger(num)
    case Bulk(value) => EncodeBulkString(value)
    case NullArray => [STAR] + DecimalInt(-1) + CRLF
    case Array(items) => [STAR] + DecimalInt(|items|) + CRLF + EncodeAll(items)
  }

  function EncodeAll(nodes: seq<Node>): Bytes {
    if nodes == [] then [] else Encode(nodes[0]) + EncodeAll(nodes[1..])
  }

  /** A reply survives the wire exactly when its simple and error lines hold no CR LF (RoundTripIff). */
  ghost predicate Encodable(node: Node) {
    match node
    case Simple(line) => NoCrlf(line)
    case Error(message) => NoCrlf(message)
    case Integer(_) => true
    case Bulk(_) => true
    case NullArray => true
    case Array(items) => forall x | x in items :: Encodable(x)
  }

  // ---------- what one parse step means, on the unread bytes ----------

  /** Runaway: a bulk header so negative that header plus length lies before the element. What the program does
      from there on is in module AsWritten. */
  datatype Parsed = Incomplete | Complete(node: Node, consumed: nat) | Runaway

  datatype ParsedItems = ItemsIncomplete | Items(nodes: seq<Node>, size: nat) | ItemsRunaway

  function StripErr(line: Bytes): Bytes {
    if |line| >= 4 && line[..4] == ERR then line[4..] else line
  }

  datatype Fault = UnknownPrefix(prefix: Byte) | InvalidInteger | InvalidBulkLength | InvalidArrayLength

  function FaultText(fault: Fault): Bytes {
    match fault
    case UnknownPrefix(prefix) => Ascii("Protocol error: unknown prefix '") + [prefix] + Ascii("'")
    case InvalidInteger => Ascii("Protocol error: invalid integer")
    case InvalidBulkLength => Ascii("Protocol error: invalid bulk length")
    case InvalidArrayLength => Ascii("Protocol error: invalid array length")
  }

  /** What a first line says: a whole element, or the head of a longer one. */
  datatype Head = Whole(node: Node) | BulkHead(length: int) | ArrayHead(count: int)

  function ReadLine(prefix: Byte, line: Bytes): (r: Head)
  {
    if prefix == PLUS then Whole(Simple(line))
    else if prefix == MINUS then Whole(Error(StripErr(line)))
    else if prefix == COLON then
      match ParseInt(line)
      case None => Whole(Error(FaultText(InvalidInteger)))
      case Some(n) => Whole(Integer(n))
    else if prefix == DOLLAR then
      match ParseInt(line)
      case None => Whole(Error(FaultText(InvalidBulkLength)))
      case Some(n) => if n == -1 then Whole(Bulk(None)) else BulkHead(n)
    else if prefix == STAR then
      match ParseInt(line)
      case None => Whole(Error(FaultText(InvalidArrayLength)))
      case Some(n) => if n == -1 then Whole(NullArray) else ArrayHead(n)
    else Whole(Error(FaultText(UnknownPrefix(prefix))))
  }
  /** A line may start with the CR LF that ends it: the source reads such an empty line as a missing one. */
  predicate StartsBlank(s: Bytes) { |s| >= 2 && s[0] == CR && s[1] == LF }

  lemma LineFromPrefix(s: Bytes)
    requires s != []
    ensures CrlfIndex(s) == (if StartsBlank(s) then Some(0)
                             else match CrlfIndex(s[1..]) case None => None case Some(i) => Some(i + 1))
  {
  }

  /** The end of the content counts from the header; a negative length leaves the content empty. */
  function ParseBulk(s: Bytes, header: nat, length: int): (r: Parsed)
    requires 3 <= header <= |s|
    ensures r.Complete? ==> 2 <= r.consumed <= |s|
  {
    if header + length < 0 then Runaway
    else if |s| < header + length + 2 then Incomplete
    else Complete(Bulk(Some(if length < 0 then [] else s[header..header + length])), header + length + 2)
  }

  function Parse(s: Bytes): (r: Parsed)
    ensures r.Complete? ==> 2 <= r.consumed <= |s|
    decreases |s|, 0
  {
    if s == [] || StartsBlank(s) then Incomplete
    else
      match CrlfIndex(s[1..])
      case None => Incomplete
      case Some(i) =>
        var header := i + 3;
        match ReadLine(s[0], s[1..i + 1])
        case Whole(node) => Complete(node, header)
        case BulkHead(length) => ParseBulk(s, header, length)
        case ArrayHead(count) =>
          match ParseItems(s[header..], count)
          case ItemsIncomplete => Incomplete
          case ItemsRunaway => Runaway
          case Items(nodes, size) => Complete(Array(nodes), header + size)
  }

  /** `count` consecutive elements; a negative count reads none. */
  function ParseItems(s: Bytes, count: int): (r: ParsedItems)
    ensures r.Items? ==> r.size <= |s| && |r.nodes| == if count < 0 then 0 else count
    decreases |s|, 1, count
  {
    if count <= 0 then Items([], 0)
    else
      match Parse(s)
      case Incomplete => ItemsIncomplete
      case Runaway => ItemsRunaway
      case Complete(node, c) =>
        match ParseItems(s[c..], count - 1)
        case ItemsIncomplete => ItemsIncomplete
        case ItemsRunaway => ItemsRunaway
        case Items(nodes, size) => Items([node] + nodes, c + size)
  }

  /** What `feed` returns, and the bytes it keeps. */
  datatype Drained = Drained(messages: seq<Node>, rest: Bytes)

  function Drain(buffer: Bytes): (r: Drained)
    decreases |buffer|
  {
    match Parse(buffer)
    case Complete(node, c) =>
      var d := Drain(buffer[c..]);
      Drained([node] + d.messages, d.rest)
    case _ => Drained([], buffer)
  }

  // ---------- prefix stability and chunking ----------

  /** More input never changes an answer already given. */
  lemma {:induction false} ParseExtend(s: Bytes, t: Bytes)
    requires !Parse(s).Incomplete?
    ensures Parse(s + t) == Parse(s)
    decreases |s|, 0, 0
  {
    hide CrlfIndex, ReadLine, ParseItems;
    var u := s + t;
    var i := CrlfIndex(s[1..]).value;
    var header := i + 3;
    assert u[1..] == s[1..] + t;
    CrlfIndexExtend(s[1..], t);
    assert u[1..i + 1] == s[1..i + 1];
    match ReadLine(s[0], s[1..i + 1])
    case Whole(_) =>
    case BulkHead(length) =>
      if length >= 0 && header + length + 2 <= |s| {
        assert u[header..header + length] == s[header..header + length];
      }
    case ArrayHead(count) =>
      assert u[header..] == s[header..] + t;
      ParseItemsExtend(s[header..], t, count);
  }

  lemma {:induction false} ParseItemsExtend(s: Bytes, t: Bytes, count: int)
    requires !ParseItems(s, count).ItemsIncomplete?
    ensures ParseItems(s + t, count) == ParseItems(s, count)
    decreases |s|, 1, count
  {
    hide Parse;
    if count > 0 {
      var first := Parse(s);
      if first.Complete? {
        var s' := s[first.consumed..];
        assert (s + t)[first.consumed..] == s' + t;
        ParseItemsExtend(s', t, count - 1);
      }
      ParseExtend(s, t);
    }
  }

  /** Chunking: draining `a` and then the leftover with `b` is draining `a + b`. */
  lemma {:induction false} DrainConcat(a: Bytes, b: Bytes)
    ensures Drain(a + b) == Drained(Drain(a).messages + Drain(Drain(a).rest + b).messages,
                                    Drain(Drain(a).rest + b).rest)
    decreases |a|
  {
    hide Parse;
    if Parse(a).Complete? {
      ParseExtend(a, b);
      var c := Parse(a).consumed;
      assert (a + b)[c..] == a[c..] + b;
      DrainConcat(a[c..], b);
      assert [Parse(a).node] + (Drain(a[c..]).messages + Drain(Drain(a[c..]).rest + b).messages)
          == [Parse(a).node] + Drain(a[c..]).messages + Drain(Drain(a[c..]).rest + b).messages;
    }
  }

  /** What is left after a drain holds no further complete message. */
  lemma {:induction false} DrainLeavesNoMessage(a: Bytes)
    ensures !Parse(Drain(a).rest).Complete?
    ensures Drain(Drain(a).rest) == Drained([], Drain(a).rest)
    decreases |a|
  {
    hide Parse;
    if Parse(a).Complete? {
      DrainLeavesNoMessage(a[Parse(a).consumed..]);
    }
  }

  function Flatten(chunks: seq<Bytes>): Bytes {
    if chunks == [] then [] else chunks[0] + Flatten(chunks[1..])
  }

  /** The messages of a run of `feed` calls that starts with `buffer` unread. */
  function FeedRun(buffer: Bytes, chunks: seq<Bytes>): Drained
    decreases |chunks|
  {
    if chunks == [] then Drained([], buffer)
    else
      var first := Drain(buffer + chunks[0]);
      var later := FeedRun(first.rest, chunks[1..]);
      Drained(first.messages + later.messages, later.rest)
  }

  /** However a stream is cut into chunks, the run returns the messages of the whole stream. */
  lemma {:induction false} ChunkingIsInvisible(buffer: Bytes, chunks: seq<Bytes>)
    requires Drain(buffer) == Drained([], buffer)
    ensures FeedRun(buffer, chunks) == Drain(buffer + Flatten(chunks))
    decreases |chunks|
  {
    hide Drain;
    if chunks == [] {
      assert buffer + [] == buffer;
    } else {
      var head, tail := buffer + chunks[0], chunks[1..];
      var more := Flatten(tail);
      assert buffer + Flatten(chunks) == head + more;
      DrainConcat(head, more);
      DrainLeavesNoMessage(head);
      ChunkingIsInvisible(Drain(head).rest, tail);
    }
  }

  // ---------- encode, then parse ----------

  lemma Assoc<T>(a: seq<T>, b: seq<T>, c: seq<T>)
    ensures (a + b) + c == a + (b + c)
  {
  }

  /** A first line without CR LF inside is found whole, and `t` is what follows it. */
  lemma {:induction false} LineReadsBack(prefix: Byte, line: Bytes, t: Bytes)
    requires NoCrlf(line) && prefix != CR
    ensures var s := [prefix] + line + CRLF + t;
            !StartsBlank(s) && s[0] == prefix
            && CrlfIndex(s[1..]) == Some(|line|)
            && s[1..|line| + 1] == line
            && s[|line| + 3..] == t
  {
    hide CrlfIndex;
    var s := [prefix] + line + CRLF + t;
    assert s[1..] == line + CRLF + t;
    CrlfIndexOfLine(line, t);
  }

  lemma {:induction false} HeaderReadsBack(prefix: Byte, n: int, t: Bytes)
    requires prefix != CR
    ensures var s := [prefix] + DecimalInt(n) + CRLF + t;
            !StartsBlank(s) && s[0] == prefix
            && CrlfIndex(s[1..]) == Some(|DecimalInt(n)|)
            && s[1..|DecimalInt(n)| + 1] == DecimalInt(n)
            && s[|DecimalInt(n)| + 3..] == t
    ensures ParseInt(DecimalInt(n)) == Some(n)
  {
    hide DecimalInt, ParseInt, CrlfIndex;
    ParseIntDecimal(n);
    LineReadsBack(prefix, DecimalInt(n), t);
  }

  lemma {:induction false} BulkRoundTrip(value: Option<Bytes>, t: Bytes)
    ensures Parse(EncodeBulkString(value) + t) == Complete(Bulk(value), |EncodeBulkString(value)|)
  {
    hide DecimalInt, ParseInt, CrlfIndex, ParseItems;
    match value
    case None =>
      HeaderReadsBack(DOLLAR, -1, t);
    case Some(b) =>
      var s := EncodeBulkString(value) + t;
      assert s == [DOLLAR] + DecimalInt(|b|) + CRLF + (b + CRLF + t);
      HeaderReadsBack(DOLLAR, |b|, b + CRLF + t);
      var header := |DecimalInt(|b|)| + 3;
      assert s[header..][..|b|] == b;
      assert s[header..header + |b|] == s[header..][..|b|];
  }

  lemma {:induction false} WholeLineParses(prefix: Byte, line: Bytes, t: Bytes)
    requires NoCrlf(line) && prefix != CR && ReadLine(prefix, line).Whole?
    ensures Parse([prefix] + line + CRLF + t) == Complete(ReadLine(prefix, line).node, |line| + 3)
  {
    hide ParseInt, CrlfIndex, ParseItems;
    LineReadsBack(prefix, line, t);
  }

  /** A line that reads back as itself holds no CR LF, because parsing stops at the first one. */
  lemma {:induction false} ParsedLineHasNoCrlf(s: Bytes)
    ensures Parse(s).Complete? && Parse(s).node.Simple? ==> NoCrlf(Parse(s).node.line)
    ensures Parse(s).Complete? && Parse(s).node.Error? && s[0] == MINUS ==> NoCrlf(Parse(s).node.message)
  {
    hide CrlfIndex, ParseInt, ParseItems;
    if s != [] && CrlfIndex(s[1..]).Some? {
      var i := CrlfIndex(s[1..]).value;
      var line := s[1..i + 1];
      assert line == s[1..][..i];
      CrlfIndexIsFirst(s[1..]);
      assert |line| >= 4 ==> NoCrlf(line[4..]);
    }
  }

  lemma {:induction false} LineRoundTrip(node: Node, t: Bytes)
    requires node.Simple? || node.Error?
    ensures Encodable(node) ==> Parse(Encode(node) + t) == Complete(node, |Encode(node)|)
    ensures Parse(Encode(node) + t).Complete? && Parse(Encode(node) + t).node == node ==> Encodable(node)
  {
    hide Parse;
    ParsedLineHasNoCrlf(Encode(node) + t);
    if Encodable(node) {
      if node.Simple? {
        WholeLineParses(PLUS, node.line, t);
      } else {
        var line := ERR + node.message;
        assert line[4..] == node.message && line[..4] == ERR;
        assert NoCrlf(line);
        WholeLineParses(MINUS, line, t);
      }
    }
  }

  lemma {:induction false} IntegerRoundTrip(num: int, t: Bytes)
    ensures Parse(EncodeInteger(num) + t) == Complete(Integer(num), |EncodeInteger(num)|)
  {
    hide DecimalInt, ParseInt, Parse;
    ParseIntDecimal(num);
    WholeLineParses(COLON, DecimalInt(num), t);
  }

  lemma {:induction false} NullArrayRoundTrip(t: Bytes)
    ensures Parse(Encode(NullArray) + t) == Complete(NullArray, |Encode(NullArray)|)
  {
    hide DecimalInt, ParseInt, Parse;
    ParseIntDecimal(-1);
    WholeLineParses(STAR, DecimalInt(-1), t);
  }

  lemma {:induction false} ArrayHeadParses(count: nat, t: Bytes)
    ensures Parse([STAR] + DecimalInt(count) + CRLF + t) ==
            match ParseItems(t, count)
            case ItemsIncomplete => Incomplete
            case ItemsRunaway => Runaway
            case Items(nodes, size) => Complete(Array(nodes), |DecimalInt(count)| + 3 + size)
  {
    hide DecimalInt, ParseInt, CrlfIndex, ParseItems;
    HeaderReadsBack(STAR, count, t);
  }

  /** Exactly the encodable replies are read back, whatever bytes follow them. */
  lemma {:induction false} RoundTripIff(node: Node, t: Bytes)
    ensures Encodable(node) ==> Parse(Encode(node) + t) == Complete(node, |Encode(node)|)
    ensures Parse(Encode(node) + t).Complete? && Parse(Encode(node) + t).node == node ==> Encodable(node)
    decreases node, 0
  {
    hide Parse, DecimalInt, EncodeAll;
    match node
    case Simple(_) => LineRoundTrip(node, t);
    case Error(_) => LineRoundTrip(node, t);
    case Integer(num) => IntegerRoundTrip(num, t);
    case Bulk(value) => BulkRoundTrip(value, t);
    case NullArray => NullArrayRoundTrip(t);
    case Array(items) =>
      Assoc([STAR] + DecimalInt(|items|) + CRLF, EncodeAll(items), t);
      ArrayHeadParses(|items|, EncodeAll(items) + t);
      ItemsRoundTripIff(items, t);
  }

  lemma {:induction false} ItemsRoundTripIff(items: seq<Node>, t: Bytes)
    ensures (forall x | x in items :: Encodable(x)) ==>
              ParseItems(EncodeAll(items) + t, |items|) == Items(items, |EncodeAll(items)|)
    ensures ParseItems(EncodeAll(items) + t, |items|).Items?
            && ParseItems(EncodeAll(items) + t, |items|).nodes == items
            ==> forall x | x in items :: Encodable(x)
    decreases items, 1
  {
    hide Parse, Encode, Encodable;
    if items != [] {
      var x, xs := items[0], items[1..];
      var more := EncodeAll(xs) + t;
      Assoc(Encode(x), EncodeAll(xs), t);
      assert (Encode(x) + more)[|Encode(x)|..] == more;
      assert items == [x] + xs;
      ItemsRoundTripIff(xs, t);
      RoundTripIff(x, more);
    }
  }

  // ---------- streams of encoded messages ----------

  lemma {:induction false} EncodeAllConcat(a: seq<Node>, b: seq<Node>)
    ensures EncodeAll(a + b) == EncodeAll(a) + EncodeAll(b)
  {
    hide Encode;
    if a == [] {
      assert a + b == b;
    } else {
      assert (a + b)[1..] == a[1..] + b;
      EncodeAllConcat(a[1..], b);
    }
  }

  lemma {:induction false} DrainOne(node: Node, t: Bytes)
    requires Encodable(node)
    ensures Drain(Encode(node) + t) == Drained([node] + Drain(t).messages, Drain(t).rest)
  {
    hide Parse, Encode, Encodable;
    var e := Encode(node);
    assert (e + t)[|e|..] == t;
    RoundTripIff(node, t);
  }

  /** Encoded messages followed by `t`: the messages come back first, then whatever `t` drains to. */
  lemma {:induction false} DrainEncoded(messages: seq<Node>, t: Bytes)
    requires forall x | x in messages :: Encodable(x)
    ensures Drain(EncodeAll(messages) + t) == Drained(messages + Drain(t).messages, Drain(t).rest)
    decreases |messages|
  {
    hide Drain, Encode, Encodable;
    var later := Drain(t).messages;
    if messages == [] {
      assert EncodeAll(messages) + t == t;
      assert messages + later == later;
    } else {
      var x, xs := messages[0], messages[1..];
      Assoc(Encode(x), EncodeAll(xs), t);
      Assoc([x], xs, later);
      assert [x] + xs == messages;
      DrainEncoded(xs, t);
      DrainOne(x, EncodeAll(xs) + t);
    }
  }

  /** A proper prefix of one encoded message is never taken for a message. */
  lemma {:induction false} ProperPrefixIsIncomplete(node: Node, p: Bytes, q: Bytes)
    requires Encodable(node) && p + q == Encode(node) && q != []
    ensures Parse(p) == Incomplete
  {
    hide Parse, Encode, Encodable;
    RoundTripIff(node, []);
    assert Encode(node) + [] == Encode(node);
    if !Parse(p).Incomplete? {
      ParseExtend(p, q);
    }
  }

  /** Any prefix of an encoded stream drains to the messages that lie wholly inside it, and keeps the
      cut message's first bytes: `j` messages are out, the rest are still owed. */
  lemma {:induction false} DrainPrefix(messages: seq<Node>, p: Bytes, q: Bytes) returns (j: nat)
    requires forall x | x in messages :: Encodable(x)
    requires p + q == EncodeAll(messages)
    ensures j <= |messages|
    ensures Drain(p).messages == messages[..j]
    ensures Drain(p).rest + q == EncodeAll(messages[j..])
    ensures Drain(Drain(p).rest) == Drained([], Drain(p).rest)
    decreases |messages|
  {
    hide Parse, Encode, Encodable;
    if messages == [] {
      j := 0;
    } else {
      var x, xs := messages[0], messages[1..];
      var e := Encode(x);
      if |p| < |e| {
        j := 0;
        var q' := e[|p|..];
        assert p == e[..|p|] by { assert e == (p + q)[..|e|]; }
        assert p + q' == e;
        ProperPrefixIsIncomplete(x, p, q');
      } else {
        var p' := p[|e|..];
        assert p == e + p' by { assert e == (p + q)[..|e|]; }
        assert p' + q == EncodeAll(xs) by { assert p' + q == (p + q)[|e|..]; }
        var k := DrainPrefix(xs, p', q);
        j := k + 1;
        assert messages[..j] == [x] + xs[..k] && messages[j..] == xs[k..];
        DrainOne(x, p');
      }
    }
    DrainLeavesNoMessage(p);
  }

  // ---------- commands ----------

  function BulkNodes(arr: seq<Option<Bytes>>): (r: seq<Node>)
    ensures |r| == |arr|
    ensures forall i :: 0 <= i < |r| ==> r[i] == Bulk(arr[i])
  {
    seq(|arr|, i requires 0 <= i < |arr| => Bulk(arr[i]))
  }

  lemma {:induction false} EncodeBulksIsEncodeAll(arr: seq<Option<Bytes>>)
    ensures EncodeBulks(arr) == EncodeAll(BulkNodes(arr))
  {
    if arr != [] {
      EncodeBulksIsEncodeAll(arr[1..]);
      assert BulkNodes(arr)[1..] == BulkNodes(arr[1..]);
    }
  }

  lemma {:induction false} EncodeArrayIsEncode(arr: seq<Option<Bytes>>)
    ensures EncodeArray(arr) == Encode(Array(BulkNodes(arr)))
    ensures Encodable(Array(BulkNodes(arr)))
  {
    EncodeBulksIsEncodeAll(arr);
  }

  /** isArrayOfBulkStrings and arrayNodeToStringArray in one: None for every other node. */
  function ArrayNodeToStrings(node: Node): Option<seq<Option<Bytes>>> {
    if node.Array? && forall x | x in node.items :: x.Bulk? then
      var items := node.items;
      Some(seq(|items|, i requires 0 <= i < |items| && items[i].Bulk? => items[i].value))
    else None
  }

  lemma StringsOfBulkNodes(arr: seq<Option<Bytes>>)
    ensures ArrayNodeToStrings(Array(BulkNodes(arr))) == Some(arr)
  {
    var node := Array(BulkNodes(arr));
    assert forall x | x in node.items :: x.Bulk?;
    assert ArrayNodeToStrings(node).value == arr;
  }
}
