/** The parser of src/core/protocol.js step for step, with offsets that may leave the buffer, byte counts that may
    be negative and a call stack that may overflow: what module Protocol leaves out behind a runaway header. */
module AsWritten {
  import opened Wrappers
  import opened Bytes
  import opened Protocol

  // ---------- Buffer ----------

  function Clamp(i: int, n: nat): (r: nat)
    ensures r <= n
  {
    if i > n then n else if i >= 0 then i else if n + i >= 0 then n + i else 0
  }

  /** buffer.slice(from, to): negative positions count from the end. */
  function Slice(buf: Bytes, from: int, to: int): Bytes {
    var a, b := Clamp(from, |buf|), Clamp(to, |buf|);
    if a < b then buf[a..b] else []
  }

  /** buffer.slice(from) */
  function Rest(buf: Bytes, from: int): Bytes { buf[Clamp(from, |buf|)..] }

  /** buffer[i], None for undefined */
  function At(buf: Bytes, i: int): Option<Byte> { if 0 <= i < |buf| then Some(buf[i]) else None }

  /** _indexOfCrlf: there is nothing to find at positions outside the buffer. */
  function IndexOf(buf: Bytes, offset: int): int {
    var start := if offset < 0 then 0 else offset;
    if start > |buf| then -1
    else
      match CrlfIndex(buf[start..])
      case None => -1
      case Some(i) => start + i
  }

  /** _readLine */
  function LineAt(buf: Bytes, offset: int): Option<Bytes> {
    var idx := IndexOf(buf, offset);
    if idx == -1 then None else Some(Slice(buf, offset, idx))
  }

  /** _lineLength */
  function LineLength(buf: Bytes, offset: int): int {
    var idx := IndexOf(buf, offset);
    if idx == -1 then 0 else idx - offset + 2
  }

  // ---------- one message ----------

  /** Overflow is the RangeError of a call stack that is too deep. */
  datatype Outcome = Overflow | Got(node: Option<Node>, consumed: int)

  datatype Elements = StackOverflow | Missing | Read(items: seq<Node>, consumed: int)

  const NOTHING: Outcome := Got(None, 0)

  /** _parseNext with room for `depth` more calls from inside arrays on the stack. */
  function Next(buf: Bytes, offset: int, depth: nat): (r: Outcome)
    ensures r.Got? && r.consumed != 0 ==> r.node.Some?
    decreases depth, 2, 0
  {
    if buf == [] then NOTHING
    else
      var prefix := At(buf, offset);
      if prefix == Some(DOLLAR) then BulkAt(buf, offset)
      else if prefix == Some(STAR) then ArrayAt(buf, offset, depth)
      else if prefix in {Some(PLUS), Some(MINUS), Some(COLON)} then
        match LineAt(buf, offset + 1)
        case None => NOTHING
        case Some(line) => Got(Some(ReadLine(prefix.value, line).node), LineLength(buf, offset + 1) + 1)
      else
        match LineAt(buf, offset)
        case None => NOTHING
        case Some(line) =>
          // String.fromCharCode(undefined) is the character 0.
          var shown: Byte := if prefix.Some? then prefix.value else 0;
          if line == [] then NOTHING else Got(Some(Error(FaultText(UnknownPrefix(shown)))), LineLength(buf, offset))
  }

  /** _parseBulkString */
  function BulkAt(buf: Bytes, offset: int): (r: Outcome)
    ensures r.Got?
    ensures r.consumed != 0 ==> r.node.Some?
  {
    match LineAt(buf, offset + 1)
    case None => NOTHING
    case Some(line) =>
      var header := LineLength(buf, offset + 1) + 1;
      match ReadLine(DOLLAR, line)
      case Whole(node) => Got(Some(node), header)
      case BulkHead(length) =>
        var needed := header + length + 2;
        if |buf| - offset < needed then NOTHING
        else
          var start := offset + header;
          Got(Some(Bulk(Some(Slice(buf, start, start + length)))), needed)
      case ArrayHead(_) => NOTHING
  }

  /** _parseArray */
  function ArrayAt(buf: Bytes, offset: int, depth: nat): (r: Outcome)
    ensures r.Got? && r.consumed != 0 ==> r.node.Some?
    decreases depth, 1, 0
  {
    match LineAt(buf, offset + 1)
    case None => NOTHING
    case Some(line) =>
      var header := LineLength(buf, offset + 1) + 1;
      match ReadLine(STAR, line)
      case Whole(node) => Got(Some(node), header)
      case BulkHead(_) => NOTHING
      case ArrayHead(count) =>
        match ElementsAt(buf, offset + header, count, depth)
        case StackOverflow => Overflow
        case Missing => NOTHING
        case Read(items, consumed) => Got(Some(Array(items)), consumed - offset)
  }

  /** The element loop; `consumed` is a position, which an element may move backwards. */
  function ElementsAt(buf: Bytes, consumed: int, count: int, depth: nat): Elements
    decreases depth, 0, count
  {
    if count <= 0 then Read([], consumed)
    else if depth == 0 then StackOverflow
    else
      match Next(buf, consumed, depth - 1)
      case Overflow => StackOverflow
      case Got(node, c) =>
        if c == 0 then Missing
        else
          match ElementsAt(buf, consumed + c, count - 1, depth)
          case StackOverflow => StackOverflow
          case Missing => Missing
          case Read(items, end) => Read([node.value] + items, end)
  }

  // ---------- feed ----------

  datatype Feeding =
    | Running(messages: seq<Node>, buffer: Bytes)
    | Stopped(messages: seq<Node>, buffer: Bytes)
    | Thrown(messages: seq<Node>, buffer: Bytes)

  /** The loop of `feed` after at most `n` iterations. */
  function Loop(buf: Bytes, depth: nat, n: nat): (r: Feeding)
    ensures r.Running? ==> |r.messages| == n
    decreases n
  {
    if n == 0 then Running([], buf)
    else
      match Next(buf, 0, depth)
      case Overflow => Thrown([], buf)
      case Got(node, c) =>
        if c == 0 then Stopped([], buf)
        else
          match Loop(Rest(buf, c), depth, n - 1)
          case Running(messages, rest) => Running([node.value] + messages, rest)
          case Stopped(messages, rest) => Stopped([node.value] + messages, rest)
          case Thrown(messages, rest) => Thrown([node.value] + messages, rest)
  }

  // ---------- where the two agree ----------

  predicate Same(p: Parsed, o: Outcome) {
    match p
    case Incomplete => o.Got? && o.consumed == 0
    case Complete(node, c) => o == Got(Some(node), c)
    case Runaway => true
  }

  predicate SameElements(p: ParsedItems, e: Elements, first: nat) {
    match p
    case ItemsIncomplete => e == Missing
    case Items(nodes, size) => e == Read(nodes, first + size)
    case ItemsRunaway => true
  }

  lemma LinesAgree(buf: Bytes, offset: nat)
    requires offset < |buf|
    ensures match CrlfIndex(buf[offset..][1..])
            case None => LineAt(buf, offset + 1) == None
            case Some(i) =>
              LineAt(buf, offset + 1) == Some(buf[offset..][1..i + 1]) && LineLength(buf, offset + 1) + 1 == i + 3
  {
    hide CrlfIndex, LineAt, LineLength;
    assert buf[offset..][1..] == buf[offset + 1..];
    WholeLinesAgree(buf, offset + 1);
    if CrlfIndex(buf[offset + 1..]).Some? {
      var i := CrlfIndex(buf[offset + 1..]).value;
      assert buf[offset..][1..i + 1] == buf[offset + 1..][..i];
    }
  }

  lemma WholeLinesAgree(buf: Bytes, offset: nat)
    requires offset <= |buf|
    ensures match CrlfIndex(buf[offset..])
            case None => LineAt(buf, offset) == None
            case Some(i) => LineAt(buf, offset) == Some(buf[offset..][..i]) && LineLength(buf, offset) == i + 2
  {
    hide CrlfIndex;
    if CrlfIndex(buf[offset..]).Some? {
      var i := CrlfIndex(buf[offset..]).value;
      assert buf[offset..][..i] == buf[offset..offset + i];
    }
  }

  /** Up to a runaway header, and as far as the stack allows, the parse function says what the program does. */
  lemma {:induction false} NextAgrees(buf: Bytes, offset: nat, depth: nat)
    requires offset <= |buf| && depth >= |buf| - offset
    ensures Same(Parse(buf[offset..]), Next(buf, offset, depth))
    decreases |buf| - offset, 2, 0
  {
    hide CrlfIndex, ReadLine, ParseItems, ElementsAt, LineAt, LineLength, Slice;
    var s := buf[offset..];
    WholeLinesAgree(buf, offset);
    if offset < |buf| {
      LinesAgree(buf, offset);
      LineFromPrefix(s);
      ReadLineKinds(s[0]);
      if s[0] == DOLLAR {
        BulksAgree(buf, offset);
      } else if s[0] == STAR && CrlfIndex(s[1..]).Some? {
        var header := CrlfIndex(s[1..]).value + 3;
        assert s[header..] == buf[offset + header..];
        match ReadLine(STAR, s[1..header - 2])
        case ArrayHead(count) => ElementsAgree(buf, offset + header, count, depth);
        case _ =>
      }
    } else {
      EmptyLine();
    }
  }

  lemma EmptyLine()
    ensures CrlfIndex([]) == None
  {
  }

  lemma ReadLineKinds(prefix: Byte)
    ensures forall line :: prefix != STAR ==> !ReadLine(prefix, line).ArrayHead?
    ensures forall line :: prefix != DOLLAR ==> !ReadLine(prefix, line).BulkHead?
    ensures forall line :: prefix !in {PLUS, MINUS, COLON, DOLLAR, STAR} ==>
                             ReadLine(prefix, line) == Whole(Error(FaultText(UnknownPrefix(prefix))))
  {
    hide ParseInt, FaultText;
  }

  lemma BulksAgree(buf: Bytes, offset: nat)
    requires offset < |buf| && buf[offset] == DOLLAR
    ensures Same(Parse(buf[offset..]), BulkAt(buf, offset))
  {
    hide CrlfIndex, ReadLine, ParseItems, LineAt, LineLength, Slice;
    var s := buf[offset..];
    LinesAgree(buf, offset);
    ReadLineKinds(DOLLAR);
    if CrlfIndex(s[1..]).Some? {
      var header := CrlfIndex(s[1..]).value + 3;
      var head := ReadLine(DOLLAR, s[1..header - 2]);
      if head.BulkHead? && 0 <= header + head.length && header + head.length + 2 <= |s| {
        SlicesAgree(buf, offset, header, head.length);
      }
    }
  }

  lemma SlicesAgree(buf: Bytes, offset: nat, header: nat, length: int)
    requires offset + header <= |buf| && 0 <= header + length && offset + header + length <= |buf|
    ensures Slice(buf, offset + header, offset + header + length) ==
            if length < 0 then [] else buf[offset..][header..header + length]
  {
  }

  lemma {:induction false} ElementsAgree(buf: Bytes, first: nat, count: int, depth: nat)
    requires first <= |buf| && depth > |buf| - first
    ensures SameElements(ParseItems(buf[first..], count), ElementsAt(buf, first, count, depth), first)
    decreases |buf| - first, 3, count
  {
    hide Parse, Next;
    if count > 0 {
      NextAgrees(buf, first, depth - 1);
      var s := buf[first..];
      if Parse(s).Complete? {
        var c := Parse(s).consumed;
        assert s[c..] == buf[first + c..];
        ElementsAgree(buf, first + c, count - 1, depth);
      }
    }
  }

  /** FEED. The program's loop returns the messages of Drain and keeps its rest; it stops there unless a runaway
      header comes next. */
  lemma {:induction false} LoopAgrees(buf: Bytes, depth: nat, n: nat)
    requires depth >= |buf|
    ensures Loop(buf, depth, |Drain(buf).messages|) == Running(Drain(buf).messages, Drain(buf).rest)
    ensures n > |Drain(buf).messages| && !Parse(Drain(buf).rest).Runaway? ==>
              Loop(buf, depth, n) == Stopped(Drain(buf).messages, Drain(buf).rest)
    decreases |buf|
  {
    hide Parse, Next;
    assert buf[0..] == buf;
    NextAgrees(buf, 0, depth);
    if Parse(buf).Complete? {
      var c := Parse(buf).consumed;
      assert Rest(buf, c) == buf[c..];
      LoopAgrees(buf[c..], depth, if n > 0 then n - 1 else 0);
    }
  }

  /** Given that many iterations, and a stack as deep as the input is long, the loop stands here ... */
  ghost predicate LoopReaches(input: Bytes, messages: seq<Node>, buffer: Bytes) {
    forall depth: nat :: depth >= |input| ==> Loop(input, depth, |messages|) == Running(messages, buffer)
  }

  /** ... and here it ends. */
  ghost predicate LoopEnds(input: Bytes, messages: seq<Node>, buffer: Bytes) {
    forall depth: nat, n: nat :: depth >= |input| && n > |messages| ==>
      Loop(input, depth, n) == Stopped(messages, buffer)
  }

  lemma DrainIsTheLoop(input: Bytes)
    ensures LoopReaches(input, Drain(input).messages, Drain(input).rest)
    ensures !Parse(Drain(input).rest).Runaway? ==> LoopEnds(input, Drain(input).messages, Drain(input).rest)
  {
    hide Parse, Drain, Loop;
    forall depth: nat, n: nat | depth >= |input|
      ensures Loop(input, depth, |Drain(input).messages|) == Running(Drain(input).messages, Drain(input).rest)
      ensures n > |Drain(input).messages| && !Parse(Drain(input).rest).Runaway? ==>
                Loop(input, depth, n) == Stopped(Drain(input).messages, Drain(input).rest)
    {
      LoopAgrees(input, depth, n);
    }
  }

  // ---------- behind a runaway header ----------

  lemma {:induction false} DigitCount(n: nat)
    ensures n >= 6 ==> |Decimal(n)| <= n - 5
    ensures n >= 8 ==> |Decimal(n)| <= n - 7
    ensures n < 10 ==> |Decimal(n)| == 1
  {
    if n >= 10 { DigitCount(n / 10); }
  }

  /** What `_parseBulkString` reports to have consumed for a header line that reads as a number but not as -1. */
  function ByteCount(line: Bytes): int
    requires ParseInt(line).Some?
  {
    |line| + 5 + ParseInt(line).value
  }

  function BulkHeader(line: Bytes): Bytes { [DOLLAR] + line + CRLF }

  /** The parse function runs away on exactly the headers whose number, be it followed by whatever else, goes back
      to before the header. */
  lemma RunawayIff(line: Bytes, t: Bytes)
    requires NoCrlf(line)
    ensures Parse(BulkHeader(line) + t).Runaway? <==> ParseInt(line).Some? && |line| + 3 + ParseInt(line).value < 0
  {
    hide ParseInt, CrlfIndex, ParseItems;
    LineReadsBack(DOLLAR, line, t);
  }

  /** What the program does then: it reports a message whose content is cut from wherever the negative end points,
      and a byte count of at most 1. */
  lemma RunawayStep(line: Bytes, t: Bytes, depth: nat)
    requires NoCrlf(line) && ParseInt(line).Some? && |line| + 3 + ParseInt(line).value < 0
    ensures var s := BulkHeader(line) + t;
            var header := |line| + 3;
            Next(s, 0, depth)
            == Got(Some(Bulk(Some(Slice(s, header, header + ParseInt(line).value)))), ByteCount(line))
  {
    hide ParseInt, CrlfIndex, Slice, LineAt, LineLength, ElementsAt;
    var s := BulkHeader(line) + t;
    LineReadsBack(DOLLAR, line, t);
    assert s[0..] == s;
    LinesAgree(s, 0);
  }

  /** A header whose byte count is 0 stops the program for good: no further input makes it report another
      message. */
  lemma ZeroCountStops(line: Bytes, t: Bytes, depth: nat, n: nat)
    requires NoCrlf(line) && ParseInt(line).Some? && ByteCount(line) == 0 && n > 0
    ensures Loop(BulkHeader(line) + t, depth, n) == Stopped([], BulkHeader(line) + t)
  {
    hide ParseInt, Next, Slice;
    RunawayStep(line, t, depth);
  }

  /** For a length as it is printed: from -6 on the header is a runaway; -6 moves on by one byte, -7 by none, and
      less than -7 goes backwards. */
  lemma PrintedLengths(length: int)
    requires length < -1
    ensures NoCrlf(DecimalInt(length)) && ParseInt(DecimalInt(length)) == Some(length)
    ensures ByteCount(DecimalInt(length)) < 2 <==> length < -5
    ensures ByteCount(DecimalInt(length)) == 1 <==> length == -6
    ensures ByteCount(DecimalInt(length)) == 0 <==> length == -7
    ensures ByteCount(DecimalInt(length)) < 0 <==> length < -7
  {
    ParseIntDecimal(length);
    hide ParseInt;
    DigitCount(-length);
  }

  // ---------- how `feed` can fail to return ----------

  /** The next message would be reported without anything being taken off the buffer. */
  predicate Stuck(buf: Bytes, depth: nat) {
    var o := Next(buf, 0, depth);
    o.Got? && o.consumed < 0 && |buf| <= -o.consumed
  }

  /** Every iteration keeps an end of the buffer: the whole of it exactly when it is stuck, else a shorter one. */
  lemma RestShrinksUnlessStuck(buf: Bytes, depth: nat)
    requires Next(buf, 0, depth).Got? && Next(buf, 0, depth).consumed != 0
    ensures var rest := Rest(buf, Next(buf, 0, depth).consumed);
            (rest == buf <==> Stuck(buf, depth)) && |rest| <= |buf| && (|rest| < |buf| <==> rest != buf)
  {
    hide BulkAt, ArrayAt;
  }

  lemma {:induction false} StuckForever(buf: Bytes, depth: nat, n: nat)
    requires Stuck(buf, depth)
    ensures Loop(buf, depth, n).Running? && Loop(buf, depth, n).buffer == buf
    decreases n
  {
    hide Next;
    if n > 0 {
      StuckForever(buf, depth, n - 1);
      assert Rest(buf, Next(buf, 0, depth).consumed) == buf;
    }
  }

  /** Running on from where the loop is. */
  lemma {:induction false} LoopGoesOn(buf: Bytes, depth: nat, n: nat, more: nat)
    requires Loop(buf, depth, n).Running?
    ensures Loop(buf, depth, n + more).Running? <==> Loop(Loop(buf, depth, n).buffer, depth, more).Running?
    decreases n
  {
    hide Next, Rest;
    if n > 0 {
      LoopGoesOn(Rest(buf, Next(buf, 0, depth).consumed), depth, n - 1, more);
    }
  }

  /** A run longer than the buffer meets a buffer that is stuck. */
  lemma {:induction false} LongRunIsStuck(buf: Bytes, depth: nat, n: nat) returns (k: nat)
    requires n > |buf| && Loop(buf, depth, n).Running?
    ensures Loop(buf, depth, k).Running? && Stuck(Loop(buf, depth, k).buffer, depth)
    decreases n
  {
    hide Next, Rest;
    if Stuck(buf, depth) {
      k := 0;
    } else {
      RestShrinksUnlessStuck(buf, depth);
      var j := LongRunIsStuck(Rest(buf, Next(buf, 0, depth).consumed), depth, n - 1);
      k := j + 1;
    }
  }

  ghost predicate RunsForever(buf: Bytes, depth: nat) { forall n: nat :: Loop(buf, depth, n).Running? }

  predicate StuckAt(buf: Bytes, depth: nat, k: nat) {
    Loop(buf, depth, k).Running? && Stuck(Loop(buf, depth, k).buffer, depth)
  }

  /** NOT RETURNING. `feed` runs forever, reporting a message each time, if and only if it reaches a buffer at
      whose start stands an element that goes back by at least the buffer's length. */
  lemma RunsForeverIff(buf: Bytes, depth: nat)
    ensures RunsForever(buf, depth) <==> exists k: nat :: StuckAt(buf, depth, k)
  {
    hide Next, Stuck, Loop;
    if RunsForever(buf, depth) {
      var k := LongRunIsStuck(buf, depth, |buf| + 1);
      assert StuckAt(buf, depth, k);
    } else if exists k: nat :: StuckAt(buf, depth, k) {
      var k: nat :| StuckAt(buf, depth, k);
      var n: nat :| !Loop(buf, depth, n).Running?;
      if n <= k {
        PrefixRuns(buf, depth, n, k);
      } else {
        StuckForever(Loop(buf, depth, k).buffer, depth, n - k);
        LoopGoesOn(buf, depth, k, n - k);
      }
      assert false;
    }
  }

  lemma {:induction false} PrefixRuns(buf: Bytes, depth: nat, n: nat, k: nat)
    requires n <= k && Loop(buf, depth, k).Running?
    ensures Loop(buf, depth, n).Running?
    decreases n
  {
    hide Next, Rest;
    if n > 0 { PrefixRuns(Rest(buf, Next(buf, 0, depth).consumed), depth, n - 1, k - 1); }
  }

  /** With a bulk header at the start, any at all, that is so if and only if its number goes back past everything
      that follows it. */
  lemma StuckIff(line: Bytes, t: Bytes, depth: nat)
    requires NoCrlf(line)
    ensures Stuck(BulkHeader(line) + t, depth) <==>
            ParseInt(line).Some? && |t| + 2 * |line| + 8 <= -ParseInt(line).value
  {
    hide ParseInt, CrlfIndex, ParseItems, BulkAt, Slice;
    var s := BulkHeader(line) + t;
    RunawayIff(line, t);
    if Parse(s).Runaway? {
      RunawayStep(line, t, depth);
    } else {
      assert s[0..] == s;
      BulksAgree(s, 0);
    }
  }

  /** A bulk string whose header stands at `offset`, whatever is before and behind it. */
  lemma RunawayElement(before: Bytes, line: Bytes, t: Bytes)
    requires NoCrlf(line) && ParseInt(line).Some? && ByteCount(line) < 0
    ensures var s := before + (BulkHeader(line) + t);
            BulkAt(s, |before|).consumed == ByteCount(line)
  {
    hide ParseInt, CrlfIndex, Slice, LineAt, LineLength;
    var bulk := BulkHeader(line) + t;
    var s := before + bulk;
    LineReadsBack(DOLLAR, line, t);
    assert s[|before|..] == bulk;
    LinesAgree(s, |before|);
  }

  /** An element that goes back exactly to the array it stands in makes the program parse the array again inside
      itself until the stack overflows, however deep the stack. */
  lemma {:induction false} RewoundArrayOverflows(count: nat, line: Bytes, t: Bytes, depth: nat)
    requires count >= 2 && NoCrlf(line) && ParseInt(line).Some? && |DecimalInt(count)| + 3 + ByteCount(line) == 0
    ensures Next([STAR] + DecimalInt(count) + CRLF + (BulkHeader(line) + t), 0, depth) == Overflow
    decreases depth
  {
    hide DecimalInt, ParseInt, CrlfIndex, LineAt, LineLength, BulkAt, ByteCount;
    var head := [STAR] + DecimalInt(count) + CRLF;
    var bulk := BulkHeader(line) + t;
    var s := head + bulk;
    HeaderReadsBack(STAR, count, bulk);
    assert s[0..] == s;
    LinesAgree(s, 0);
    RunawayElement(head, line, t);
    if depth > 0 {
      RewoundArrayOverflows(count, line, t, depth - 1);
      assert s[|head|] == DOLLAR;
      assert Next(s, |head|, depth - 1) == BulkAt(s, |head|);
      assert ElementsAt(s, 0, count - 1, depth) == StackOverflow;
    }
    assert ElementsAt(s, |head|, count, depth) == StackOverflow;
  }

  /** Such input exists: two elements are announced, and the first is a bulk string of length -12. */
  lemma MinusTwelveOverflows(t: Bytes, depth: nat)
    ensures Next([STAR] + DecimalInt(2) + CRLF + (BulkHeader(DecimalInt(-12)) + t), 0, depth) == Overflow
  {
    assert |DecimalInt(2)| == 1 && |DecimalInt(-12)| == 3;
    ParseIntDecimal(-12);
    RewoundArrayOverflows(2, DecimalInt(-12), t, depth);
  }

  // ---------- which input overflows every stack ----------

  /** A deeper stack changes no answer. */
  lemma {:induction false} DeeperIsSame(buf: Bytes, offset: int, depth: nat, more: nat)
    requires depth <= more && Next(buf, offset, depth).Got?
    ensures Next(buf, offset, more) == Next(buf, offset, depth)
    decreases depth, 2, 0
  {
    hide LineAt, LineLength, BulkAt, ReadLine, ElementsAt, FaultText;
    if At(buf, offset) == Some(STAR) && LineAt(buf, offset + 1).Some? {
      var header := LineLength(buf, offset + 1) + 1;
      match ReadLine(STAR, LineAt(buf, offset + 1).value)
      case ArrayHead(count) =>
        if ElementsAt(buf, offset + header, count, depth) != StackOverflow {
          DeeperElementsAreSame(buf, offset + header, count, depth, more);
        }
      case _ =>
    }
  }

  lemma {:induction false} DeeperElementsAreSame(buf: Bytes, first: int, count: int, depth: nat, more: nat)
    requires depth <= more && ElementsAt(buf, first, count, depth) != StackOverflow
    ensures ElementsAt(buf, first, count, more) == ElementsAt(buf, first, count, depth)
    decreases depth, 0, count
  {
    hide Next;
    if count > 0 {
      DeeperIsSame(buf, first, depth - 1, more - 1);
      var c := Next(buf, first, depth - 1).consumed;
      if c != 0 { DeeperElementsAreSame(buf, first + c, count - 1, depth, more); }
    }
  }

  /** The stack the element at `offset` needs is exactly `depth`. */
  predicate Needs(buf: Bytes, offset: int, depth: nat) {
    depth > 0 && Next(buf, offset, depth - 1) == Overflow && Next(buf, offset, depth).Got?
  }

  /** Only an array overflows, and only in its elements. */
  lemma OverflowIsArray(buf: Bytes, offset: int, depth: nat)
    requires Next(buf, offset, depth) == Overflow
    ensures 0 <= offset < |buf| && At(buf, offset) == Some(STAR) && LineAt(buf, offset + 1).Some?
    ensures var head := ReadLine(STAR, LineAt(buf, offset + 1).value);
            head.ArrayHead?
            && ElementsAt(buf, offset + (LineLength(buf, offset + 1) + 1), head.count, depth) == StackOverflow
  {
    hide LineAt, LineLength, BulkAt, ReadLine, ElementsAt, FaultText;
  }

  lemma GotNoOverflow(buf: Bytes, offset: int, depth: nat)
    requires At(buf, offset) == Some(STAR) && LineAt(buf, offset + 1).Some?
    requires ReadLine(STAR, LineAt(buf, offset + 1).value).ArrayHead? && Next(buf, offset, depth).Got?
    ensures ElementsAt(buf, offset + (LineLength(buf, offset + 1) + 1),
                       ReadLine(STAR, LineAt(buf, offset + 1).value).count, depth) != StackOverflow
  {
    hide LineAt, LineLength, BulkAt, ReadLine, ElementsAt, FaultText;
  }

  /** What needs more than one level contains something that needs one level less. */
  lemma {:induction false} NeedsInside(buf: Bytes, offset: int, depth: nat) returns (p: int)
    requires depth > 1 && Needs(buf, offset, depth)
    ensures Needs(buf, p, depth - 1)
  {
    hide Next, LineAt, LineLength, ReadLine, ElementsAt;
    OverflowIsArray(buf, offset, depth - 1);
    GotNoOverflow(buf, offset, depth);
    var head := ReadLine(STAR, LineAt(buf, offset + 1).value);
    p := NeedsAmong(buf, offset + (LineLength(buf, offset + 1) + 1), head.count, depth);
  }

  lemma {:induction false} NeedsAmong(buf: Bytes, first: int, count: int, depth: nat) returns (p: int)
    requires depth > 1 && ElementsAt(buf, first, count, depth - 1) == StackOverflow
    requires ElementsAt(buf, first, count, depth) != StackOverflow
    ensures Needs(buf, p, depth - 1)
    decreases count
  {
    hide Next;
    if Next(buf, first, depth - 2) == Overflow {
      p := first;
    } else {
      DeeperIsSame(buf, first, depth - 2, depth - 1);
      p := NeedsAmong(buf, first + Next(buf, first, depth - 1).consumed, count - 1, depth);
    }
  }

  /** So there are as many different array positions as levels. */
  lemma {:induction false} NeedsPositions(buf: Bytes, offset: int, depth: nat) returns (found: set<int>)
    requires Needs(buf, offset, depth)
    ensures |found| == depth
    ensures forall p :: p in found ==> 0 <= p < |buf| && exists d: nat :: d <= depth && Needs(buf, p, d)
    decreases depth
  {
    hide Next;
    OverflowIsArray(buf, offset, depth - 1);
    if depth == 1 {
      found := {offset};
    } else {
      var p := NeedsInside(buf, offset, depth);
      var inner := NeedsPositions(buf, p, depth - 1);
      if offset in inner {
        var d: nat :| d <= depth - 1 && Needs(buf, offset, d);
        DeeperIsSame(buf, offset, d, depth - 1);
        assert false;
      }
      found := inner + {offset};
    }
  }

  lemma {:induction false} AtMost(found: set<int>, n: nat)
    requires forall p :: p in found ==> 0 <= p < n
    ensures |found| <= n
  {
    if n > 0 {
      var last := n - 1;
      AtMost(found - {last}, n - 1);
      assert found <= (found - {last}) + {last};
    } else {
      assert forall p :: p !in found;
      assert |found| == 0;
    }
  }

  lemma NeedsNoMore(buf: Bytes, offset: int, depth: nat)
    requires Needs(buf, offset, depth)
    ensures depth <= |buf|
  {
    hide Next, Needs;
    var found := NeedsPositions(buf, offset, depth);
    AtMost(found, |buf|);
  }

  /** STACK OVERFLOW. Input overflows every stack, however deep, if and only if it overflows one as deep as the
      buffer is long: an array that is ever finished needs no more. */
  lemma OverflowsAlwaysIff(buf: Bytes, offset: int)
    ensures (forall depth: nat :: Next(buf, offset, depth) == Overflow) <==> Next(buf, offset, |buf|) == Overflow
  {
    hide Next;
    if Next(buf, offset, |buf|) == Overflow {
      forall depth: nat ensures Next(buf, offset, depth) == Overflow {
        if Next(buf, offset, depth).Got? {
          if depth <= |buf| {
            DeeperIsSame(buf, offset, depth, |buf|);
          } else {
            var d := FirstEnough(buf, offset, |buf|, depth);
            NeedsNoMore(buf, offset, d);
          }
          assert false;
        }
      }
    }
  }

  lemma {:induction false} FirstEnough(buf: Bytes, offset: int, low: nat, high: nat) returns (d: nat)
    requires low < high && Next(buf, offset, low) == Overflow && Next(buf, offset, high).Got?
    ensures low < d <= high && Needs(buf, offset, d)
    decreases high - low
  {
    hide Next;
    if Next(buf, offset, high - 1) == Overflow {
      d := high;
    } else {
      d := FirstEnough(buf, offset, low, high - 1);
    }
  }

  // ---------- the loop, run ----------

  /** The program's loop for at most `n` iterations, behind a runaway header too. */
  method FeedSteps(buffer: Bytes, data: Bytes, depth: nat, n: nat) returns (f: Feeding)
    ensures f == Loop(buffer + data, depth, n)
  {
    hide Next, Rest, Loop;
    var buf := buffer + data;
    var messages: seq<Node> := [];
    NothingBefore(Loop(buf, depth, n));
    var i := 0;
    while i < n
      invariant 0 <= i <= n
      invariant Loop(buffer + data, depth, n) == Before(messages, Loop(buf, depth, n - i))
    {
      var next := Next(buf, 0, depth);
      LoopOnce(buf, depth, n - i);
      if next == Overflow { return Thrown(messages, buf); }
      if next.consumed == 0 { return Stopped(messages, buf); }
      BeforeOne(messages, next.node.value, Loop(Rest(buf, next.consumed), depth, n - i - 1));
      messages := messages + [next.node.value];
      buf := Rest(buf, next.consumed);
      i := i + 1;
    }
    LoopNever(buf, depth);
    return Running(messages, buf);
  }

  lemma LoopOnce(buf: Bytes, depth: nat, n: nat)
    requires n > 0
    ensures var next := Next(buf, 0, depth);
            Loop(buf, depth, n) ==
              if next == Overflow then Thrown([], buf)
              else if next.consumed == 0 then Stopped([], buf)
              else Before([next.node.value], Loop(Rest(buf, next.consumed), depth, n - 1))
  {
    hide Next, Rest;
  }

  lemma LoopNever(buf: Bytes, depth: nat)
    ensures Loop(buf, depth, 0) == Running([], buf)
  {
  }

  function Before(messages: seq<Node>, f: Feeding): Feeding {
    match f
    case Running(more, rest) => Running(messages + more, rest)
    case Stopped(more, rest) => Stopped(messages + more, rest)
    case Thrown(more, rest) => Thrown(messages + more, rest)
  }

  lemma NothingBefore(f: Feeding)
    ensures Before([], f) == f
  {
    assert [] + f.messages == f.messages;
  }

  lemma BeforeOne(messages: seq<Node>, m: Node, f: Feeding)
    ensures Before(messages + [m], f) == Before(messages, Before([m], f))
  {
    Assoc(messages, [m], f.messages);
  }
}
