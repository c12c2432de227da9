/** What stands on the wire, byte by byte: the encoders, the parser and the replication messages against literals. */
module Wire {
  import opened Wrappers
  import opened Bytes
  import opened Protocol
  import opened Commands
  import opened Backlogs
  import opened Replicas
  import opened Replication
  import Dispatching

  /** A literal stands for the codes of its characters. */
  lemma AsciiIs(s: string, i: nat)
    requires i < |s| && s[i] < 128 as char
    ensures |Ascii(s)| == |s| && Ascii(s)[i] == s[i] as int
  {
  }

  // ---------- numbers ----------

  /** The number a text of digits stands for, by place value. */
  function Value(digits: Bytes): int {
    if digits == [] then 0 else 10 * Value(digits[..|digits| - 1]) + (digits[|digits| - 1] as int - 48)
  }

  predicate AllDigits(s: Bytes) { forall i :: 0 <= i < |s| ==> 48 <= s[i] <= 57 }

  /** The usual way to write a natural number: digits, without a zero in front unless it stands alone. */
  predicate IsNumeral(digits: Bytes, n: int) {
    digits != [] && AllDigits(digits) && (digits[0] == 48 ==> |digits| == 1) && Value(digits) == n
  }

  /** A number is printed as its numeral, of which there is only one. */
  lemma {:induction false} DecimalIff(n: nat, digits: Bytes)
    ensures digits == Decimal(n) <==> IsNumeral(digits, n)
    decreases n, |digits|
  {
    DecimalIsNumeral(n);
    if IsNumeral(digits, n) { NumeralIsDecimal(n, digits); }
  }

  lemma {:induction false} DecimalIsNumeral(n: nat)
    ensures IsNumeral(Decimal(n), n) && (n > 0 ==> Decimal(n)[0] != 48)
  {
    var s := Decimal(n);
    if n < 10 {
      assert s[..|s| - 1] == [];
    } else {
      DecimalIsNumeral(n / 10);
      assert s[..|s| - 1] == Decimal(n / 10);
    }
  }

  lemma {:induction false} NumeralIsDecimal(n: nat, digits: Bytes)
    requires IsNumeral(digits, n)
    ensures digits == Decimal(n)
    decreases |digits|
  {
    var front, last := digits[..|digits| - 1], digits[|digits| - 1];
    assert digits == front + [last];
    if front == [] {
      assert Value(front) == 0;
    } else {
      ValueNotNegative(front);
      NumeralIsPositive(front);
      assert n / 10 == Value(front) && n % 10 == last as int - 48;
      NumeralIsDecimal(n / 10, front);
    }
  }

  lemma {:induction false} ValueNotNegative(s: Bytes)
    requires AllDigits(s)
    ensures Value(s) >= 0
  {
    if s != [] { ValueNotNegative(s[..|s| - 1]); }
  }

  lemma {:induction false} NumeralIsPositive(s: Bytes)
    requires s != [] && AllDigits(s) && s[0] != 48
    ensures Value(s) > 0
  {
    if |s| > 1 { NumeralIsPositive(s[..|s| - 1]); } else { assert s[..0] == []; }
  }

  lemma {:induction false} ReadDigitsIsValue(digits: Bytes, tail: Bytes, acc: nat)
    requires AllDigits(digits) && (tail == [] || !(48 <= tail[0] <= 57))
    ensures ReadDigits(digits + tail, acc) == Shifted(acc, digits)
    decreases |digits|
  {
    if digits == [] {
      assert digits + tail == tail;
    } else {
      var front, last := digits[..|digits| - 1], digits[|digits| - 1];
      assert digits + tail == front + ([last] + tail);
      ReadDigitsConcat(front, [last] + tail, acc);
      assert front + [] == front;
      ReadDigitsIsValue(front, [], acc);
      assert ([last] + tail)[1..] == tail;
    }
  }

  /** The number with these digits behind those of `acc` */
  function Shifted(acc: nat, digits: Bytes): int {
    if digits == [] then acc else 10 * Shifted(acc, digits[..|digits| - 1]) + (digits[|digits| - 1] as int - 48)
  }

  lemma {:induction false} ShiftedFromZero(digits: Bytes)
    ensures Shifted(0, digits) == Value(digits)
  {
    if digits != [] { ShiftedFromZero(digits[..|digits| - 1]); }
  }

  /** The blanks that parseInt passes over: tab, LF, VT, FF, CR and space. */
  predicate Blank(b: Byte) { b in {9, 10, 11, 12, 13, 32} }

  /** How a text is read as a number: blanks, a sign, digits, and anything else. */
  predicate ReadsAs(s: Bytes, blanks: Bytes, sign: Bytes, digits: Bytes, tail: Bytes) {
    s == blanks + (sign + (digits + tail))
    && (forall i :: 0 <= i < |blanks| ==> Blank(blanks[i])) && sign in {[], Ascii("+"), Ascii("-")}
    && digits != [] && AllDigits(digits) && (tail == [] || !(48 <= tail[0] <= 57))
  }

  /** A text is a number if and only if it can be read in this way, and then it is the number of its digits. */
  lemma {:induction false} ParseIntReads(s: Bytes, blanks: Bytes, sign: Bytes, digits: Bytes, tail: Bytes)
    requires ReadsAs(s, blanks, sign, digits, tail)
    ensures ParseInt(s) == Some(if sign == Ascii("-") then -Value(digits) else Value(digits))
  {
    var t := sign + (digits + tail);
    SkipBlanks(blanks, t);
    assert SkipSpace(s) == t;
    ReadDigitsIsValue(digits, tail, 0);
    ShiftedFromZero(digits);
    if sign == [] {
      assert t == digits + tail;
    } else {
      assert t[1..] == digits + tail;
    }
  }

  lemma {:induction false} SkipBlanks(blanks: Bytes, t: Bytes)
    requires (forall i :: 0 <= i < |blanks| ==> Blank(blanks[i])) && (t == [] || !Blank(t[0]))
    ensures SkipSpace(blanks + t) == t
  {
    if blanks == [] {
      assert blanks + t == t;
    } else {
      assert (blanks + t)[1..] == blanks[1..] + t;
      SkipBlanks(blanks[1..], t);
    }
  }

  lemma {:induction false} ParseIntSplits(s: Bytes) returns (blanks: Bytes, sign: Bytes, digits: Bytes, tail: Bytes)
    requires ParseInt(s).Some?
    ensures ReadsAs(s, blanks, sign, digits, tail)
  {
    var t := SkipSpace(s);
    blanks := BlanksBefore(s);
    sign := if t[0] == 45 then Ascii("-") else if t[0] == 43 then Ascii("+") else [];
    assert t[0] in {45, 43} ==> sign == [t[0]];
    var u := t[|sign|..];
    digits, tail := SplitDigits(u);
    assert u == digits + tail && t == sign + u && s == blanks + t;
    assert IsDigit(u[0]);
  }

  lemma {:induction false} BlanksBefore(s: Bytes) returns (blanks: Bytes)
    ensures s == blanks + SkipSpace(s) && forall i :: 0 <= i < |blanks| ==> Blank(blanks[i])
  {
    if s != [] && IsSpace(s[0]) {
      blanks := BlanksBefore(s[1..]);
      blanks := [s[0]] + blanks;
    } else {
      blanks := [];
    }
  }

  lemma {:induction false} SplitDigits(s: Bytes) returns (digits: Bytes, tail: Bytes)
    ensures s == digits + tail && AllDigits(digits) && (tail == [] || !(48 <= tail[0] <= 57))
    ensures s != [] && IsDigit(s[0]) ==> digits != []
  {
    if s != [] && IsDigit(s[0]) {
      digits, tail := SplitDigits(s[1..]);
      digits := [s[0]] + digits;
    } else {
      digits, tail := [], s;
    }
  }

  // ---------- replies and commands ----------

  /** Numerals of integers */
  predicate IsIntText(text: Bytes, n: int) {
    if n < 0 then text != [] && text[0] == 45 && IsNumeral(text[1..], -n) else IsNumeral(text, n)
  }

  lemma DecimalIntIff(n: int, text: Bytes)
    ensures text == DecimalInt(n) <==> IsIntText(text, n)
  {
    if n < 0 {
      if text != [] {
        DecimalIff(-n, text[1..]);
        assert text == [text[0]] + text[1..];
      }
      assert DecimalInt(n)[1..] == Decimal(-n);
    } else {
      DecimalIff(n, text);
    }
  }

  /** ON THE WIRE. Each reply, and each command, is the literal text of the protocol. */
  lemma EncodersWrite(line: Bytes, n: int, items: seq<Node>)
    ensures Encode(Simple(line)) == Ascii("+") + line + Ascii("\r\n")
    ensures Encode(Error(line)) == Ascii("-ERR ") + line + Ascii("\r\n")
    ensures Encode(Integer(n)) == Ascii(":") + DecimalInt(n) + Ascii("\r\n")
    ensures Encode(Bulk(None)) == Ascii("$-1\r\n") && Encode(NullArray) == Ascii("*-1\r\n")
    ensures Encode(Bulk(Some(line))) == Ascii("$") + DecimalInt(|line|) + Ascii("\r\n") + line + Ascii("\r\n")
    ensures Encode(Array(items)) == Ascii("*") + DecimalInt(|items|) + Ascii("\r\n") + EncodeAll(items)
  {
    hide Ascii, DecimalInt, EncodeAll, Encode;
    LineTexts(line);
    NumberTexts(n);
    BulkText(line);
    ArrayText(items);
  }

  lemma LineTexts(line: Bytes)
    ensures Encode(Simple(line)) == Ascii("+") + line + Ascii("\r\n")
    ensures Encode(Error(line)) == Ascii("-ERR ") + line + Ascii("\r\n")
  {
    hide Ascii, DecimalInt;
    Signs();
    assert [MINUS] + ERR + line == [MINUS] + (ERR + line);
  }

  lemma NumberTexts(n: int)
    ensures Encode(Integer(n)) == Ascii(":") + DecimalInt(n) + Ascii("\r\n")
    ensures Encode(Bulk(None)) == Ascii("$-1\r\n") && Encode(NullArray) == Ascii("*-1\r\n")
  {
    hide Ascii, DecimalInt;
    Signs();
  }

  lemma BulkText(b: Bytes)
    ensures Encode(Bulk(Some(b))) == Ascii("$") + DecimalInt(|b|) + Ascii("\r\n") + b + Ascii("\r\n")
  {
    hide Ascii, DecimalInt;
    Signs();
    Assoc([DOLLAR] + DecimalInt(|b|) + CRLF, b, CRLF);
  }

  lemma ArrayText(items: seq<Node>)
    ensures Encode(Array(items)) == Ascii("*") + DecimalInt(|items|) + Ascii("\r\n") + EncodeAll(items)
  {
    hide Ascii, DecimalInt, EncodeAll;
    Signs();
  }

  lemma Signs()
    ensures Ascii("+") == [PLUS] && Ascii("-") == [MINUS] && Ascii(":") == [COLON] && Ascii("$") == [DOLLAR]
    ensures Ascii("*") == [STAR] && Ascii("\r\n") == CRLF
    ensures Ascii("-ERR ") == [MINUS] + ERR && Ascii("ERR ") == ERR && |ERR| == 4
    ensures Ascii("$-1\r\n") == [DOLLAR] + DecimalInt(-1) + CRLF
    ensures Ascii("*-1\r\n") == [STAR] + DecimalInt(-1) + CRLF
  {
    assert Decimal(1) == [49];
  }

  /** A simple line, an error, with or without the word ERR, and an integer are read from their literal text. */
  lemma LinesRead(line: Bytes, n: int, t: Bytes)
    requires NoCrlf(line)
    ensures Parse(Ascii("+") + line + Ascii("\r\n") + t) == Complete(Simple(line), |line| + 3)
    ensures Parse(Ascii("-ERR ") + line + Ascii("\r\n") + t) == Complete(Error(line), |line| + 7)
    ensures !(|line| >= 4 && line[..4] == Ascii("ERR ")) ==>
              Parse(Ascii("-") + line + Ascii("\r\n") + t) == Complete(Error(line), |line| + 3)
    ensures Parse(Ascii(":") + DecimalInt(n) + Ascii("\r\n") + t) == Complete(Integer(n), |DecimalInt(n)| + 3)
  {
    hide Parse, DecimalInt, ParseInt, Ascii;
    Signs();
    WholeLineParses(PLUS, line, t);
    WholeLineParses(MINUS, line, t);
    ParseIntDecimal(n);
    WholeLineParses(COLON, DecimalInt(n), t);
    ErrLineReads(line, t);
  }

  lemma ErrLineReads(line: Bytes, t: Bytes)
    requires NoCrlf(line)
    ensures Parse(Ascii("-ERR ") + line + Ascii("\r\n") + t) == Complete(Error(line), |line| + 7)
  {
    hide Parse, Ascii;
    Signs();
    var long := ERR + line;
    assert long[..4] == ERR && long[4..] == line;
    ErrKeepsLine(line);
    assert [MINUS] + ERR + line == [MINUS] + long;
    WholeLineParses(MINUS, long, t);
  }

  lemma ErrKeepsLine(line: Bytes)
    requires NoCrlf(line)
    ensures NoCrlf(ERR + line)
  {
    var long := ERR + line;
    forall i | 0 <= i < |long| - 1 ensures !(long[i] == CR && long[i + 1] == LF) {
      if i >= 4 { assert long[i] == line[i - 4] && long[i + 1] == line[i - 3]; } else { assert long[i] == ERR[i]; }
    }
  }

  /** So are bulk strings, whatever they hold, and arrays of messages that survive the wire. */
  lemma BodiesRead(value: Bytes, items: seq<Node>, t: Bytes)
    requires forall x | x in items :: Encodable(x)
    ensures Parse(Ascii("$") + DecimalInt(|value|) + Ascii("\r\n") + value + Ascii("\r\n") + t)
         == Complete(Bulk(Some(value)), |value| + |DecimalInt(|value|)| + 5)
    ensures Parse(Ascii("$-1\r\n") + t) == Complete(Bulk(None), 5)
    ensures Parse(Ascii("*-1\r\n") + t) == Complete(NullArray, 5)
    ensures Parse(Ascii("*") + DecimalInt(|items|) + Ascii("\r\n") + EncodeAll(items) + t)
         == Complete(Array(items), |DecimalInt(|items|)| + 3 + |EncodeAll(items)|)
  {
    hide Parse, DecimalInt, Encode, Encodable, EncodeAll, EncodeBulkString, Ascii;
    EncodersWrite(value, 0, items);
    BulkBytes(value);
    BulkRoundTrip(Some(value), t);
    BulkRoundTrip(None, t);
    ArrayBytes(items);
    RoundTripIff(Array(items), t);
    RoundTripIff(NullArray, t);
    assert Encode(Bulk(None)) == EncodeBulkString(None) by { BulkBytes([]); }
  }

  lemma BulkBytes(value: Bytes)
    ensures Encode(Bulk(Some(value))) == EncodeBulkString(Some(value)) && Encode(Bulk(None)) == EncodeBulkString(None)
    ensures |EncodeBulkString(Some(value))| == |value| + |DecimalInt(|value|)| + 5
  {
    hide DecimalInt;
  }

  lemma ArrayBytes(items: seq<Node>)
    ensures |Encode(Array(items))| == |DecimalInt(|items|)| + 3 + |EncodeAll(items)|
    ensures (forall x | x in items :: Encodable(x)) ==> Encodable(Array(items))
    ensures Encodable(NullArray)
  {
    hide DecimalInt, EncodeAll;
  }

  /** Any other first byte, but for a line end, makes the line an error that names it. */
  lemma UnknownPrefixReads(prefix: Byte, line: Bytes, t: Bytes)
    requires prefix !in Ascii("+-:$*") && prefix != 13 && NoCrlf(line)
    ensures Parse([prefix] + line + Ascii("\r\n") + t)
         == Complete(Error(Ascii("Protocol error: unknown prefix '") + [prefix] + Ascii("'")), |line| + 3)
  {
    hide Parse, FaultText;
    Signs();
    assert Ascii("+-:$*") == [PLUS, MINUS, COLON, DOLLAR, STAR];
    WholeLineParses(prefix, line, t);
    FaultWords(prefix);
  }

  lemma FaultWords(prefix: Byte)
    ensures FaultText(UnknownPrefix(prefix)) == Ascii("Protocol error: unknown prefix '") + [prefix] + Ascii("'")
    ensures FaultText(InvalidInteger) == Ascii("Protocol error: invalid integer")
    ensures FaultText(InvalidBulkLength) == Ascii("Protocol error: invalid bulk length")
    ensures FaultText(InvalidArrayLength) == Ascii("Protocol error: invalid array length")
  {
  }

  /** A header that is no number is an error of its own. */
  lemma BadHeadersRead(line: Bytes, t: Bytes)
    requires NoCrlf(line) && ParseInt(line).None?
    ensures Parse(Ascii(":") + line + Ascii("\r\n") + t)
         == Complete(Error(Ascii("Protocol error: invalid integer")), |line| + 3)
    ensures Parse(Ascii("$") + line + Ascii("\r\n") + t)
         == Complete(Error(Ascii("Protocol error: invalid bulk length")), |line| + 3)
    ensures Parse(Ascii("*") + line + Ascii("\r\n") + t)
         == Complete(Error(Ascii("Protocol error: invalid array length")), |line| + 3)
  {
    hide Parse, FaultText, ParseInt, Ascii;
    Signs();
    FaultWords(0);
    WholeLineParses(COLON, line, t);
    WholeLineParses(DOLLAR, line, t);
    WholeLineParses(STAR, line, t);
  }

  /** A message is a command if and only if it is an array of bulk strings, whose values are its arguments. */
  lemma CommandIff(node: Node, args: seq<Option<Bytes>>)
    ensures ArrayNodeToStrings(node) == Some(args) <==> node == Array(BulkNodes(args))
  {
    StringsOfBulkNodes(args);
    if ArrayNodeToStrings(node) == Some(args) {
      forall i | 0 <= i < |node.items| ensures node.items[i] == BulkNodes(args)[i] {
        assert node.items[i] in node.items;
      }
      assert node.items == BulkNodes(args);
    }
  }

  // ---------- replication ----------

  /** What a master answers to PSYNC, byte by byte. */
  lemma AnswerWrites(s: System, saving: Saving)
    requires s.link.Requested? && s.master.runId in s.logs
    ensures DoAnswer(s, saving).link.pipe
         == if Continues(s)
            then Ascii("+CONTINUE\r\n") + SliceFrom(s.master.backlog, ParseInt(s.link.off).value)
            else (Ascii("+FULLRESYNC ") + s.master.runId + Ascii(" ") + Decimal(s.master.backlog.offset)
                  + Ascii("\r\n")) + SavingText(saving)
  {
    hide Decimal, DecimalInt, ParseInt, Continues, Ascii, FullResyncLine, EncodeSimpleString, EncodeError,
      EncodeBulkString;
    ResyncText(s.master.runId, s.master.backlog.offset);
    SavingTextIs(saving);
  }

  function SavingText(saving: Saving): Bytes {
    match saving
    case Json(text) => Ascii("$") + DecimalInt(|text|) + Ascii("\r\n") + text + Ascii("\r\n")
    case Threw(message) => Ascii("-ERR ") + message + Ascii("\r\n")
  }

  lemma ResyncText(id: Bytes, offset: nat)
    ensures EncodeSimpleString(CONTINUE) == Ascii("+CONTINUE\r\n")
    ensures EncodeSimpleString(FullResyncLine(id, offset))
         == Ascii("+FULLRESYNC ") + id + Ascii(" ") + Decimal(offset) + Ascii("\r\n")
  {
    hide Decimal, Ascii;
    Signs();
    Words();
  }

  lemma SavingTextIs(saving: Saving)
    ensures saving.Json? ==> EncodeBulkString(Some(saving.text)) == SavingText(saving)
    ensures saving.Threw? ==> EncodeError(saving.message) == SavingText(saving)
  {
    hide DecimalInt, Ascii;
    EncodersWrite(if saving.Json? then saving.text else saving.message, 0, []);
  }

  lemma Words()
    ensures Ascii("+CONTINUE\r\n") == [PLUS] + CONTINUE + CRLF
    ensures Ascii("+FULLRESYNC ") == [PLUS] + FULLRESYNC + [SPACE] && Ascii(" ") == [SPACE]
    ensures Ascii("FULLRESYNC ") == FULLRESYNC + [SPACE]
    ensures Ascii("?") == NO_RUN_ID && Ascii("{") == [OPEN_BRACE]
  {
  }

  /** What a replica asks for: its master's run id and its offset, or a question mark and -1. */
  lemma ConnectAsks(s: System)
    ensures var link := DoConnect(s).link;
            link.Requested?
            && link.id == (if s.replica.masterRunId.Some? then s.replica.masterRunId.value else Ascii("?"))
            && link.off == (if s.replica.applied >= 0 then DecimalInt(s.replica.applied) else Ascii("-1"))
  {
    Words();
    assert Decimal(1) == [49] && Ascii("-1") == [45, 49];
  }

  /** What a replica makes of the master's lines, and which bulk strings it takes for a snapshot. */
  lemma ReplicaReads(r: Replica, t: Bytes, b: Byte, id: Bytes, offset: nat)
    requires RunIdOk(id)
    ensures Handle(r, Simple(Ascii("CONTINUE") + t)) == r
    ensures Handle(r, Simple(Ascii("FULLRESYNC ") + id + Ascii(" ") + Decimal(offset)))
         == Replica(Some(id), offset, [], offset, false)
    ensures Handle(r, Simple(Ascii("FULLRESYNC"))) == Replica(None, -1, [], -1, false)
    ensures Handle(r, Bulk(Some(Ascii("{") + t))) == r.(loaded := true)
    ensures b != 123 ==> Handle(r, Bulk(Some([b] + t))) == r
  {
    hide Ascii, Handle;
    ContinueReads(r, t);
    ResyncReads(r, id, offset);
    BareResync(r);
    SnapshotReads(r, t, b);
  }

  lemma ContinueReads(r: Replica, t: Bytes)
    ensures Handle(r, Simple(Ascii("CONTINUE") + t)) == r
  {
    var line := Ascii("CONTINUE") + t;
    assert line[..8] == CONTINUE && line[0] == 67 && FULLRESYNC[0] == 70;
  }

  lemma ResyncReads(r: Replica, id: Bytes, offset: nat)
    requires RunIdOk(id)
    ensures Handle(r, Simple(Ascii("FULLRESYNC ") + id + Ascii(" ") + Decimal(offset)))
         == Replica(Some(id), offset, [], offset, false)
  {
    hide Decimal, Ascii, OnFullResync;
    Words();
    FullResyncLineReadsBack(r, id, offset);
    assert FULLRESYNC + [SPACE] + id + [SPACE] + Decimal(offset) == FullResyncLine(id, offset);
  }

  lemma SnapshotReads(r: Replica, t: Bytes, b: Byte)
    ensures Handle(r, Bulk(Some(Ascii("{") + t))) == r.(loaded := true)
    ensures b != 123 ==> Handle(r, Bulk(Some([b] + t))) == r
  {
    Words();
    assert (Ascii("{") + t)[..1] == [OPEN_BRACE];
    assert ([b] + t)[..1] == [b];
  }

  lemma BareResync(r: Replica)
    ensures Handle(r, Simple(Ascii("FULLRESYNC"))) == Replica(None, -1, [], -1, false)
  {
    hide ParseInt, Decimal;
    var line := Ascii("FULLRESYNC");
    assert line == FULLRESYNC && line[..|FULLRESYNC|] == FULLRESYNC;
    WordEndsAtSpace(line, []);
    assert line + [] == line;
    ParseIntDecimal(-1);
  }

  /** Which key a client's key is stored under. */
  lemma StoredKeyIs(db: nat, key: Bytes)
    ensures Dispatching.StoredKey(db, key) == Ascii("{db") + Decimal(db) + Ascii("}:") + key
  {
  }
}
