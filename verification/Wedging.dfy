/** When the parser of src/core/protocol.js has stopped for good: what it has read so far can never be completed
    to a message, whatever bytes follow. */
module Wedging {
  import opened Wrappers
  import opened Bytes
  import opened Protocol

  const X: Byte := 120
  const ZERO: Byte := 48

  /** The length -4 has been read and no further character can change it. The message will end two bytes before
      its header does, and those two bytes are CR LF. */
  predicate ForcedMinusFour(line: Bytes) { ParseInt(line) == Some(-4) && ParseInt(line + [ZERO]) == Some(-4) }

  /** However `s` is completed to a message, a blank line comes next. */
  predicate LeavesBlank(s: Bytes)
    decreases |s|, 0
  {
    s != [] && !StartsBlank(s) &&
    match CrlfIndex(s[1..])
    case None => s[0] == DOLLAR && ForcedMinusFour(s[1..])
    case Some(i) =>
      match ReadLine(s[0], s[1..i + 1])
      case ArrayHead(count) => LeavesBlankAfter(s[i + 3..], count)
      case _ => false
  }

  predicate LeavesBlankAfter(s: Bytes, count: int)
    decreases |s|, 1, count
  {
    count > 0 &&
    match Parse(s)
    case Complete(_, c) => LeavesBlankAfter(s[c..], count - 1)
    case Incomplete => count == 1 && LeavesBlank(s)
    case Runaway => false
  }

  /** A blank line stands, or is bound to stand, where a message or an array's next element has to start. */
  predicate Wedged(s: Bytes)
    decreases |s|, 0
  {
    s != [] &&
    (StartsBlank(s) ||
     match CrlfIndex(s[1..])
     case None => false
     case Some(i) =>
       match ReadLine(s[0], s[1..i + 1])
       case ArrayHead(count) => WedgedIn(s[i + 3..], count)
       case _ => false)
  }

  predicate WedgedIn(s: Bytes, count: int)
    decreases |s|, 1, count
  {
    count > 0 &&
    match Parse(s)
    case Complete(_, c) => WedgedIn(s[c..], count - 1)
    case Incomplete => Wedged(s) || (count > 1 && LeavesBlank(s))
    case Runaway => false
  }

  // ---------- wedged is for good ----------

  /** A first line that has ended stays as it is. */
  lemma FirstLineStays(s: Bytes, t: Bytes)
    requires s != [] && !StartsBlank(s) && CrlfIndex(s[1..]).Some?
    ensures var i := CrlfIndex(s[1..]).value; var u := s + t;
            u[0] == s[0] && !StartsBlank(u) && CrlfIndex(u[1..]) == Some(i)
            && u[1..i + 1] == s[1..i + 1] && u[i + 3..] == s[i + 3..] + t
  {
    var i := CrlfIndex(s[1..]).value;
    assert (s + t)[1..] == s[1..] + t;
    CrlfIndexExtend(s[1..], t);
  }

  /** The digits of a number, without white space and sign. */
  function Magnitude(line: Bytes): Bytes {
    var t := SkipSpace(line);
    if t != [] && (t[0] == 45 || t[0] == 43) then t[1..] else t
  }

  lemma MagnitudeConcat(line: Bytes, more: Bytes)
    requires SkipSpace(line) != []
    ensures Magnitude(line + more) == Magnitude(line) + more
    ensures SkipSpace(line + more) != [] && SkipSpace(line + more)[0] == SkipSpace(line)[0]
  {
    SkipSpaceConcat(line, more);
    var t := SkipSpace(line);
    assert (t + more)[1..] == t[1..] + more;
  }

  lemma ForcedStays(line: Bytes, more: Bytes)
    requires ForcedMinusFour(line)
    ensures ParseInt(line + more) == Some(-4)
  {
    hide SkipSpace;
    MagnitudeConcat(line, [ZERO]);
    MagnitudeConcat(line, more);
    var u := Magnitude(line);
    if forall i :: 0 <= i < |u| ==> IsDigit(u[i]) {
      AnotherZero(u);
      assert false;
    }
    DigitsEnd(u, more, 0);
  }

  lemma AnotherZero(u: Bytes)
    requires forall i :: 0 <= i < |u| ==> IsDigit(u[i])
    ensures ReadDigits(u + [ZERO], 0) == 10 * ReadDigits(u, 0)
  {
    ReadDigitsConcat(u, [ZERO], 0);
    assert [ZERO][1..] == [];
  }

  /** A character that is not a digit ends a number without changing it. */
  lemma {:induction false} NonDigitEnds(line: Bytes, x: Byte)
    requires !IsDigit(x)
    ensures ParseInt(line + [x]) == ParseInt(line)
    decreases |line|
  {
    if line != [] && IsSpace(line[0]) {
      assert (line + [x])[1..] == line[1..] + [x];
      NonDigitEnds(line[1..], x);
    } else if line == [] {
      assert line + [x] == [x] && [x][1..] == [];
    } else {
      MagnitudeConcat(line, [x]);
      DigitsThen(Magnitude(line), x, 0);
    }
  }

  lemma {:induction false} DigitsThen(u: Bytes, x: Byte, acc: nat)
    requires !IsDigit(x)
    ensures ReadDigits(u + [x], acc) == ReadDigits(u, acc)
  {
    if u != [] && IsDigit(u[0]) {
      assert (u + [x])[1..] == u[1..] + [x];
      DigitsThen(u[1..], x, acc * 10 + (u[0] - 48));
    }
  }

  lemma {:induction false} SkipSpaceConcat(a: Bytes, b: Bytes)
    requires SkipSpace(a) != []
    ensures SkipSpace(a + b) == SkipSpace(a) + b
  {
    if IsSpace(a[0]) {
      assert (a + b)[1..] == a[1..] + b;
      SkipSpaceConcat(a[1..], b);
    }
  }

  /** Behind a character that is not a digit nothing counts. */
  lemma {:induction false} DigitsEnd(u: Bytes, more: Bytes, acc: nat)
    requires exists i :: 0 <= i < |u| && !IsDigit(u[i])
    ensures ReadDigits(u + more, acc) == ReadDigits(u, acc)
  {
    if IsDigit(u[0]) {
      assert (u + more)[1..] == u[1..] + more;
      var i :| 0 <= i < |u| && !IsDigit(u[i]);
      assert u[1..][i - 1] == u[i];
      DigitsEnd(u[1..], more, acc * 10 + (u[0] - 48));
    }
  }

  lemma {:induction false} LeavesBlankMeans(s: Bytes, t: Bytes)
    requires LeavesBlank(s)
    ensures match Parse(s + t)
            case Incomplete => true
            case Complete(_, c) => StartsBlank((s + t)[c..])
            case Runaway => false
    decreases |s|, 0
  {
    hide ReadLine, ParseItems, ForcedMinusFour, CrlfIndex;
    match CrlfIndex(s[1..])
    case None => ForcedLeavesBlank(s, t);
    case Some(i) =>
      FirstLineStays(s, t);
      match ReadLine(s[0], s[1..i + 1])
      case ArrayHead(count) =>
        LeavesBlankAfterMeans(s[i + 3..], t, count);
        var items := ParseItems(s[i + 3..] + t, count);
        if items.Items? {
          assert (s + t)[i + 3 + items.size..] == (s[i + 3..] + t)[items.size..];
        }
      case _ =>
  }

  lemma {:induction false} LeavesBlankAfterMeans(s: Bytes, t: Bytes, count: int)
    ensures LeavesBlankAfter(s, count) ==>
              match ParseItems(s + t, count)
              case ItemsIncomplete => true
              case Items(_, size) => StartsBlank((s + t)[size..])
              case ItemsRunaway => false
    decreases |s|, 1, count
  {
    hide Parse;
    if !LeavesBlankAfter(s, count) { return; }
    match Parse(s)
    case Complete(_, c) =>
      ParseExtend(s, t);
      assert (s + t)[c..] == s[c..] + t;
      LeavesBlankAfterMeans(s[c..], t, count - 1);
      var items := ParseItems(s[c..] + t, count - 1);
      if items.Items? {
        assert (s + t)[c + items.size..] == (s[c..] + t)[items.size..];
      }
    case Incomplete =>
      LeavesBlankMeans(s, t);
      OneItem(s + t);
    case Runaway =>
  }

  lemma OneItem(s: Bytes)
    ensures match Parse(s)
            case Incomplete => ParseItems(s, 1) == ItemsIncomplete
            case Complete(node, c) => ParseItems(s, 1) == Items([node], c)
            case Runaway => ParseItems(s, 1) == ItemsRunaway
  {
    hide Parse;
    if Parse(s).Complete? {
      assert ParseItems(s[Parse(s).consumed..], 0) == Items([], 0);
    }
  }

  lemma ForcedLeavesBlank(s: Bytes, t: Bytes)
    requires s != [] && s[0] == DOLLAR && ForcedMinusFour(s[1..]) && CrlfIndex(s[1..]).None?
    ensures match Parse(s + t)
            case Incomplete => true
            case Complete(_, c) => StartsBlank((s + t)[c..])
            case Runaway => false
  {
    hide ParseInt, CrlfIndex, ParseItems;
    var u := s + t;
    assert u[1..] == s[1..] + t;
    if CrlfIndex(u[1..]).Some? {
      var i := CrlfIndex(u[1..]).value;
      var line := s[1..];
      EndIsLater(line, t);
      MinusFourIsLong(line);
      if i >= |line| {
        var more := t[..i - |line|];
        assert u[1..i + 1] == line + more;
        ForcedStays(line, more);
      } else {
        assert line == u[1..i + 1] + [CR] by { assert u[i + 1] == line[i]; }
        NonDigitEnds(u[1..i + 1], CR);
        MinusFourIsLong(u[1..i + 1]);
      }
    }
  }

  /** A line that is not yet ended ends at its last character or later. */
  lemma {:induction false} EndIsLater(line: Bytes, t: Bytes)
    requires CrlfIndex(line).None? && CrlfIndex(line + t).Some?
    ensures CrlfIndex(line + t).value >= |line| - 1
  {
    var i := CrlfIndex(line + t).value;
    CrlfIndexIsFirst(line);
  }

  lemma MinusFourIsLong(line: Bytes)
    requires ParseInt(line) == Some(-4)
    ensures |line| >= 2
  {
  }

  /** Whatever follows, no message comes any more. */
  lemma {:induction false} WedgedForGood(s: Bytes, t: Bytes)
    requires Wedged(s)
    ensures Parse(s + t) == Incomplete
    decreases |s|, 0
  {
    hide ReadLine, ParseItems;
    if !StartsBlank(s) {
      FirstLineStays(s, t);
      var i := CrlfIndex(s[1..]).value;
      match ReadLine(s[0], s[1..i + 1])
      case ArrayHead(count) => WedgedInForGood(s[i + 3..], t, count);
      case _ =>
    }
  }

  lemma {:induction false} WedgedInForGood(s: Bytes, t: Bytes, count: int)
    requires WedgedIn(s, count)
    ensures ParseItems(s + t, count) == ItemsIncomplete
    decreases |s|, 1, count
  {
    hide Parse;
    match Parse(s)
    case Complete(_, c) =>
      ParseExtend(s, t);
      assert (s + t)[c..] == s[c..] + t;
      WedgedInForGood(s[c..], t, count - 1);
    case Incomplete =>
      if Wedged(s) {
        WedgedForGood(s, t);
      } else {
        LeavesBlankMeans(s, t);
        var u := s + t;
        if Parse(u).Complete? {
          BlankIsIncomplete(u[Parse(u).consumed..]);
          assert ParseItems(u[Parse(u).consumed..], count - 1) == ItemsIncomplete;
        }
      }
    case Runaway =>
  }

  lemma BlankIsIncomplete(s: Bytes)
    requires StartsBlank(s)
    ensures Parse(s) == Incomplete
  {
  }

  // ---------- not wedged, so it can be completed ----------

  function Xs(k: nat): (r: Bytes)
    ensures |r| == k && forall i :: 0 <= i < k ==> r[i] == X
  {
    seq(k, _ => X)
  }

  lemma {:induction false} XsEnd(line: Bytes, k: nat)
    ensures ParseInt(line + Xs(k)) == ParseInt(line)
    decreases k
  {
    if k == 0 {
      assert line + Xs(0) == line;
    } else {
      assert line + Xs(k) == (line + Xs(k - 1)) + [X];
      XsEnd(line, k - 1);
      NonDigitEnds(line + Xs(k - 1), X);
    }
  }

  /** Nothing is left over, or one whole message. */
  predicate Settled(rest: Bytes) { rest == [] || (Parse(rest).Complete? && Parse(rest).consumed == |rest|) }

  predicate CompletesWell(s: Bytes) { Parse(s).Complete? && Settled(s[Parse(s).consumed..]) }

  /** `count` empty simple strings */
  function Fill(count: nat): Bytes { if count == 0 then [] else [PLUS] + CRLF + Fill(count - 1) }

  lemma {:induction false} FillParses(count: nat)
    ensures ParseItems(Fill(count), count).Items? && ParseItems(Fill(count), count).size == |Fill(count)|
    decreases count
  {
    hide Parse;
    if count > 0 {
      var more := Fill(count - 1);
      WholeLineParses(PLUS, [], more);
      assert [PLUS] + [] + CRLF + more == Fill(count);
      assert Fill(count)[3..] == more;
      FillParses(count - 1);
    }
  }

  /** A whole message first, then that many to come. */
  lemma RestThenFill(rest: Bytes, count: nat)
    requires rest != [] && Settled(rest)
    ensures var s := rest + Fill(count);
            ParseItems(s, count + 1).Items? && ParseItems(s, count + 1).size == |s|
  {
    hide Parse;
    var s := rest + Fill(count);
    ParseExtend(rest, Fill(count));
    assert s[|rest|..] == Fill(count);
    FillParses(count);
  }

  /** A first line that has not ended, of any kind but an array's or a bulk string's. */
  lemma PlainLineCompletes(s: Bytes) returns (t: Bytes)
    requires s != [] && CrlfIndex(s[1..]).None? && !StartsBlank(s)
    requires s[0] != DOLLAR && s[0] != STAR
    ensures CompletesWell(s + t)
  {
    hide CrlfIndex, ParseInt, ParseItems, FaultText;
    var line := if s == [CR] then [X] else s[1..];
    t := (if s == [CR] then [X] else []) + CRLF;
    var u := s + t;
    assert u == [s[0]] + line + CRLF + [];
    CrlfIndexIsFirst(s[1..]);
    LineCloses(s[0], line, []);
    assert u[|line| + 3..] == [];
  }

  lemma LineCloses(prefix: Byte, line: Bytes, t: Bytes)
    requires NoCrlf(line)
    requires prefix == CR ==> line != [] && line[0] != LF
    ensures var s := [prefix] + line + CRLF + t;
            s != [] && !StartsBlank(s) && s[0] == prefix && CrlfIndex(s[1..]) == Some(|line|)
            && s[1..|line| + 1] == line && s[|line| + 3..] == t
  {
    hide CrlfIndex, NoCrlf;
    var s := [prefix] + line + CRLF + t;
    assert s[1..] == line + CRLF + t;
    CrlfIndexOfLine(line, t);
    assert prefix == CR ==> s[1] == line[0];
  }

  lemma NothingToRead()
    ensures Fill(0) == [] && forall count :: count <= 0 ==> ParseItems([], count) == Items([], 0)
  {
  }

  lemma ArrayLineCompletes(line: Bytes) returns (t: Bytes)
    requires CrlfIndex(line).None?
    ensures CompletesWell([STAR] + line + t)
  {
    hide CrlfIndex, ParseInt, Parse, ParseItems, NoCrlf, Fill, Settled;
    var number := ParseInt(line);
    var count: nat := if number.Some? && number.value > 0 then number.value else 0;
    t := CRLF + Fill(count);
    var u := [STAR] + line + t;
    assert u == [STAR] + line + CRLF + Fill(count);
    CrlfIndexIsFirst(line);
    LineCloses(STAR, line, Fill(count));
    ParseOfHead(u, |line|);
    NothingToRead();
    FillParses(count);
    EmptySettled();
    assert u[|u|..] == [] && |u| == |line| + 3 + |Fill(count)|;
  }

  lemma ParseOfHead(u: Bytes, i: nat)
    requires u != [] && !StartsBlank(u) && CrlfIndex(u[1..]) == Some(i)
    ensures Parse(u) == match ReadLine(u[0], u[1..i + 1])
                        case Whole(node) => Complete(node, i + 3)
                        case BulkHead(length) => ParseBulk(u, i + 3, length)
                        case ArrayHead(count) =>
                          match ParseItems(u[i + 3..], count)
                          case ItemsIncomplete => Incomplete
                          case ItemsRunaway => Runaway
                          case Items(nodes, size) => Complete(Array(nodes), i + 3 + size)
  {
    hide CrlfIndex, ReadLine, ParseItems;
  }

  /** The bytes that follow a line whose number is v: content, or what settles the three cases of a length
      that is too small. */
  function Content(v: Option<int>): Bytes {
    if v.Some? && v.value >= 0 then Xs(v.value + 2) else if v == Some(-3) then CRLF else []
  }

  lemma BulkLineCompletes(line: Bytes) returns (t: Bytes)
    requires CrlfIndex(line).None? && !ForcedMinusFour(line)
    ensures CompletesWell([DOLLAR] + line + t)
  {
    hide CrlfIndex, ParseInt, Parse;
    CrlfIndexIsFirst(line);
    var digit := if ParseInt(line) == Some(-4) then [ZERO] else [];
    var line1 := line + digit;
    assert digit == [] ==> line1 == line;
    var v := ParseInt(line1);
    var k: nat := if v.Some? && v.value <= -3 then -v.value else 0;
    var whole := line1 + Xs(k);
    XsEnd(line1, k);
    t := digit + Xs(k) + CRLF + Content(v);
    assert [DOLLAR] + line + t == [DOLLAR] + whole + CRLF + Content(v);
    BulkCompletes(whole, k);
  }

  /** `line` ends in k letters, enough to make up for a negative length. */
  lemma BulkCompletes(line: Bytes, k: nat)
    requires NoCrlf(line) && k <= |line| && line[|line| - k..] == Xs(k)
    requires ParseInt(line) != Some(-4)
    requires ParseInt(line).Some? && ParseInt(line).value <= -3 ==> k == -ParseInt(line).value
    ensures CompletesWell([DOLLAR] + line + CRLF + Content(ParseInt(line)))
  {
    hide CrlfIndex, ParseInt, Parse, ParseItems, NoCrlf, Settled, Content;
    var v := ParseInt(line);
    var u := [DOLLAR] + line + CRLF + Content(v);
    LineCloses(DOLLAR, line, Content(v));
    ContentLength(v);
    BulkHeadParses(u, line, v);
    EmptySettled();
    if v.Some? && v.value <= -3 {
      LeftOver(line, k, Content(v));
      if k == 3 { LoneLf(); } else { LettersParse(k - 5); }
    } else {
      assert u[Parse(u).consumed..] == [];
    }
  }

  lemma ContentLength(v: Option<int>)
    ensures |Content(v)| == if v.Some? && v.value >= 0 then v.value + 2 else if v == Some(-3) then 2 else 0
    ensures v == Some(-3) ==> Content(v) == CRLF
  {
  }

  lemma BulkHeadParses(u: Bytes, line: Bytes, v: Option<int>)
    requires u != [] && !StartsBlank(u) && u[0] == DOLLAR && CrlfIndex(u[1..]) == Some(|line|)
    requires u[1..|line| + 1] == line && v == ParseInt(line)
    requires v.Some? && v.value != -1 ==> 0 <= |line| + 3 + v.value && |line| + 5 + v.value <= |u|
    ensures Parse(u).Complete?
    ensures Parse(u).consumed == if v.Some? && v.value != -1 then |line| + 5 + v.value else |line| + 3
  {
    hide CrlfIndex, ParseInt, Parse, ParseItems;
    ParseOfHead(u, |line|);
  }

  lemma EmptySettled()
    ensures Settled([])
  {
  }

  lemma LeftOver(line: Bytes, k: nat, content: Bytes)
    requires 3 <= k <= |line| && k != 4 && line[|line| - k..] == Xs(k)
    requires content == if k == 3 then CRLF else []
    ensures ([DOLLAR] + line + CRLF + content)[|line| + 5 - k..]
         == if k == 3 then [LF] + CRLF else [X] + Xs(k - 5) + CRLF + []
  {
    var start := [DOLLAR] + line[..|line| - k];
    var end := Xs(k) + CRLF + content;
    assert line == line[..|line| - k] + Xs(k);
    assert [DOLLAR] + line + CRLF + content == start + end;
    assert |start| == |line| + 1 - k;
    assert (start + end)[|start| + 4..] == end[4..];
  }

  lemma LoneLf()
    ensures Settled([LF] + CRLF)
  {
    assert ([LF] + CRLF)[1..] == CRLF;
  }

  lemma LettersParse(k: nat)
    ensures Settled([X] + Xs(k) + CRLF + [])
  {
    hide CrlfIndex, ParseInt, ParseItems;
    WholeLineParses(X, Xs(k), []);
  }

  lemma {:induction false} Completion(s: Bytes) returns (t: Bytes)
    requires Parse(s) == Incomplete && !Wedged(s) && !LeavesBlank(s)
    ensures CompletesWell(s + t)
    decreases |s|, 0
  {
    hide ParseItems, ReadLine, ParseInt, Settled, ForcedMinusFour;
    if s == [] {
      t := [PLUS] + CRLF;
      assert s + t == Fill(1);
      EmptyStringCompletes();
    } else if CrlfIndex(s[1..]).None? {
      t := OpenLineCompletes(s);
    } else {
      var i := CrlfIndex(s[1..]).value;
      match ReadLine(s[0], s[1..i + 1])
      case Whole(_) =>
      case BulkHead(length) =>
        t := ContentCompletes(s, i, length);
      case ArrayHead(count) =>
        t := CompletionIn(s[i + 3..], count);
        ElementsComplete(s, i, count, t);
    }
  }

  /** A first line that has not ended. */
  lemma OpenLineCompletes(s: Bytes) returns (t: Bytes)
    requires Parse(s) == Incomplete && !Wedged(s) && !LeavesBlank(s)
    requires s != [] && CrlfIndex(s[1..]).None?
    ensures CompletesWell(s + t)
  {
    hide Parse, ParseItems, ReadLine, ParseInt, CrlfIndex, ForcedMinusFour, CompletesWell;
    assert s == [s[0]] + s[1..];
    if s[0] == DOLLAR {
      t := BulkLineCompletes(s[1..]);
    } else if s[0] == STAR {
      t := ArrayLineCompletes(s[1..]);
    } else {
      t := PlainLineCompletes(s);
    }
  }

  /** An array whose elements have been completed is complete. */
  lemma ElementsComplete(s: Bytes, i: nat, count: int, t: Bytes)
    requires s != [] && !StartsBlank(s)
    requires CrlfIndex(s[1..]) == Some(i) && ReadLine(s[0], s[1..i + 1]) == ArrayHead(count)
    requires var rest := s[i + 3..] + t;
             ParseItems(rest, count).Items? && Settled(rest[ParseItems(rest, count).size..])
    ensures CompletesWell(s + t)
  {
    hide ParseItems, ReadLine, CrlfIndex, Settled;
    FirstLineStays(s, t);
    var items := ParseItems(s[i + 3..] + t, count);
    assert (s + t)[i + 3 + items.size..] == (s[i + 3..] + t)[items.size..];
  }

  lemma ContentCompletes(s: Bytes, i: nat, length: int) returns (t: Bytes)
    requires Parse(s) == Incomplete && s != [] && !StartsBlank(s)
    requires CrlfIndex(s[1..]) == Some(i) && ReadLine(s[0], s[1..i + 1]) == BulkHead(length)
    ensures CompletesWell(s + t)
  {
    hide CrlfIndex, ReadLine, ParseItems, Settled;
    t := Xs(i + 5 + length - |s|);
    FirstLineStays(s, t);
    assert (s + t)[Parse(s + t).consumed..] == [];
    EmptySettled();
  }

  lemma EmptyStringCompletes()
    ensures CompletesWell(Fill(1))
  {
    assert Fill(1) == [PLUS] + CRLF + [] && ([PLUS] + CRLF)[1..] == CRLF;
  }

  lemma {:induction false} CompletionIn(s: Bytes, count: int) returns (t: Bytes)
    requires ParseItems(s, count) == ItemsIncomplete && !WedgedIn(s, count) && !LeavesBlankAfter(s, count)
    ensures ParseItems(s + t, count).Items? && Settled((s + t)[ParseItems(s + t, count).size..])
    decreases |s|, 1, count
  {
    hide Parse, Settled, Wedged, LeavesBlank;
    if Parse(s).Complete? {
      var c := Parse(s).consumed;
      t := CompletionIn(s[c..], count - 1);
      ParseExtend(s, t);
      assert (s + t)[c..] == s[c..] + t;
      var items := ParseItems(s[c..] + t, count - 1);
      assert (s + t)[c + items.size..] == (s[c..] + t)[items.size..];
    } else {
      var t0 := Completion(s);
      t := FillUp(s, t0, count);
    }
  }

  /** The first element has been completed; empty strings, or what it leaves over and empty strings, are the rest. */
  lemma FillUp(s: Bytes, t0: Bytes, count: int) returns (t: Bytes)
    requires count > 0 && CompletesWell(s + t0)
    ensures ParseItems(s + t, count).Items? && Settled((s + t)[ParseItems(s + t, count).size..])
  {
    hide Parse;
    var u := s + t0;
    var c := Parse(u).consumed;
    var rest := u[c..];
    if count == 1 {
      t := t0;
      OneItem(u);
    } else {
      var left: nat := if rest == [] then count - 1 else count - 2;
      t := t0 + Fill(left);
      assert s + t == u + Fill(left);
      ParseExtend(u, Fill(left));
      assert (s + t)[c..] == rest + Fill(left);
      if rest == [] {
        assert rest + Fill(left) == Fill(left);
        FillParses(left);
      } else {
        RestThenFill(rest, left);
      }
      var items := ParseItems(rest + Fill(left), count - 1);
      assert ParseItems(s + t, count).size == |s + t|;
    }
  }

  lemma {:induction false} BlankCompletes(s: Bytes) returns (t: Bytes)
    requires LeavesBlank(s)
    ensures Parse(s + t).Complete?
    decreases |s|, 0
  {
    hide ParseItems, ReadLine, ParseInt;
    match CrlfIndex(s[1..])
    case None => t := ForcedCompletes(s[1..]); assert s == [DOLLAR] + s[1..];
    case Some(i) =>
      match ReadLine(s[0], s[1..i + 1])
      case ArrayHead(count) =>
        t := BlankCompletesIn(s[i + 3..], count);
        FirstLineStays(s, t);
      case _ =>
  }

  lemma {:induction false} BlankCompletesIn(s: Bytes, count: int) returns (t: Bytes)
    ensures LeavesBlankAfter(s, count) ==> ParseItems(s + t, count).Items?
    decreases |s|, 1, count
  {
    hide Parse, LeavesBlank;
    if !LeavesBlankAfter(s, count) { return []; }
    match Parse(s)
    case Complete(_, c) =>
      t := BlankCompletesIn(s[c..], count - 1);
      ParseExtend(s, t);
      assert (s + t)[c..] == s[c..] + t;
    case Incomplete =>
      t := BlankCompletes(s);
      OneItem(s + t);
    case Runaway =>
  }

  lemma ForcedCompletes(line: Bytes) returns (t: Bytes)
    requires CrlfIndex(line).None? && ForcedMinusFour(line)
    ensures Parse([DOLLAR] + line + t).Complete?
  {
    hide CrlfIndex, ParseInt, ParseItems;
    t := CRLF;
    CrlfIndexIsFirst(line);
    LineCloses(DOLLAR, line, []);
    MinusFourIsLong(line);
    assert [DOLLAR] + line + CRLF + [] == [DOLLAR] + line + t;
  }

  /** STOPPED FOR GOOD. Some further input completes what has been read to a message if and only if it is not
      wedged; the condition looks only at bytes already read. */
  lemma CompletableIff(s: Bytes)
    requires Parse(s) == Incomplete
    ensures (exists t :: Parse(s + t).Complete?) <==> !Wedged(s)
  {
    hide Parse, Wedged, LeavesBlank;
    if Wedged(s) {
      forall t ensures !Parse(s + t).Complete? { WedgedForGood(s, t); }
    } else if LeavesBlank(s) {
      var t := BlankCompletes(s);
      assert Parse(s + t).Complete?;
    } else {
      var t := Completion(s);
      assert Parse(s + t).Complete?;
    }
  }

  /** The same of the whole parser: after any input, `feed` will some day return another message if and only if
      the bytes it kept are not wedged. */
  lemma FeedRecoversIff(input: Bytes)
    requires Parse(Drain(input).rest) == Incomplete
    ensures (exists t :: Drain(input + t).messages != Drain(input).messages) <==> !Wedged(Drain(input).rest)
  {
    hide Parse, Wedged;
    var d := Drain(input);
    CompletableIff(d.rest);
    forall t ensures Drain(input + t).messages != d.messages <==> Parse(d.rest + t).Complete? {
      DrainConcat(input, t);
      var more := Drain(d.rest + t).messages;
      assert Drain(input + t).messages == d.messages + more;
      assert more != [] <==> |d.messages + more| != |d.messages|;
      assert more == [] ==> d.messages + more == d.messages;
    }
  }

  /** A blank line where a message should start, and one where an array's element should, are such cases; so is
      the length -4, once something other than a digit follows it and another element is to come. */
  lemma WedgedExamples(count: nat)
    requires count >= 2
    ensures Wedged(CRLF)
    ensures Wedged([STAR] + DecimalInt(count) + CRLF + CRLF)
    ensures Wedged([STAR] + DecimalInt(count) + CRLF + Ascii("$-4x"))
  {
    MinusFourForced();
    assert Wedged(CRLF) && Parse(CRLF) == Incomplete;
    ArrayBefore(count, CRLF);
    ArrayBefore(count, Ascii("$-4x"));
  }

  lemma ArrayBefore(count: nat, s: Bytes)
    requires count > 1 && Parse(s) == Incomplete && (Wedged(s) || LeavesBlank(s))
    ensures Wedged([STAR] + DecimalInt(count) + CRLF + s)
  {
    hide DecimalInt, ParseInt, CrlfIndex, WedgedIn, ParseItems, LeavesBlank;
    HeaderReadsBack(STAR, count, s);
    NextIsWedged(s, count);
  }

  lemma NextIsWedged(s: Bytes, count: int)
    requires count > 1 && Parse(s) == Incomplete && (Wedged(s) || LeavesBlank(s))
    ensures WedgedIn(s, count)
  {
  }

  lemma MinusFourForced()
    ensures LeavesBlank(Ascii("$-4x")) && Parse(Ascii("$-4x")) == Incomplete
  {
    var s := Ascii("$-4x");
    assert s == [DOLLAR, 45, 52, X] && s[1..] == [45, 52, X];
    assert ReadDigits([52, X], 0) == 4 by { assert [52, X][1..] == [X]; }
    assert ReadDigits([52, X, ZERO], 0) == 4 by { assert [52, X, ZERO][1..] == [X, ZERO]; }
    assert [45, 52, X][1..] == [52, X] && ([45, 52, X] + [ZERO])[1..] == [52, X, ZERO];
    assert CrlfIndex([45, 52, X]) == None by { CrlfIndexIsFirst([45, 52, X]); }
  }
}
