/** How the command-line client prints strings and splits command lines, src/client/client-cli.js. */
module Cli {
  import opened Wrappers

  const QUOTE: char := '"'
  const BACKSLASH: char := '\\'

  function HexDigit(n: nat): char
    requires n < 16
  {
    if n < 10 then (48 + n) as char else (97 + n - 10) as char
  }

  predicate IsHex(c: char) { '0' <= c <= '9' || 'a' <= c <= 'f' || 'A' <= c <= 'F' }

  function HexValue(c: char): nat
    requires IsHex(c)
  {
    if c <= '9' then c as int - 48 else if 'a' <= c then c as int - 87 else c as int - 55
  }

  lemma HexReadsBack(n: nat)
    requires n < 16
    ensures IsHex(HexDigit(n)) && HexValue(HexDigit(n)) == n
    ensures HexDigit(n) != QUOTE && HexDigit(n) != BACKSLASH
  {
  }

  /** Control characters without an escape of their own: printed as \u and four digits. */
  predicate Unreadable(c: char) {
    (c as int < 0x20 && c != '\n' && c != '\r' && c != '\t') || c as int == 0x7F
  }

  function EscapeChar(c: char): string {
    var code := c as int;
    if c == QUOTE then [BACKSLASH, QUOTE]
    else if c == BACKSLASH then [BACKSLASH, BACKSLASH]
    else if c == '\n' then [BACKSLASH, 'n']
    else if c == '\r' then [BACKSLASH, 'r']
    else if c == '\t' then [BACKSLASH, 't']
    else if Unreadable(c) then [BACKSLASH, 'u', '0', '0', HexDigit(code / 16), HexDigit(code % 16)]
    else if 0x80 <= code <= 0xFF then [BACKSLASH, 'x', HexDigit(code / 16), HexDigit(code % 16)]
    else [c]
  }

  function Escape(s: string): string {
    if s == "" then "" else EscapeChar(s[0]) + Escape(s[1..])
  }

  /** What is printed for each character, and what its escape stands for when it is read inside quotes. */
  lemma EscapesAre(c: char, t: string)
    ensures EscapeChar('"') == "\\\"" && EscapeChar('\\') == "\\\\" && EscapeChar('\n') == "\\n"
    ensures EscapeChar('\r') == "\\r" && EscapeChar('\t') == "\\t"
    ensures 0x20 <= c as int < 0x7F && c != '"' && c != '\\' ==> EscapeChar(c) == [c]
    ensures 0xFF < c as int ==> EscapeChar(c) == [c]
    ensures EscapeChar(0x1B as char) == "\\u001b" && EscapeChar(0x7F as char) == "\\u007f"
    ensures EscapeChar(0xE9 as char) == "\\xe9"
    ensures Unescape("\\n" + t) == ("\n", 2) && Unescape("\\r" + t) == ("\r", 2) && Unescape("\\t" + t) == ("\t", 2)
    ensures Unescape("\\\"" + t) == ("\"", 2) && Unescape("\\\\" + t) == ("\\", 2)
    ensures Unescape("\\xe9" + t) == ([0xE9 as char], 4)
  {
  }

  method EscapeForDisplay(s: string) returns (out: string)
    ensures out == Escape(s)
  {
    hide EscapeChar, Escape;
    out := "";
    assert s[0..] == s && out + Escape(s) == Escape(s);
    for i := 0 to |s|
      invariant out + Escape(s[i..]) == Escape(s)
    {
      assert s[i..][0] == s[i] && s[i..][1..] == s[i + 1..];
      EscapeOne(s[i..]);
      assert out + (EscapeChar(s[i]) + Escape(s[i + 1..])) == (out + EscapeChar(s[i])) + Escape(s[i + 1..]);
      out := out + EscapeChar(s[i]);
    }
    EscapeNone();
    assert out + "" == out;
  }

  lemma EscapeOne(s: string)
    requires s != ""
    ensures Escape(s) == EscapeChar(s[0]) + Escape(s[1..])
  {
  }

  lemma EscapeNone()
    ensures Escape("") == ""
  {
  }

  // ---------- splitting ----------

  function Push(current: string): seq<string> { if current == "" then [] else [current] }

  /** What a backslash inside quotes stands for, and how many characters it takes; there is one after it. */
  function Unescape(s: string): (string, nat)
    requires |s| > 1
    ensures 2 <= Unescape(s).1 <= |s|
  {
    var next := s[1];
    if next == 'x' && |s| > 3 then
      if IsHex(s[2]) && IsHex(s[3]) then ([(HexValue(s[2]) * 16 + HexValue(s[3])) as char], 4) else ([next], 2)
    else if next == 'n' then ("\n", 2)
    else if next == 'r' then ("\r", 2)
    else if next == 't' then ("\t", 2)
    else ([next], 2)
  }

  /** The arguments still to come when `s` is left to read. */
  function Scan(s: string, current: string, quote: Option<char>): seq<string>
    decreases |s|
  {
    if s == "" then Push(current)
    else
      match quote
      case Some(q) =>
        if s[0] == q then Scan(s[1..], current, None)
        else if s[0] == BACKSLASH && |s| > 1 then
          var u := Unescape(s);
          Scan(s[u.1..], current + u.0, quote)
        else Scan(s[1..], current + [s[0]], quote)
      case None =>
        if s[0] == QUOTE || s[0] == '\'' then Scan(s[1..], current, Some(s[0]))
        else if s[0] == ' ' then Push(current) + Scan(s[1..], "", None)
        else Scan(s[1..], current + [s[0]], None)
  }

  method SplitArgs(input: string) returns (result: seq<string>)
    ensures result == Scan(input, "", None)
  {
    hide Scan, Unescape, Push;
    result := [];
    var current: string := "";
    var quote: Option<char> := None;
    var i := 0;
    assert input[0..] == input && [] + Scan(input, "", None) == Scan(input, "", None);
    while i < |input|
      invariant 0 <= i <= |input|
      invariant result + Scan(input[i..], current, quote) == Scan(input, "", None)
    {
      var ch := input[i];
      assert input[i..][0] == ch && input[i..][1..] == input[i + 1..];
      ScanOne(input[i..], current, quote);
      if quote.Some? {
        if ch == quote.value {
          quote := None;
        } else if ch == BACKSLASH && i + 1 < |input| {
          var text, end := ReadEscape(input, i);
          current := current + text;
          i := end;
        } else {
          current := current + [ch];
        }
      } else if ch == QUOTE || ch == '\'' {
        quote := Some(ch);
      } else if ch == ' ' {
        PushThen(result, current, Scan(input[i + 1..], "", None));
        if |current| > 0 {
          result := result + [current];
          current := "";
        }
      } else {
        current := current + [ch];
      }
      i := i + 1;
    }
    ScanNone(current, quote);
    PushThen(result, current, []);
    assert input[i..] == "";
    if |current| > 0 { result := result + [current]; }
  }

  /** The branch behind a backslash; `end` is the last character it takes. */
  method ReadEscape(input: string, i: nat) returns (text: string, end: nat)
    requires i + 1 < |input|
    ensures (text, end + 1 - i) == Unescape(input[i..]) && i < end < |input|
    ensures input[end + 1..] == input[i..][Unescape(input[i..]).1..]
  {
    end := i + 1;
    var nextCh := input[end];
    if nextCh == 'x' && end + 2 < |input| {
      if IsHex(input[end + 1]) && IsHex(input[end + 2]) {
        text := [(HexValue(input[end + 1]) * 16 + HexValue(input[end + 2])) as char];
        end := end + 2;
      } else {
        text := [nextCh];
      }
    } else {
      text := if nextCh == 'n' then "\n" else if nextCh == 'r' then "\r" else if nextCh == 't' then "\t" else [nextCh];
    }
  }

  lemma ScanOne(s: string, current: string, quote: Option<char>)
    requires s != ""
    ensures Scan(s, current, quote) ==
            match quote
            case Some(q) =>
              if s[0] == q then Scan(s[1..], current, None)
              else if s[0] == BACKSLASH && |s| > 1 then Scan(s[Unescape(s).1..], current + Unescape(s).0, quote)
              else Scan(s[1..], current + [s[0]], quote)
            case None =>
              if s[0] == QUOTE || s[0] == '\'' then Scan(s[1..], current, Some(s[0]))
              else if s[0] == ' ' then Push(current) + Scan(s[1..], "", None)
              else Scan(s[1..], current + [s[0]], None)
  {
  }

  lemma PushThen(result: seq<string>, current: string, more: seq<string>)
    ensures result + (Push(current) + more) == (if |current| > 0 then result + [current] else result) + more
    ensures |current| == 0 ==> current == ""
    ensures Push(current) + [] == Push(current) && forall r: seq<string> :: r + [] == r
  {
    assert result + (Push(current) + more) == (result + Push(current)) + more;
    assert result + [] == result;
  }

  lemma ScanNone(current: string, quote: Option<char>)
    ensures Scan("", current, quote) == Push(current)
  {
  }

  // ---------- printing, then splitting ----------

  function Quoted(s: string): string { [QUOTE] + Escape(s) + [QUOTE] }

  /** Quoted arguments separated by single spaces. */
  function Join(args: seq<string>): string {
    if args == [] then ""
    else if |args| == 1 then Quoted(args[0])
    else Quoted(args[0]) + " " + Join(args[1..])
  }

  /** What comes back for a character: itself, or for an unreadable one the letter u and its digits. */
  function BackChar(c: char): string {
    if Unreadable(c) then ['u', '0', '0', HexDigit(c as int / 16), HexDigit(c as int % 16)] else [c]
  }

  function Back(s: string): string {
    if s == "" then "" else BackChar(s[0]) + Back(s[1..])
  }

  lemma {:induction false} ScanPlain(w: string, t: string, current: string)
    requires forall c :: c in w ==> c != QUOTE && c != BACKSLASH
    ensures Scan(w + t, current, Some(QUOTE)) == Scan(t, current + w, Some(QUOTE))
    decreases |w|
  {
    if w == "" {
      assert w + t == t && current + w == current;
    } else {
      assert (w + t)[0] == w[0] && (w + t)[1..] == w[1..] + t;
      assert w[0] in w;
      assert forall c :: c in w[1..] ==> c in w;
      ScanPlain(w[1..], t, current + [w[0]]);
      assert current + [w[0]] + w[1..] == current + w;
    }
  }

  lemma {:induction false} ScanEscapedChar(c: char, t: string, current: string)
    ensures Scan(EscapeChar(c) + t, current, Some(QUOTE)) == Scan(t, current + BackChar(c), Some(QUOTE))
  {
    var e := EscapeChar(c);
    var s := e + t;
    var code := c as int;
    if Unreadable(c) {
      HexReadsBack(code / 16);
      HexReadsBack(code % 16);
      var digits := ['0', '0', HexDigit(code / 16), HexDigit(code % 16)];
      assert s[2..] == digits + t && s[1] == 'u' && s[0] == BACKSLASH;
      assert Unescape(s) == ("u", 2);
      ScanPlain(digits, t, current + "u");
      assert current + "u" + digits == current + BackChar(c);
    } else if 0x80 <= code <= 0xFF {
      HexReadsBack(code / 16);
      HexReadsBack(code % 16);
      assert s[4..] == t && s[..4] == e;
      assert s[0] == BACKSLASH && s[1] == 'x' && s[2] == HexDigit(code / 16) && s[3] == HexDigit(code % 16);
      assert Unescape(s) == ([c], 4);
    } else if |e| == 2 {
      assert s[2..] == t && s[0] == BACKSLASH && s[1] == e[1];
      assert Unescape(s) == ([c], 2);
    } else {
      assert s[1..] == t && s[0] == c;
    }
  }

  lemma {:induction false} ScanEscaped(s: string, t: string, current: string)
    ensures Scan(Escape(s) + t, current, Some(QUOTE)) == Scan(t, current + Back(s), Some(QUOTE))
    decreases |s|
  {
    hide Scan, EscapeChar, BackChar;
    if s == "" {
      assert "" + t == t && current + "" == current;
    } else {
      var e, more := EscapeChar(s[0]), Escape(s[1..]);
      assert Escape(s) + t == e + (more + t);
      assert current + BackChar(s[0]) + Back(s[1..]) == current + Back(s);
      ScanEscapedChar(s[0], more + t, current);
      ScanEscaped(s[1..], t, current + BackChar(s[0]));
    }
  }

  lemma {:induction false} ScanQuoted(s: string, t: string)
    ensures Scan(Quoted(s) + t, "", None) == Scan(t, Back(s), None)
  {
    var body := Escape(s) + ([QUOTE] + t);
    assert Quoted(s) + t == [QUOTE] + body;
    assert ([QUOTE] + body)[1..] == body;
    ScanEscaped(s, [QUOTE] + t, "");
    assert "" + Back(s) == Back(s);
    assert ([QUOTE] + t)[1..] == t;
  }

  /** What a list of arguments comes back as: each argument as Back, the empty ones lost. */
  function Returned(args: seq<string>): seq<string> {
    if args == [] then [] else Push(Back(args[0])) + Returned(args[1..])
  }

  /** The exact result of splitting a printed line, for all lists of all strings. */
  lemma {:induction false} SplitOfJoin(args: seq<string>)
    ensures Scan(Join(args), "", None) == Returned(args)
    decreases |args|
  {
    hide Quoted, Back;
    if |args| == 1 {
      ScanQuoted(args[0], "");
      assert Quoted(args[0]) + "" == Quoted(args[0]);
      assert Returned(args[1..]) == [] && Push(Back(args[0])) + [] == Push(Back(args[0]));
    } else if |args| > 1 {
      var t := " " + Join(args[1..]);
      assert Quoted(args[0]) + " " + Join(args[1..]) == Quoted(args[0]) + t;
      assert t[1..] == Join(args[1..]);
      ScanQuoted(args[0], t);
      SplitOfJoin(args[1..]);
    }
  }

  lemma {:induction false} BackLength(s: string)
    ensures |Back(s)| >= |s|
    ensures Back(s) == s <==> forall c :: c in s ==> !Unreadable(c)
    ensures (exists c :: c in s && Unreadable(c)) ==> |Back(s)| > |s|
    decreases |s|
  {
    if s != "" {
      BackLength(s[1..]);
      assert forall c :: c in s <==> c == s[0] || c in s[1..];
      assert s == [s[0]] + s[1..];
    }
  }

  lemma BackOfEmpty()
    ensures Back("") == ""
  {
  }

  lemma {:induction false} ReturnedLength(args: seq<string>)
    ensures |Returned(args)| <= |args|
    ensures |Returned(args)| == |args| <==> forall s :: s in args ==> s != ""
    decreases |args|
  {
    hide Back;
    if args != [] {
      var first, rest := args[0], args[1..];
      assert forall s :: s in args <==> s == first || s in rest;
      ReturnedLength(rest);
      BackLength(first);
      assert |Returned(args)| == |Push(Back(first))| + |Returned(rest)|;
      if first == "" {
        BackOfEmpty();
        assert first in args && |Returned(args)| < |args|;
      } else {
        assert |Returned(args)| == |args| <==> |Returned(rest)| == |rest|;
      }
    }
  }

  lemma {:induction false} ReturnedIsSame(args: seq<string>)
    requires forall s :: s in args ==> s != ""
    ensures Returned(args) == args <==> forall s :: s in args ==> Back(s) == s
    decreases |args|
  {
    hide Back;
    if args != [] {
      var first, rest := args[0], args[1..];
      assert forall s :: s in args <==> s == first || s in rest;
      assert args == [first] + rest;
      ReturnedIsSame(rest);
      BackLength(first);
      assert first in args && Back(first) != "";
      var r := Returned(args);
      assert r == [Back(first)] + Returned(rest);
      assert r[0] == Back(first) && r[1..] == Returned(rest);
    }
  }

  /** ROUND TRIP. Splitting what was printed gives the list back exactly when no argument is empty and none
      holds a control character other than tab, LF and CR, nor 0x7F. */
  lemma {:induction false} PrintThenSplitIff(args: seq<string>)
    ensures Scan(Join(args), "", None) == args
       <==> forall s :: s in args ==> s != "" && forall c :: c in s ==> !Unreadable(c)
  {
    hide Back, Scan, Join, Unreadable;
    SplitOfJoin(args);
    ReturnedLength(args);
    forall s | s in args ensures Back(s) == s <==> forall c :: c in s ==> !Unreadable(c) { BackLength(s); }
    if forall s :: s in args ==> s != "" { ReturnedIsSame(args); }
  }
}
