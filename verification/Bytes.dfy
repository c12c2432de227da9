/** Bytes, ASCII literals and the two number conversions that RESP headers rely on. */
module Bytes {
  import opened Wrappers

  type Byte = x: int | 0 <= x < 256
  type Bytes = seq<Byte>

  const CR: Byte := 13
  const LF: Byte := 10
  const CRLF: Bytes := [CR, LF]
  const SPACE: Byte := 32

  predicate IsDigit(b: Byte) { 48 <= b <= 57 }

  // The ASCII white space that JavaScript's parseInt and the pattern \s skip.
  predicate IsSpace(b: Byte) { 9 <= b <= 13 || b == SPACE }

  /** Bytes of an ASCII literal; characters outside ASCII never occur in the literals used here. */
  function Ascii(s: string): (r: Bytes)
    ensures |r| == |s|
  {
    seq(|s|, i requires 0 <= i < |s| => if s[i] < 128 as char then s[i] as int else 63)
  }

  // ---------- decimal notation ----------

  function Decimal(n: nat): (r: Bytes)
    ensures |r| > 0
    ensures forall i :: 0 <= i < |r| ==> IsDigit(r[i])
  {
    if n < 10 then [48 + n] else Decimal(n / 10) + [48 + n % 10]
  }

  /** String(num) for an integer. */
  function DecimalInt(n: int): Bytes {
    if n < 0 then [45] + Decimal(-n) else Decimal(n)
  }

  /** The value of the longest run of leading digits, read after `acc`. */
  function ReadDigits(s: Bytes, acc: nat): nat {
    if s != [] && IsDigit(s[0]) then ReadDigits(s[1..], acc * 10 + (s[0] - 48)) else acc
  }

  function SkipSpace(s: Bytes): (r: Bytes)
    ensures |r| <= |s|
  {
    if s != [] && IsSpace(s[0]) then SkipSpace(s[1..]) else s
  }

  /** parseInt(s, 10): leading white space, an optional sign, then as many digits as follow; None is NaN. */
  function ParseInt(s: Bytes): Option<int> {
    var t := SkipSpace(s);
    var negative := t != [] && t[0] == 45;
    var u := if t != [] && (t[0] == 45 || t[0] == 43) then t[1..] else t;
    if u == [] || !IsDigit(u[0]) then None
    else
      var magnitude: int := ReadDigits(u, 0);
      Some(if negative then -magnitude else magnitude)
  }

  lemma {:induction false} ReadDigitsConcat(a: Bytes, b: Bytes, acc: nat)
    requires forall i :: 0 <= i < |a| ==> IsDigit(a[i])
    ensures ReadDigits(a + b, acc) == ReadDigits(b, ReadDigits(a, acc))
  {
    if a == [] {
      assert a + b == b;
    } else {
      assert (a + b)[1..] == a[1..] + b;
      ReadDigitsConcat(a[1..], b, acc * 10 + (a[0] - 48));
    }
  }

  lemma {:induction false} ReadDecimal(n: nat)
    ensures ReadDigits(Decimal(n), 0) == n
  {
    if n >= 10 {
      ReadDecimal(n / 10);
      ReadDigitsConcat(Decimal(n / 10), [48 + n % 10], 0);
      assert [48 + n % 10][1..] == [];
    }
  }

  /** parseInt reads back every integer that String printed. */
  lemma {:induction false} ParseIntDecimal(n: int)
    ensures ParseInt(DecimalInt(n)) == Some(n)
    ensures NoCrlf(DecimalInt(n))
  {
    var s := DecimalInt(n);
    assert SkipSpace(s) == s;
    if n < 0 {
      assert s[1..] == Decimal(-n);
      ReadDecimal(-n);
    } else {
      ReadDecimal(n);
    }
  }

  // ---------- line ends ----------

  /** Index of the first CR LF pair. */
  function CrlfIndex(s: Bytes): (r: Option<nat>)
    ensures r.Some? ==> r.value + 2 <= |s| && s[r.value] == CR && s[r.value + 1] == LF
  {
    if |s| < 2 then None
    else if s[0] == CR && s[1] == LF then Some(0)
    else
      match CrlfIndex(s[1..])
      case None => None
      case Some(i) => Some(i + 1)
  }

  predicate NoCrlf(s: Bytes) {
    forall i :: 0 <= i < |s| - 1 ==> !(s[i] == CR && s[i + 1] == LF)
  }

  lemma {:induction false} CrlfIndexIsFirst(s: Bytes)
    ensures CrlfIndex(s).None? <==> NoCrlf(s)
    ensures CrlfIndex(s).Some? ==> NoCrlf(s[..CrlfIndex(s).value])
  {
    if |s| >= 2 && !(s[0] == CR && s[1] == LF) {
      var t := s[1..];
      CrlfIndexIsFirst(t);
      if NoCrlf(t) {
        forall i | 0 <= i < |s| - 1 ensures !(s[i] == CR && s[i + 1] == LF) {
          if i > 0 { assert s[i] == t[i - 1] && s[i + 1] == t[i]; }
        }
      } else {
        var k :| 0 <= k < |t| - 1 && t[k] == CR && t[k + 1] == LF;
        assert s[k + 1] == CR && s[k + 2] == LF;
        var i := CrlfIndex(t).value;
        forall j | 0 <= j < i ensures !(s[j] == CR && s[j + 1] == LF) {
          if j > 0 {
            assert s[j] == t[..i][j - 1] && (j < i ==> s[j + 1] == t[j]);
            if j < i { assert t[..i][j] == t[j]; }
          }
        }
      }
    }
  }

  lemma {:induction false} CrlfIndexExtend(s: Bytes, t: Bytes)
    requires CrlfIndex(s).Some?
    ensures CrlfIndex(s + t) == CrlfIndex(s)
  {
    if !(s[0] == CR && s[1] == LF) {
      assert (s + t)[1..] == s[1..] + t;
      CrlfIndexExtend(s[1..], t);
    }
  }

  lemma {:induction false} CrlfIndexOfLine(line: Bytes, t: Bytes)
    requires NoCrlf(line)
    ensures CrlfIndex(line + CRLF + t) == Some(|line|)
  {
    var s := line + CRLF + t;
    if line != [] {
      assert s[1..] == line[1..] + CRLF + t;
      assert NoCrlf(line[1..]);
      CrlfIndexOfLine(line[1..], t);
    }
  }
}
