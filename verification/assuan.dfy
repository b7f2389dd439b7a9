/** Percent-escaping of Assuan `D` data lines (`serialize` in
    trezor_agent/gpg/agent.py) with two reference definitions to check it
    against: a single-pass escaper and the receiving side's unescaper. */
module Assuan {
  import opened Text
  import opened Wrappers
  import opened Bytes

  /** `'%{:02X}'.format(ord(c))`: percent sign and two upper-case hex digits. */
  function PercentEscape(c: char): (e: string)
    requires c as int < 256
    ensures |e| == 3 && e[0] == '%'
    ensures HexValue(e[1]).Some? && HexValue(e[2]).Some?
    ensures 16 * HexValue(e[1]).value + HexValue(e[2]).value == c as int
    ensures !('a' <= e[1] <= 'f') && !('a' <= e[2] <= 'f')
  {
    ['%'] + Format02X(c as int)
  }

  /** `serialize(data)` exactly as written: three successive replace-all
      passes over the whole text, for `%`, then line feed, then carriage return. */
  function Serialize(data: string): (r: string)
    ensures '\n' !in r && '\r' !in r
    ensures |r| >= |data|
    ensures '%' !in data && '\n' !in data && '\r' !in data ==> r == data
  {
    var pass1 := ReplaceAll(data, '%', PercentEscape('%'));
    var pass2 := ReplaceAll(pass1, '\n', PercentEscape('\n'));
    ReplaceAllAbsent(pass2, '\r', PercentEscape('\r'), '\n');
    ReplaceAll(pass2, '\r', PercentEscape('\r'))
  }

  /** The characters an Assuan data line cannot carry literally. */
  predicate IsReserved(c: char)
  {
    c == '%' || c == '\n' || c == '\r'
  }

  /** Reference escaping of one character of the original text. */
  function EscapeChar(c: char): string
  {
    if c == '%' then "%25"
    else if c == '\n' then "%0A"
    else if c == '\r' then "%0D"
    else [c]
  }

  /** Reference escaper: one pass over the original text, so an escape
      sequence it produces is never escaped again. */
  function Escape(s: string): string
  {
    if s == [] then [] else EscapeChar(s[0]) + Escape(s[1..])
  }

  /** Number of reserved characters in `s`. */
  function ReservedCount(s: string): nat
  {
    if s == [] then 0 else (if IsReserved(s[0]) then 1 else 0) + ReservedCount(s[1..])
  }

  /** The shape of a well-escaped data payload: no line breaks, and every `%`
      opens one of the three escape sequences. */
  predicate IsEscaped(t: string)
  {
    && (forall i :: 0 <= i < |t| ==> t[i] != '\n' && t[i] != '\r')
    && (forall i :: 0 <= i < |t| && t[i] == '%' ==>
          i + 2 < |t| && t[i..i + 3] in {"%25", "%0A", "%0D"})
  }

  /** The receiver's decoding of a data payload: `%` and two hex digits
      stand for one byte; any other character stands for itself. */
  function Unescape(s: string): string
    decreases |s|
  {
    if |s| == 0 then []
    else if s[0] == '%' && |s| >= 3 && HexValue(s[1]).Some? && HexValue(s[2]).Some? then
      [(16 * HexValue(s[1]).value + HexValue(s[2]).value) as char] + Unescape(s[3..])
    else [s[0]] + Unescape(s[1..])
  }

  lemma {:induction false} EscapeAppend(a: string, b: string)
    ensures Escape(a + b) == Escape(a) + Escape(b)
    decreases |a|
  {
    if a == [] {
      assert a + b == b;
    } else {
      assert (a + b)[0] == a[0];
      assert (a + b)[1..] == a[1..] + b;
      EscapeAppend(a[1..], b);
    }
  }

  /** The three chained replacements agree with the single pass on one character. */
  lemma SerializeChar(c: char)
    ensures Serialize([c]) == EscapeChar(c)
  {
    assert Format02X(0x25) == "25";
    assert Format02X(0x0A) == "0A";
    assert Format02X(0x0D) == "0D";
  }

  /** `serialize` equals the single-pass escaper: replacing `%` first means no
      `%` inserted by a later pass is ever escaped again, and the inserted
      sequences contain no line feed or carriage return for the later passes
      to find. */
  lemma {:induction false} SerializeIsSinglePass(s: string)
    ensures Serialize(s) == Escape(s)
    decreases |s|
  {
    if s != [] {
      var c, rest := s[0], s[1..];
      assert s == [c] + rest;
      var p1, p2, p3 := PercentEscape('%'), PercentEscape('\n'), PercentEscape('\r');
      ReplaceAllAppend([c], rest, '%', p1);
      ReplaceAllAppend(ReplaceAll([c], '%', p1), ReplaceAll(rest, '%', p1), '\n', p2);
      ReplaceAllAppend(ReplaceAll(ReplaceAll([c], '%', p1), '\n', p2),
                       ReplaceAll(ReplaceAll(rest, '%', p1), '\n', p2), '\r', p3);
      assert Serialize(s) == Serialize([c]) + Serialize(rest);
      SerializeChar(c);
      SerializeIsSinglePass(rest);
    }
  }

  lemma {:induction false} EscapeLength(s: string)
    ensures |Escape(s)| == |s| + 2 * ReservedCount(s)
    decreases |s|
  {
    if s != [] {
      EscapeLength(s[1..]);
    }
  }

  lemma IsEscapedAppend(a: string, b: string)
    requires IsEscaped(a) && IsEscaped(b)
    ensures IsEscaped(a + b)
  {
    var t := a + b;
    forall i | 0 <= i < |t|
      ensures t[i] != '\n' && t[i] != '\r'
    {
      if i < |a| { assert t[i] == a[i]; } else { assert t[i] == b[i - |a|]; }
    }
    forall i | 0 <= i < |t| && t[i] == '%'
      ensures i + 2 < |t| && t[i..i + 3] in {"%25", "%0A", "%0D"}
    {
      if i < |a| {
        assert a[i] == '%';
        assert t[i..i + 3] == a[i..i + 3];
      } else {
        var j := i - |a|;
        assert b[j] == '%';
        assert t[i..i + 3] == b[j..j + 3];
      }
    }
  }

  lemma {:induction false} EscapeIsEscaped(s: string)
    ensures IsEscaped(Escape(s))
    decreases |s|
  {
    if s != [] {
      var e := EscapeChar(s[0]);
      assert IsEscaped(e) by {
        if IsReserved(s[0]) {
          assert e[0..3] == e;
        }
      }
      EscapeIsEscaped(s[1..]);
      IsEscapedAppend(e, Escape(s[1..]));
    }
  }

  /** One escaped character decodes back to that character. */
  lemma UnescapeEscapeChar(c: char, rest: string)
    ensures Unescape(EscapeChar(c) + rest) == [c] + Unescape(rest)
  {
    var t := EscapeChar(c) + rest;
    if c == '%' {
      assert t[..3] == "%25" && t[3..] == rest;
      assert HexValue('2') == Some(2) && HexValue('5') == Some(5);
    } else if c == '\n' {
      assert t[..3] == "%0A" && t[3..] == rest;
      assert HexValue('0') == Some(0) && HexValue('A') == Some(10);
    } else if c == '\r' {
      assert t[..3] == "%0D" && t[3..] == rest;
      assert HexValue('0') == Some(0) && HexValue('D') == Some(13);
    } else {
      assert t[0] == c && t[1..] == rest;
    }
  }

  /** The receiver gets back what was escaped, whatever follows it. */
  lemma {:induction false} UnescapeEscape(s: string, rest: string)
    ensures Unescape(Escape(s) + rest) == s + Unescape(rest)
    decreases |s|
  {
    if s == [] {
      assert Escape(s) + rest == rest;
    } else {
      UnescapeEscape(s[1..], rest);
      assert Escape(s) + rest == EscapeChar(s[0]) + (Escape(s[1..]) + rest);
      UnescapeEscapeChar(s[0], Escape(s[1..]) + rest);
      assert [s[0]] + s[1..] == s;
    }
  }

  /** Text with no `%` decodes to itself, whatever follows it. */
  lemma {:induction false} UnescapeLiteral(lit: string, rest: string)
    requires '%' !in lit
    ensures Unescape(lit + rest) == lit + Unescape(rest)
    decreases |lit|
  {
    if lit == [] {
      assert lit + rest == rest;
    } else {
      assert (lit + rest)[1..] == lit[1..] + rest;
      UnescapeLiteral(lit[1..], rest);
      assert [lit[0]] + lit[1..] == lit;
    }
  }

  /** What `serialize` promises its callers: its output is a legal data-line
      payload, it grows by two characters per reserved character, and the
      receiver decodes it back to the input (so it is injective). */
  lemma SerializeSpec(s: string)
    ensures IsEscaped(Serialize(s))
    ensures |Serialize(s)| == |s| + 2 * ReservedCount(s)
    ensures Unescape(Serialize(s)) == s
  {
    SerializeIsSinglePass(s);
    EscapeIsEscaped(s);
    EscapeLength(s);
    UnescapeEscape(s, []);
    assert Escape(s) + [] == Escape(s);
  }

  lemma EscapeBetween(a: char, c: char, b: char)
    requires !IsReserved(a) && !IsReserved(b)
    ensures Escape([a, c, b]) == [a] + EscapeChar(c) + [b]
  {
    assert Escape([b]) == [b] + Escape([]);
    assert Escape([c, b]) == EscapeChar(c) + Escape([b]);
    assert Escape([a, c, b]) == [a] + Escape([c, b]);
  }

  lemma SerializeBetween(a: char, c: char, b: char)
    requires !IsReserved(a) && !IsReserved(b)
    ensures Serialize([a, c, b]) == [a] + EscapeChar(c) + [b]
  {
    SerializeIsSinglePass([a, c, b]);
    EscapeBetween(a, c, b);
  }

  /** No double escaping: between ordinary characters, a `%` becomes `%25`
      (not `%2525`) and a line feed becomes `%0A`. */
  lemma SerializeExamples(a: char, b: char)
    requires !IsReserved(a) && !IsReserved(b)
    ensures Serialize([a, '%', b]) == [a, '%', '2', '5', b]
    ensures Serialize([a, '\n', b]) == [a, '%', '0', 'A', b]
  {
    SerializeBetween(a, '%', b);
    SerializeBetween(a, '\n', b);
  }
}
