/** `sig_encode` of trezor_agent/gpg/agent.py: an ECDSA signature (r, s) as
    the gpg `sig-val` S-expression, escaped for an Assuan data line. */
module Signature {
  import opened Wrappers
  import opened Bytes
  import opened Assuan
  import opened SExpr

  /** The fixed framing of the signature template, in order. */
  const SigPrefix: string := "(7:sig-val(5:ecdsa(1:r32:"
  const SigMiddle: string := ")(1:s32:"
  const SigSuffix: string := ")))"

  /** `util.num2bytes(n, 32)`: the 32-byte big-endian encoding. */
  function Num2Bytes32(n: U256): (b: string)
    ensures |b| == 32 && IsBytes(b) && FromBigEndian(b) == n
  {
    BigEndian(n, 32)
  }

  /** `sig_encode(r, s)`: each component serialized separately and placed in
      the template, which ends with a line feed. */
  function SigEncode(r: U256, s: U256): (line: string)
    ensures |line| >= 101 && line[|line| - 1] == '\n'
    ensures '\n' !in line[..|line| - 1]
  {
    var x, y := Serialize(Num2Bytes32(r)), Serialize(Num2Bytes32(s));
    FramingIsLiteral();
    JoinedWithoutLineFeed(SigPrefix, x, SigMiddle, y, SigSuffix);
    var body := SigPrefix + x + SigMiddle + y + SigSuffix;
    assert (body + "\n")[..|body|] == body;
    body + "\n"
  }

  /** Five texts without a line feed make one without a line feed. */
  lemma JoinedWithoutLineFeed(p: string, x: string, m: string, y: string, t: string)
    requires '\n' !in p && '\n' !in x && '\n' !in m && '\n' !in y && '\n' !in t
    ensures '\n' !in p + x + m + y + t
  {
  }

  /** What a client recovers from a signature line: unescape everything
      before the final line feed, match the template, and read the two
      32-byte big-endian components. Reference inverse of `SigEncode`. */
  function SigDecode(line: string): Option<(nat, nat)>
  {
    if |line| == 0 || line[|line| - 1] != '\n' then None
    else
      var u := Unescape(line[..|line| - 1]);
      if |u| == 100 && u[..25] == SigPrefix && u[57..65] == SigMiddle && u[97..] == SigSuffix
      then Some((FromBigEndian(u[25..57]), FromBigEndian(u[65..97])))
      else None
  }

  /** The framing text needs no escaping: it has no `%`, line feed or
      carriage return. */
  predicate IsLiteral(t: string)
  {
    forall i :: 0 <= i < |t| ==> !IsReserved(t[i])
  }

  lemma FramingIsLiteral()
    ensures IsLiteral(SigPrefix) && IsLiteral(SigMiddle) && IsLiteral(SigSuffix)
  {
    assert IsLiteral(SigPrefix);
    assert IsLiteral(SigMiddle);
    assert IsLiteral(SigSuffix);
  }

  lemma {:induction false} LiteralEscapes(t: string)
    requires IsLiteral(t)
    ensures Escape(t) == t && IsEscaped(t) && '%' !in t
    decreases |t|
  {
    if t != [] {
      LiteralEscapes(t[1..]);
      assert [t[0]] + t[1..] == t;
    }
  }

  /** The payload of a signature data line, before unescaping. */
  lemma SigEncodeShape(r: U256, s: U256)
    ensures var sig := SigEncode(r, s);
      && |sig| >= 1 && sig[|sig| - 1] == '\n'
      && sig[..|sig| - 1]
         == SigPrefix + Escape(Num2Bytes32(r)) + SigMiddle + Escape(Num2Bytes32(s)) + SigSuffix
  {
    SerializeIsSinglePass(Num2Bytes32(r));
    SerializeIsSinglePass(Num2Bytes32(s));
    var sig := SigEncode(r, s);
    var body := SigPrefix + Escape(Num2Bytes32(r)) + SigMiddle + Escape(Num2Bytes32(s)) + SigSuffix;
    assert sig == body + "\n";
    assert sig[..|sig| - 1] == body;
  }

  lemma RegroupTemplate(a: string, b: string, c: string, d: string, e: string)
    ensures a + b + c + d + e == a + (b + (c + (d + e)))
  {
  }

  /** Two escaped fields in literal framing make a legal payload. */
  lemma TemplateIsEscaped(p: string, x: string, m: string, y: string, t: string)
    requires IsLiteral(p) && IsLiteral(m) && IsLiteral(t)
    ensures IsEscaped(p + Escape(x) + m + Escape(y) + t)
  {
    LiteralEscapes(p);
    LiteralEscapes(m);
    LiteralEscapes(t);
    EscapeIsEscaped(x);
    EscapeIsEscaped(y);
    IsEscapedAppend(p, Escape(x));
    IsEscapedAppend(p + Escape(x), m);
    IsEscapedAppend(p + Escape(x) + m, Escape(y));
    IsEscapedAppend(p + Escape(x) + m + Escape(y), t);
  }

  /** Unescaping such a payload recovers the framing and both fields. */
  lemma TemplateUnescapes(p: string, x: string, m: string, y: string, t: string)
    requires IsLiteral(p) && IsLiteral(m) && IsLiteral(t)
    ensures Unescape(p + Escape(x) + m + Escape(y) + t) == p + x + m + y + t
  {
    LiteralEscapes(p);
    LiteralEscapes(m);
    LiteralEscapes(t);
    var ex, ey := Escape(x), Escape(y);
    var w1 := ey + t;
    var w2 := m + w1;
    var w3 := ex + w2;
    UnescapeLiteral(t, []);
    assert t + [] == t;
    UnescapeEscape(y, t);
    assert Unescape(w1) == y + t;
    UnescapeLiteral(m, w1);
    assert Unescape(w2) == m + (y + t);
    UnescapeEscape(x, w2);
    assert Unescape(w3) == x + (m + (y + t));
    UnescapeLiteral(p, w3);
    RegroupTemplate(p, ex, m, ey, t);
    RegroupTemplate(p, x, m, y, t);
  }

  /** A signature reply is exactly one Assuan line: it ends with its only
      line feed, holds no carriage return, and every `%` in it opens an
      escape sequence. */
  lemma SigEncodeIsOneLine(r: U256, s: U256)
    ensures var sig := SigEncode(r, s);
      && |sig| >= 1 && sig[|sig| - 1] == '\n'
      && IsEscaped(sig[..|sig| - 1])
      && (forall i :: 0 <= i < |sig| - 1 ==> sig[i] != '\n')
  {
    SigEncodeShape(r, s);
    FramingIsLiteral();
    TemplateIsEscaped(SigPrefix, Num2Bytes32(r), SigMiddle, Num2Bytes32(s), SigSuffix);
    var sig := SigEncode(r, s);
    assert forall i :: 0 <= i < |sig| - 1 ==> sig[i] == sig[..|sig| - 1][i];
  }

  /** Unescaping a signature payload gives back the unescaped template. */
  lemma SigEncodeUnescapes(r: U256, s: U256)
    ensures var sig := SigEncode(r, s);
      && |sig| >= 1
      && Unescape(sig[..|sig| - 1])
         == SigPrefix + Num2Bytes32(r) + SigMiddle + Num2Bytes32(s) + SigSuffix
  {
    SigEncodeShape(r, s);
    FramingIsLiteral();
    TemplateUnescapes(SigPrefix, Num2Bytes32(r), SigMiddle, Num2Bytes32(s), SigSuffix);
  }

  /** The signature line carries exactly the canonical `sig-val`
      S-expression of (r, s): the fixed template's length prefixes agree with
      what they frame, once the data-line escaping is undone. */
  lemma SigEncodeIsCanonical(r: U256, s: U256)
    ensures var sig := SigEncode(r, s);
      && |sig| >= 1
      && Unescape(sig[..|sig| - 1]) == Canonical(EcdsaSigVal(Num2Bytes32(r), Num2Bytes32(s)))
  {
    SigEncodeUnescapes(r, s);
    CanonicalEcdsaSigVal(Num2Bytes32(r), Num2Bytes32(s));
  }

  /** Where the pieces of a five-part template sit. */
  lemma TemplateSlices(p: string, x: string, m: string, y: string, t: string)
    requires |p| == 25 && |x| == 32 && |m| == 8 && |y| == 32 && |t| == 3
    ensures var u := p + x + m + y + t;
      && |u| == 100
      && u[..25] == p && u[25..57] == x && u[57..65] == m && u[65..97] == y && u[97..] == t
  {
  }

  /** Round trip: a client decodes the very (r, s) that was encoded. */
  lemma SigDecodeEncode(r: U256, s: U256)
    ensures SigDecode(SigEncode(r, s)) == Some((r as nat, s as nat))
  {
    SigEncodeUnescapes(r, s);
    TemplateSlices(SigPrefix, Num2Bytes32(r), SigMiddle, Num2Bytes32(s), SigSuffix);
  }

  /** Distinct signatures give distinct lines. */
  lemma SigEncodeInjective(r1: U256, s1: U256, r2: U256, s2: U256)
    requires r1 != r2 || s1 != s2
    ensures SigEncode(r1, s1) != SigEncode(r2, s2)
  {
    SigDecodeEncode(r1, s1);
    SigDecodeEncode(r2, s2);
  }

  /** Thirty-two zero bytes. */
  function Zeros32(): string
  {
    seq(32, _ => 0 as char)
  }

  lemma {:induction false} BigEndianZero(k: nat)
    ensures BigEndian(0, k) == seq(k, _ => 0 as char)
  {
    if k > 0 {
      BigEndianZero(k - 1);
    }
  }

  /** The golden line for a zero signature: both components are 32 zero
      bytes, which need no escaping. */
  lemma ZerosNeedNoEscaping()
    ensures Serialize(Zeros32()) == Zeros32()
  {
    var z := Zeros32();
    assert IsLiteral(z);
    LiteralEscapes(z);
    SerializeIsSinglePass(z);
  }

  lemma SigEncodeZeroFraming()
    ensures SigEncode(0, 0) == SigPrefix + Zeros32() + SigMiddle + Zeros32() + SigSuffix + "\n"
  {
    BigEndianZero(32);
    ZerosNeedNoEscaping();
  }

  /** The golden line for a zero signature, character for character. */
  lemma SigEncodeZero()
    ensures SigEncode(0, 0)
            == "(7:sig-val(5:ecdsa(1:r32:" + Zeros32() + ")(1:s32:" + Zeros32() + ")))\n"
  {
    SigEncodeZeroFraming();
    FramingText(Zeros32(), Zeros32());
  }

  lemma FramingText(x: string, y: string)
    ensures SigPrefix + x + SigMiddle + y + SigSuffix + "\n"
            == "(7:sig-val(5:ecdsa(1:r32:" + x + ")(1:s32:" + y + ")))\n"
  {
  }
}
