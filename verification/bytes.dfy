/** Byte strings, the fixed-width big-endian encoding that stands in for
    `util.num2bytes`, and hexadecimal text as `binascii` reads and writes it.
    Python 2 byte strings are character sequences whose codes are below 256. */
module Bytes {
  import opened Wrappers

  /** A character sequence that is a Python 2 byte string. */
  predicate IsBytes(s: string)
  {
    forall i :: 0 <= i < |s| ==> s[i] as int < 256
  }

  /** 256 to the power `k`: the number of values `k` bytes can hold. */
  function Pow256(k: nat): (p: nat)
    ensures p > 0
  {
    if k == 0 then 1 else 256 * Pow256(k - 1)
  }

  /** The signature components the signing device returns: unsigned
      integers below 2^256 = `Pow256(32)`, so they fit 32 bytes. */
  type U256 = n: nat | n < Pow256(32)

  /** The unsigned integer a big-endian byte string denotes. */
  function FromBigEndian(b: string): nat
  {
    if |b| == 0 then 0 else 256 * FromBigEndian(b[..|b| - 1]) + b[|b| - 1] as int
  }

  /** `k`-byte big-endian encoding of `n` (`util.num2bytes(n, k)`); the
      value must fit, see README. */
  function BigEndian(n: nat, k: nat): (b: string)
    requires n < Pow256(k)
    ensures |b| == k && IsBytes(b)
    ensures FromBigEndian(b) == n
  {
    if k == 0 then []
    else
      var high := BigEndian(n / 256, k - 1);
      var b := high + [(n % 256) as char];
      assert b[..|b| - 1] == high;
      b
  }

  /** A k-byte string denotes a value that k bytes can hold. */
  lemma {:induction false} FromBigEndianBound(b: string)
    requires IsBytes(b)
    ensures FromBigEndian(b) < Pow256(|b|)
    decreases |b|
  {
    if |b| > 0 {
      FromBigEndianBound(b[..|b| - 1]);
    }
  }

  /** The other direction of the round trip: decoding then encoding a byte
      string at its own width gives it back. */
  lemma {:induction false} BigEndianFromBigEndian(b: string)
    requires IsBytes(b)
    ensures FromBigEndian(b) < Pow256(|b|)
    ensures BigEndian(FromBigEndian(b), |b|) == b
    decreases |b|
  {
    FromBigEndianBound(b);
    if |b| > 0 {
      var init := b[..|b| - 1];
      BigEndianFromBigEndian(init);
      var n := FromBigEndian(b);
      assert n / 256 == FromBigEndian(init);
      assert n % 256 == b[|b| - 1] as int;
      assert init + [b[|b| - 1]] == b;
    }
  }

  /** Value of one hexadecimal digit, either case; `None` for any other character. */
  function HexValue(c: char): (v: Option<nat>)
    ensures v.Some? ==> v.value < 16
  {
    if '0' <= c <= '9' then Some(c as int - '0' as int)
    else if 'a' <= c <= 'f' then Some(c as int - 'a' as int + 10)
    else if 'A' <= c <= 'F' then Some(c as int - 'A' as int + 10)
    else None
  }

  /** Hexadecimal digit for `0 <= n < 16`, in upper case (as `{:02X}`
      writes) or lower case (as `binascii.hexlify` writes). */
  function HexDigit(n: nat, upper: bool): (c: char)
    requires n < 16
    ensures HexValue(c) == Some(n)
    ensures if upper then !('a' <= c <= 'f') else !('A' <= c <= 'F')
  {
    if n < 10 then ('0' as int + n) as char
    else if upper then ('A' as int + n - 10) as char
    else ('a' as int + n - 10) as char
  }

  /** `'{:02X}'.format(n)` for a byte value: two upper-case digits, high first. */
  function Format02X(n: nat): (d: string)
    requires n < 256
    ensures |d| == 2
    ensures HexValue(d[0]).Some? && HexValue(d[1]).Some?
    ensures 16 * HexValue(d[0]).value + HexValue(d[1]).value == n
    ensures !('a' <= d[0] <= 'f') && !('a' <= d[1] <= 'f')
  {
    [HexDigit(n / 16, true), HexDigit(n % 16, true)]
  }

  /** The byte the digit pair at `s[2 * i], s[2 * i + 1]` denotes, high digit
      first, if both are hexadecimal digits. */
  function PairValue(s: string, i: nat): Option<nat>
    requires 2 * i + 1 < |s|
  {
    match (HexValue(s[2 * i]), HexValue(s[2 * i + 1]))
    case (Some(hi), Some(lo)) => Some(16 * hi + lo)
    case _ => None
  }

  /** `b` is what the hex text `s` denotes, pair by pair. */
  predicate DecodesTo(s: string, b: string)
  {
    && |s| == 2 * |b|
    && forall i :: 0 <= i < |b| ==> PairValue(s, i) == Some(b[i] as int)
  }

  lemma DecodesToCons(s: string, c: char, b: string)
    requires |s| >= 2 && PairValue(s, 0) == Some(c as int) && DecodesTo(s[2..], b)
    ensures DecodesTo(s, [c] + b)
  {
    var cb := [c] + b;
    forall i | 1 <= i < |cb|
      ensures PairValue(s, i) == Some(cb[i] as int)
    {
      assert s[2 * i] == s[2..][2 * (i - 1)] && s[2 * i + 1] == s[2..][2 * (i - 1) + 1];
      assert PairValue(s, i) == PairValue(s[2..], i - 1);
    }
  }

  /** `binascii.unhexlify(s)`: pairs of hexadecimal digits, either case, to
      bytes. `None` is the `TypeError` Python 2 raises for an odd length or a
      non-hexadecimal digit. */
  function Unhexlify(s: string): (r: Option<string>)
    ensures r.Some? <==> |s| % 2 == 0 && forall i :: 0 <= i < |s| ==> HexValue(s[i]).Some?
    ensures r.Some? ==> DecodesTo(s, r.value) && IsBytes(r.value)
    decreases |s|
  {
    if |s| == 0 then Some([])
    else if |s| == 1 then None
    else
      var tail := Unhexlify(s[2..]);
      assert forall i :: 2 <= i < |s| ==> s[i] == s[2..][i - 2];
      if HexValue(s[0]).None? || HexValue(s[1]).None? || tail.None? then None
      else
        var c := (16 * HexValue(s[0]).value + HexValue(s[1]).value) as char;
        DecodesToCons(s, c, tail.value);
        Some([c] + tail.value)
  }

  /** Hex text of a byte string, in upper case (as gpg writes keygrips and
      digests) or in lower case (as `binascii.hexlify` does): the reference
      inverse of `Unhexlify`. */
  function Hexlify(b: string, upper: bool): (s: string)
    requires IsBytes(b)
    ensures |s| == 2 * |b|
  {
    if b == [] then []
    else [HexDigit(b[0] as int / 16, upper), HexDigit(b[0] as int % 16, upper)] + Hexlify(b[1..], upper)
  }

  /** Decoding undoes encoding in either case, so `Unhexlify` recovers every
      byte string. */
  lemma {:induction false} UnhexlifyHexlify(b: string, upper: bool)
    requires IsBytes(b)
    ensures Unhexlify(Hexlify(b, upper)) == Some(b)
    decreases |b|
  {
    if b != [] {
      UnhexlifyHexlify(b[1..], upper);
      var s := Hexlify(b, upper);
      assert s[2..] == Hexlify(b[1..], upper);
      assert [b[0]] + b[1..] == b;
    }
  }
}
