/** Canonical S-expressions, the length-prefixed text format gpg parses
    signatures from: an atom is its decimal length, a colon and its bytes; a
    list is its items' encodings between parentheses. Used here as the
    reference the agent's fixed signature template is checked against. */
module SExpr {

  datatype SExp = Atom(bytes: string) | List(items: seq<SExp>)

  function DigitChar(d: nat): char
    requires d < 10
  {
    ('0' as int + d) as char
  }

  /** Decimal numeral of `n`, without leading zeros. */
  function Decimal(n: nat): string
  {
    if n < 10 then [DigitChar(n)] else Decimal(n / 10) + [DigitChar(n % 10)]
  }

  /** Canonical encoding of an S-expression. */
  function Canonical(e: SExp): string
    decreases e
  {
    match e
    case Atom(b) => Decimal(|b|) + ":" + b
    case List(items) => "(" + CanonicalItems(items) + ")"
  }

  /** The items of a list, encoded one after another. */
  function CanonicalItems(items: seq<SExp>): string
    decreases items
  {
    if items == [] then "" else Canonical(items[0]) + CanonicalItems(items[1..])
  }

  /** The `sig-val` structure for an ECDSA signature with components `r` and `s`. */
  function EcdsaSigVal(r: string, s: string): SExp
  {
    List([Atom("sig-val"), List([Atom("ecdsa"), List([Atom("r"), Atom(r)]), List([Atom("s"), Atom(s)])])])
  }

  lemma ItemsOne(a: SExp)
    ensures CanonicalItems([a]) == Canonical(a)
  {
    assert [a][1..] == [];
  }

  lemma CanonicalPair(a: SExp, b: SExp)
    ensures Canonical(List([a, b])) == "(" + Canonical(a) + Canonical(b) + ")"
  {
    assert [a, b][1..] == [b];
    ItemsOne(b);
  }

  lemma CanonicalTriple(a: SExp, b: SExp, c: SExp)
    ensures Canonical(List([a, b, c])) == "(" + Canonical(a) + Canonical(b) + Canonical(c) + ")"
  {
    var (x, y, z) := (Canonical(a), Canonical(b), Canonical(c));
    assert CanonicalItems([b, c]) == y + z by {
      assert [b, c][1..] == [c];
      ItemsOne(c);
    }
    assert CanonicalItems([a, b, c]) == x + (y + z) by {
      assert [a, b, c][1..] == [b, c];
    }
    assert "(" + (x + (y + z)) + ")" == "(" + x + y + z + ")";
  }

  lemma CanonicalAtom(b: string)
    ensures Canonical(Atom(b)) == Decimal(|b|) + ":" + b
  {
  }

  /** A one-letter tag with a 32-byte value: `(1:<tag>32:<value>)`. */
  lemma CanonicalField(tag: char, v: string)
    requires |v| == 32
    ensures Canonical(List([Atom([tag]), Atom(v)])) == "(1:" + [tag] + "32:" + v + ")"
  {
    assert Decimal(32) == "32" by {
      assert Decimal(3) == "3";
    }
    CanonicalPair(Atom([tag]), Atom(v));
    CanonicalAtom([tag]);
    CanonicalAtom(v);
  }

  /** The `ecdsa` list: its tag, then the two fields. */
  lemma CanonicalEcdsa(rField: SExp, sField: SExp)
    ensures Canonical(List([Atom("ecdsa"), rField, sField]))
            == "(5:ecdsa" + Canonical(rField) + Canonical(sField) + ")"
  {
    CanonicalTriple(Atom("ecdsa"), rField, sField);
    CanonicalAtom("ecdsa");
    assert Canonical(Atom("ecdsa")) == "5:ecdsa";
  }

  /** The outer `sig-val` list around its one item. */
  lemma CanonicalSigValTag(inner: SExp)
    ensures Canonical(List([Atom("sig-val"), inner])) == "(7:sig-val" + Canonical(inner) + ")"
  {
    CanonicalPair(Atom("sig-val"), inner);
    CanonicalAtom("sig-val");
    assert Canonical(Atom("sig-val")) == "7:sig-val";
  }

  lemma RegroupSigVal(a: string, b: string, c: string, d: string, e: string)
    ensures a + (b + c + d) + e == a + b + c + d + e
  {
  }

  /** The encoding of a `sig-val` with two 32-byte components. */
  lemma CanonicalEcdsaSigVal(r: string, s: string)
    requires |r| == 32 && |s| == 32
    ensures Canonical(EcdsaSigVal(r, s))
            == "(7:sig-val(5:ecdsa(1:r32:" + r + ")(1:s32:" + s + ")))"
  {
    var rField := List([Atom("r"), Atom(r)]);
    var sField := List([Atom("s"), Atom(s)]);
    var ecdsa := List([Atom("ecdsa"), rField, sField]);
    var rText := "(1:r32:" + r + ")";
    var sText := "(1:s32:" + s + ")";
    CanonicalField('r', r);
    CanonicalField('s', s);
    CanonicalEcdsa(rField, sField);
    CanonicalSigValTag(ecdsa);
    RegroupSigVal("(7:sig-val", "(5:ecdsa", rText, sText + ")", ")");
  }
}
