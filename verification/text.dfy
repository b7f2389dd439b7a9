/** The two string primitives the agent relies on: `str.replace` with a
    one-character pattern and `str.split` with an explicit separator. */
module Text {

  /** `s.replace(target, replacement)` for a one-character `target`: every
      occurrence in `s` is replaced, in one left-to-right scan of `s`
      (text produced by a replacement is never scanned again). */
  function ReplaceAll(s: string, target: char, replacement: string): (r: string)
    ensures target !in s ==> r == s
    ensures target !in replacement ==> target !in r
    ensures |replacement| >= 1 ==> |r| >= |s|
  {
    if s == [] then []
    else (if s[0] == target then replacement else [s[0]]) + ReplaceAll(s[1..], target, replacement)
  }

  /** A character absent from both the text and the replacement stays absent. */
  lemma {:induction false} ReplaceAllAbsent(s: string, target: char, replacement: string, c: char)
    requires c !in s && c !in replacement
    ensures c !in ReplaceAll(s, target, replacement)
    decreases |s|
  {
    if s != [] {
      assert s[0] != c;
      ReplaceAllAbsent(s[1..], target, replacement, c);
    }
  }

  /** Replacing works piecewise: a split point never straddles an occurrence. */
  lemma {:induction false} ReplaceAllAppend(a: string, b: string, target: char, replacement: string)
    ensures ReplaceAll(a + b, target, replacement)
            == ReplaceAll(a, target, replacement) + ReplaceAll(b, target, replacement)
    decreases |a|
  {
    if a != [] {
      assert (a + b)[0] == a[0];
      assert (a + b)[1..] == a[1..] + b;
      ReplaceAllAppend(a[1..], b, target, replacement);
    } else {
      assert a + b == b;
    }
  }

  /** `s.split(sep)` for a one-character separator, as Python computes it:
      every separator splits, so adjacent separators give empty parts, and
      the result always has at least one part. */
  function Split(s: string, sep: char): (parts: seq<string>)
    ensures |parts| >= 1
    ensures forall i :: 0 <= i < |parts| ==> sep !in parts[i]
    decreases |s|
  {
    if |s| == 0 then [""]
    else
      var rest := Split(s[1..], sep);
      if s[0] == sep then [""] + rest
      else [[s[0]] + rest[0]] + rest[1..]
  }

  /** `sep.join(parts)`: the reference inverse of `Split`. */
  function Join(parts: seq<string>, sep: char): string
  {
    if |parts| == 0 then ""
    else if |parts| == 1 then parts[0]
    else parts[0] + [sep] + Join(parts[1..], sep)
  }

  /** Splitting loses nothing: joining the parts gives the line back. */
  lemma {:induction false} JoinSplit(s: string, sep: char)
    ensures Join(Split(s, sep), sep) == s
    decreases |s|
  {
    if |s| > 0 {
      var rest := Split(s[1..], sep);
      JoinSplit(s[1..], sep);
      if s[0] == sep {
        assert ([""] + rest)[1..] == rest;
      } else if |rest| > 1 {
        var parts := [[s[0]] + rest[0]] + rest[1..];
        assert parts[1..] == rest[1..];
        assert Join(rest, sep) == rest[0] + [sep] + Join(rest[1..], sep);
      }
    }
  }

  /** A text without the separator is a single part. */
  lemma {:induction false} SplitWithoutSeparator(p: string, sep: char)
    requires sep !in p
    ensures Split(p, sep) == [p]
    decreases |p|
  {
    if |p| > 0 {
      assert p[0] != sep;
      SplitWithoutSeparator(p[1..], sep);
      assert [p[0]] + p[1..] == p;
    }
  }

  /** The first separator after a separator-free prefix ends the first part. */
  lemma {:induction false} SplitAtSeparator(p: string, sep: char, rest: string)
    requires sep !in p
    ensures Split(p + [sep] + rest, sep) == [p] + Split(rest, sep)
    decreases |p|
  {
    if |p| == 0 {
      assert p + [sep] + rest == [sep] + rest;
      assert ([sep] + rest)[1..] == rest;
    } else {
      var s := p + [sep] + rest;
      assert s[0] == p[0];
      assert s[1..] == p[1..] + [sep] + rest;
      SplitAtSeparator(p[1..], sep, rest);
      var tail := Split(s[1..], sep);
      assert tail == [p[1..]] + Split(rest, sep);
      assert s[0] != sep;
      assert Split(s, sep) == [[s[0]] + tail[0]] + tail[1..];
      assert [p[0]] + p[1..] == p;
    }
  }

  /** The other direction: separator-free parts are recovered by splitting
      their join, so `Split` is a bijection onto such part lists. */
  lemma {:induction false} SplitJoin(parts: seq<string>, sep: char)
    requires |parts| >= 1
    requires forall i :: 0 <= i < |parts| ==> sep !in parts[i]
    ensures Split(Join(parts, sep), sep) == parts
    decreases |parts|
  {
    if |parts| == 1 {
      SplitWithoutSeparator(parts[0], sep);
    } else {
      SplitJoin(parts[1..], sep);
      SplitAtSeparator(parts[0], sep, Join(parts[1..], sep));
    }
  }
}
