/**
 The two ways the ACL text is cut up: `str.split(sep)` with a one-character separator,
 which keeps empty pieces, and argument-less `str.split()`, which splits on runs of
 whitespace and drops empty pieces.
 */
module Text {
  import opened Decimal

  /** The pieces of `s` between occurrences of any character of `seps`, empty pieces included. */
  function SplitOn(s: string, seps: set<char>): (r: seq<string>)
    ensures |r| >= 1
    ensures forall k :: 0 <= k < |r| ==> forall j :: 0 <= j < |r[k]| ==> r[k][j] !in seps
    decreases |s|
  {
    if |s| == 0 then [""]
    else
      var rest := SplitOn(s[1..], seps);
      if s[0] in seps then [""] + rest
      else [[s[0]] + rest[0]] + rest[1..]
  }

  /** `s.split(sep)` for a one-character separator. */
  function Split(s: string, sep: char): (r: seq<string>)
    ensures |r| >= 1
    ensures forall k :: 0 <= k < |r| ==> sep !in r[k]
  {
    var r := SplitOn(s, {sep});
    assert forall k :: 0 <= k < |r| ==> sep !in r[k] by {
      forall k | 0 <= k < |r| ensures sep !in r[k] {
        assert forall j :: 0 <= j < |r[k]| ==> r[k][j] != sep;
      }
    }
    r
  }

  /** `sep.join(parts)`: the pieces in order, with exactly one separator between neighbours. */
  function Join(parts: seq<string>, sep: char): (r: string)
    ensures |parts| > 0 ==> |r| == TotalLength(parts) + |parts| - 1
    decreases |parts|
  {
    if |parts| == 0 then ""
    else if |parts| == 1 then parts[0]
    else parts[0] + [sep] + Join(parts[1..], sep)
  }

  /** The summed length of the pieces. */
  function TotalLength(parts: seq<string>): nat
    decreases |parts|
  {
    if |parts| == 0 then 0 else |parts[0]| + TotalLength(parts[1..])
  }

  /** `s.split()`: the maximal runs of non-whitespace characters, in order. */
  function Words(s: string): (r: seq<string>)
    ensures forall k :: 0 <= k < |r| ==> |r[k]| > 0 && NoSpace(r[k])
  {
    NonEmpty(SplitOn(s, WhiteSpace))
  }

  const WhiteSpace: set<char> := {' ', '\t', '\n', '\U{000B}', '\U{000C}', '\r'}

  lemma WhiteSpaceIsSpace()
    ensures forall c :: c in WhiteSpace <==> IsSpace(c)
  {
  }

  function NonEmpty(ps: seq<string>): (r: seq<string>)
    requires forall k :: 0 <= k < |ps| ==> forall j :: 0 <= j < |ps[k]| ==> ps[k][j] !in WhiteSpace
    ensures forall k :: 0 <= k < |r| ==> |r[k]| > 0 && NoSpace(r[k])
    ensures forall k :: 0 <= k < |ps| && |ps[k]| > 0 ==> ps[k] in r
    ensures forall w :: w in r ==> w in ps
    decreases |ps|
  {
    WhiteSpaceIsSpace();
    if |ps| == 0 then []
    else
      var rest := NonEmpty(ps[1..]);
      assert forall k :: 1 <= k < |ps| ==> ps[k] == ps[1..][k - 1];
      if |ps[0]| == 0 then rest else [ps[0]] + rest
  }

  /** Splitting after a separator-free prefix: the prefix joins the first piece of the rest. */
  lemma {:induction false} SplitOnPrefix(w: string, t: string, seps: set<char>)
    requires forall j :: 0 <= j < |w| ==> w[j] !in seps
    ensures SplitOn(w + t, seps) == [w + SplitOn(t, seps)[0]] + SplitOn(t, seps)[1..]
    decreases |w|
  {
    if |w| > 0 {
      assert (w + t)[1..] == w[1..] + t;
      SplitOnPrefix(w[1..], t, seps);
      assert [w[0]] + (w[1..] + SplitOn(t, seps)[0]) == w + SplitOn(t, seps)[0];
    } else {
      var r := SplitOn(t, seps);
      assert w + t == t && w + r[0] == r[0];
      assert r == [r[0]] + r[1..];
    }
  }

  /** A separator-free piece, a separator, then the rest: the piece comes off whole. */
  lemma SplitOnSep(w: string, c: char, t: string, seps: set<char>)
    requires forall j :: 0 <= j < |w| ==> w[j] !in seps
    requires c in seps
    ensures SplitOn(w + [c] + t, seps) == [w] + SplitOn(t, seps)
  {
    SplitOnPrefix(w, [c] + t, seps);
    assert w + [c] + t == w + ([c] + t);
    assert ([c] + t)[1..] == t;
    assert SplitOn([c] + t, seps) == [""] + SplitOn(t, seps);
    assert w + "" == w;
  }

  /** A string without separators is one piece. */
  lemma SplitOnNone(w: string, seps: set<char>)
    requires forall j :: 0 <= j < |w| ==> w[j] !in seps
    ensures SplitOn(w, seps) == [w]
  {
    SplitOnPrefix(w, "", seps);
    assert w + "" == w;
  }

  /** `sep.join(s.split(sep)) == s`. */
  lemma {:induction false} JoinSplit(s: string, sep: char)
    ensures Join(Split(s, sep), sep) == s
    decreases |s|
  {
    if |s| > 0 {
      JoinSplit(s[1..], sep);
      var rest := SplitOn(s[1..], {sep});
      if s[0] == sep {
        assert s == [sep] + s[1..];
      } else {
        var r := [[s[0]] + rest[0]] + rest[1..];
        if |rest| == 1 {
          assert s == [s[0]] + rest[0];
        } else {
          assert r[1..] == rest[1..];
          assert rest == [rest[0]] + rest[1..];
          assert Join(rest, sep) == rest[0] + [sep] + Join(rest[1..], sep);
          assert s == [s[0]] + s[1..];
        }
      }
    }
  }

  /** `sep.join(parts).split(sep) == parts` when no part holds the separator. */
  lemma {:induction false} SplitJoin(parts: seq<string>, sep: char)
    requires |parts| > 0
    requires forall k :: 0 <= k < |parts| ==> sep !in parts[k]
    ensures Split(Join(parts, sep), sep) == parts
    decreases |parts|
  {
    if |parts| == 1 {
      SplitOnNone(parts[0], {sep});
    } else {
      SplitJoin(parts[1..], sep);
      SplitOnSep(parts[0], sep, Join(parts[1..], sep), {sep});
      assert parts == [parts[0]] + parts[1..];
    }
  }

  /** Two whitespace-free words with a whitespace character between them split into exactly those words. */
  lemma WordsOfPair(a: string, c: char, b: string)
    requires |a| > 0 && NoSpace(a) && |b| > 0 && NoSpace(b) && IsSpace(c)
    ensures Words(a + [c] + b) == [a, b]
  {
    WhiteSpaceIsSpace();
    SplitOnSep(a, c, b, WhiteSpace);
    SplitOnNone(b, WhiteSpace);
    var ps := [a] + [b];
    assert ps[1..] == [b];
    assert [b][1..] == [];
    assert NonEmpty([b]) == [b];
    assert NonEmpty(ps) == [a] + [b];
  }
}
