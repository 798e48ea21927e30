/**
 The ACL text format of afs/acl.py (`_parseAcl`, `_unparseAcl`): a line with the number
 of positive entries, a line with the number of negative entries, then one
 `name<TAB>rights` line per entry, positive entries first, every line ending in "\n".
 Python's dictionary iteration order is not something the model can see, so the
 order in which `_unparseAcl` visits each dictionary is a parameter: any
 duplicate-free enumeration of its keys.
 */
module AclText {
  import opened Base
  import opened Decimal
  import opened Text

  /** An entry map: user or group name to rights bitmask. */
  type Entries = map<string, int>

  /** Both failures are Python's ValueError; the model keeps the two causes apart. */
  datatype AclError =
    | NotAnInteger   // `int()` of the count or of a bitmask
    | MalformedLine  // an entry line that is not exactly two whitespace-separated words

  /** A name `split()` can give back unchanged: non-empty and free of whitespace. */
  predicate ValidName(name: string)
  {
    |name| > 0 && NoSpace(name)
  }

  predicate ValidEntries(m: Entries)
  {
    forall name :: name in m ==> ValidName(name)
  }

  /** `order` visits every key of `m` exactly once. */
  predicate IsOrder(order: seq<string>, m: Entries)
  {
    (forall i, j :: 0 <= i < j < |order| ==> order[i] != order[j])
    && (forall name :: name in order ==> name in m)
    && (forall name :: name in m ==> name in order)
  }

  /**
   The entry loop of `_parseAcl`: blank lines are skipped; every other line must be two
   words, a name and an integer. While the counter `npos` is non-zero the entry goes to
   `pos` and the counter drops by one; once it is zero the entry goes to `neg`. A later
   line for the same name overwrites the earlier one.
   */
  function ParseEntries(lines: seq<string>, npos: int, pos: Entries, neg: Entries): (r: Result<(Entries, Entries), AclError>)
    requires ValidEntries(pos) && ValidEntries(neg)
    ensures r.Ok? ==> ValidEntries(r.value.0) && ValidEntries(r.value.1)
    ensures r.Ok? ==> pos.Keys <= r.value.0.Keys && neg.Keys <= r.value.1.Keys
    decreases |lines|
  {
    if |lines| == 0 then Ok((pos, neg))
    else if lines[0] == "" then ParseEntries(lines[1..], npos, pos, neg)
    else
      var words := Words(lines[0]);
      if |words| != 2 then Err(MalformedLine)
      else
        match ParseInt(words[1])
        case None => Err(NotAnInteger)
        case Some(v) =>
          if npos != 0 then ParseEntries(lines[1..], npos - 1, pos[words[0] := v], neg)
          else ParseEntries(lines[1..], npos, pos, neg[words[0] := v])
  }

  /** Python's `lines[2:]`, which is empty for a shorter list. */
  function Drop2(lines: seq<string>): seq<string>
  {
    if |lines| < 2 then [] else lines[2..]
  }

  /**
   `_parseAcl`: split the text on "\n", read the positive count from the first
   space-separated token of line 0, ignore line 1, and parse the remaining lines.
   Names in the result are always valid: they come out of `split()`.
   */
  function ParseAcl(text: string): (r: Result<(Entries, Entries), AclError>)
    ensures r.Ok? ==> ValidEntries(r.value.0) && ValidEntries(r.value.1)
  {
    var lines := Split(text, '\n');
    match ParseInt(Split(lines[0], ' ')[0])
    case None => Err(NotAnInteger)
    case Some(npos) => ParseEntries(Drop2(lines), npos, map[], map[])
  }

  /** A line `_parseAcl` accepts: blank, or a name and an integer. */
  predicate GoodLine(line: string)
  {
    line == "" || (|Words(line)| == 2 && ParseInt(Words(line)[1]).Some?)
  }

  /** The non-blank lines, in order. */
  function NonBlank(lines: seq<string>): (r: seq<string>)
    ensures forall k :: 0 <= k < |r| ==> r[k] != ""
    decreases |lines|
  {
    if |lines| == 0 then []
    else if lines[0] == "" then NonBlank(lines[1..])
    else [lines[0]] + NonBlank(lines[1..])
  }

  /** Reference definition of where entries land: each accepted line stores its value under its name. */
  function StoreLines(acc: Entries, lines: seq<string>): Entries
    requires forall k :: 0 <= k < |lines| ==> lines[k] != "" && GoodLine(lines[k])
    decreases |lines|
  {
    if |lines| == 0 then acc
    else
      assert GoodLine(lines[0]);
      var words := Words(lines[0]);
      StoreLines(acc[words[0] := ParseInt(words[1]).value], lines[1..])
  }

  /** `_parseAcl`'s entry loop succeeds exactly when every line is blank or a name and an integer. */
  lemma {:induction false} ParseEntriesOk(lines: seq<string>, npos: int, pos: Entries, neg: Entries)
    requires ValidEntries(pos) && ValidEntries(neg)
    ensures ParseEntries(lines, npos, pos, neg).Ok? <==> forall k :: 0 <= k < |lines| ==> GoodLine(lines[k])
    decreases |lines|
  {
    if |lines| > 0 {
      var rest := lines[1..];
      assert forall k :: 1 <= k < |lines| ==> lines[k] == rest[k - 1];
      if lines[0] == "" {
        ParseEntriesOk(rest, npos, pos, neg);
      } else if GoodLine(lines[0]) {
        var words := Words(lines[0]);
        var v := ParseInt(words[1]).value;
        if npos != 0 {
          ParseEntriesOk(rest, npos - 1, pos[words[0] := v], neg);
        } else {
          ParseEntriesOk(rest, npos, pos, neg[words[0] := v]);
        }
      }
    }
  }

  /** How many of the non-blank lines go to `pos`: all of them when the count is negative or too large. */
  function PosCount(npos: int, lines: seq<string>): (c: nat)
    ensures c <= |NonBlank(lines)|
  {
    if npos < 0 || npos > |NonBlank(lines)| then |NonBlank(lines)| else npos
  }

  /** The name and value of an accepted non-blank line. */
  function LineEntry(line: string): (string, int)
    requires line != "" && GoodLine(line)
  {
    (Words(line)[0], ParseInt(Words(line)[1]).value)
  }

  /** One step of the entry loop on an accepted non-blank line. */
  lemma ParseEntriesStep(lines: seq<string>, npos: int, pos: Entries, neg: Entries)
    requires ValidEntries(pos) && ValidEntries(neg)
    requires |lines| > 0 && lines[0] != "" && GoodLine(lines[0])
    ensures ValidName(LineEntry(lines[0]).0)
    ensures var (name, v) := LineEntry(lines[0]);
      ParseEntries(lines, npos, pos, neg)
        == if npos != 0 then ParseEntries(lines[1..], npos - 1, pos[name := v], neg)
           else ParseEntries(lines[1..], npos, pos, neg[name := v])
  {
  }

  lemma StoreLinesCons(acc: Entries, line: string, lines: seq<string>)
    requires line != "" && GoodLine(line)
    requires forall k :: 0 <= k < |lines| ==> lines[k] != "" && GoodLine(lines[k])
    ensures forall k :: 0 <= k < |[line] + lines| ==> ([line] + lines)[k] != "" && GoodLine(([line] + lines)[k])
    ensures StoreLines(acc, [line] + lines) == StoreLines(acc[LineEntry(line).0 := LineEntry(line).1], lines)
  {
    assert ([line] + lines)[1..] == lines;
  }

  /** The non-blank lines of accepted lines are accepted. */
  lemma {:induction false} NonBlankGood(lines: seq<string>)
    requires forall k :: 0 <= k < |lines| ==> GoodLine(lines[k])
    ensures forall k :: 0 <= k < |NonBlank(lines)| ==> GoodLine(NonBlank(lines)[k])
  {
    NonBlankFrom(lines);
  }

  /** Every non-blank line is one of the lines. */
  lemma {:induction false} NonBlankFrom(lines: seq<string>)
    ensures forall k :: 0 <= k < |NonBlank(lines)| ==> NonBlank(lines)[k] in lines
    decreases |lines|
  {
    if |lines| > 0 {
      var rest := lines[1..];
      NonBlankFrom(rest);
      assert forall y :: y in rest ==> y in lines;
      if lines[0] != "" {
        var nb := NonBlank(lines);
        assert nb == [lines[0]] + NonBlank(rest);
        assert forall k :: 1 <= k < |nb| ==> nb[k] == NonBlank(rest)[k - 1];
      }
    }
  }

  /** How the split point of the non-blank lines moves when the loop takes one entry. */
  lemma NonBlankSlices(lines: seq<string>, npos: int)
    requires |lines| > 0 && lines[0] != ""
    ensures var nb, nb', c := NonBlank(lines), NonBlank(lines[1..]), PosCount(npos, lines);
      && nb == [lines[0]] + nb'
      && (npos != 0 ==> c == PosCount(npos - 1, lines[1..]) + 1 && nb[..c] == [lines[0]] + nb'[..c - 1] && nb[c..] == nb'[c - 1..])
      && (npos == 0 ==> c == 0 && nb[..c] == nb'[..0] && nb[c..] == [lines[0]] + nb'[0..])
  {
    if npos != 0 {
      NonBlankSlicesPos(lines, npos);
    } else {
      NonBlankSlicesNeg(lines);
    }
  }

  /** `NonBlankSlices` while positive lines remain: the entry goes to the positive part. */
  lemma NonBlankSlicesPos(lines: seq<string>, npos: int)
    requires |lines| > 0 && lines[0] != "" && npos != 0
    ensures var nb, nb', c := NonBlank(lines), NonBlank(lines[1..]), PosCount(npos, lines);
      && nb == [lines[0]] + nb'
      && c == PosCount(npos - 1, lines[1..]) + 1 && nb[..c] == [lines[0]] + nb'[..c - 1] && nb[c..] == nb'[c - 1..]
  {
    var nb, nb' := NonBlank(lines), NonBlank(lines[1..]);
    var c, c' := PosCount(npos, lines), PosCount(npos - 1, lines[1..]);
    PosCountStep(npos, lines);
    ConsSplit(nb, nb', lines[0], c, c');
  }

  lemma ConsSplit<T>(s: seq<T>, t: seq<T>, x: T, c: nat, c': nat)
    requires s == [x] + t && c == c' + 1 && c' <= |t|
    ensures s[..c] == [x] + t[..c - 1] && s[c..] == t[c - 1..]
  {
    ConsSlices(x, t, c);
  }

  /** A non-blank first line is the first non-blank line, and it counts toward a non-zero positive count. */
  lemma PosCountStep(npos: int, lines: seq<string>)
    requires |lines| > 0 && lines[0] != "" && npos != 0
    ensures NonBlank(lines) == [lines[0]] + NonBlank(lines[1..])
    ensures PosCount(npos, lines) == PosCount(npos - 1, lines[1..]) + 1
  {
    assert NonBlank(lines) == [lines[0]] + NonBlank(lines[1..]);
  }

  /** `NonBlankSlices` once the positive count is used up: the entry goes to the negative part. */
  lemma NonBlankSlicesNeg(lines: seq<string>)
    requires |lines| > 0 && lines[0] != ""
    ensures var nb, nb', c := NonBlank(lines), NonBlank(lines[1..]), PosCount(0, lines);
      && nb == [lines[0]] + nb'
      && c == 0 && nb[..c] == nb'[..0] && nb[c..] == [lines[0]] + nb'[0..]
  {
    var nb, nb' := NonBlank(lines), NonBlank(lines[1..]);
    assert nb == [lines[0]] + nb';
    assert PosCount(0, lines) == 0;
    assert nb[..0] == [] == nb'[..0];
    assert nb[0..] == nb && nb'[0..] == nb';
  }

  lemma ConsSlices<T>(x: T, t: seq<T>, c: nat)
    requires 1 <= c <= |t| + 1
    ensures ([x] + t)[..c] == [x] + t[..c - 1]
    ensures ([x] + t)[c..] == t[c - 1..]
  {
  }

  /**
   Reference definition of the routing: the first `PosCount` non-blank lines are stored
   into `pos`, the remaining ones into `neg`.
   */
  function Route(lines: seq<string>, npos: int, pos: Entries, neg: Entries): (Entries, Entries)
    requires forall k :: 0 <= k < |lines| ==> GoodLine(lines[k])
  {
    NonBlankGood(lines);
    var nb, c := NonBlank(lines), PosCount(npos, lines);
    (StoreLines(pos, nb[..c]), StoreLines(neg, nb[c..]))
  }

  /** The routing of a list whose first line is an accepted entry, in terms of the rest. */
  lemma RouteStep(lines: seq<string>, npos: int, pos: Entries, neg: Entries)
    requires |lines| > 0 && lines[0] != ""
    requires forall k :: 0 <= k < |lines| ==> GoodLine(lines[k])
    ensures forall k :: 0 <= k < |lines[1..]| ==> GoodLine(lines[1..][k])
    ensures var (name, v) := LineEntry(lines[0]);
      Route(lines, npos, pos, neg)
        == if npos != 0 then Route(lines[1..], npos - 1, pos[name := v], neg)
           else Route(lines[1..], npos, pos, neg[name := v])
  {
    var rest := lines[1..];
    assert forall k :: 1 <= k < |lines| ==> lines[k] == rest[k - 1];
    NonBlankGood(rest);
    var nb, nb', c := NonBlank(lines), NonBlank(rest), PosCount(npos, lines);
    NonBlankSlices(lines, npos);
    if npos != 0 {
      StoreLinesCons(pos, lines[0], nb'[..c - 1]);
    } else {
      StoreLinesCons(neg, lines[0], nb'[0..]);
    }
  }

  /**
   Routing: the first `npos` non-blank lines go to `pos` and the rest to `neg`; a negative
   count is never reached by the decrement, so every entry goes to `pos`.
   */
  lemma {:induction false} ParseEntriesRoute(lines: seq<string>, npos: int, pos: Entries, neg: Entries)
    requires ValidEntries(pos) && ValidEntries(neg)
    requires forall k :: 0 <= k < |lines| ==> GoodLine(lines[k])
    ensures ParseEntries(lines, npos, pos, neg) == Ok(Route(lines, npos, pos, neg))
    decreases |lines|
  {
    if |lines| > 0 {
      var rest := lines[1..];
      assert forall k :: 1 <= k < |lines| ==> lines[k] == rest[k - 1];
      if lines[0] == "" {
        ParseEntriesRoute(rest, npos, pos, neg);
        assert NonBlank(lines) == NonBlank(rest);
      } else {
        var (name, v) := LineEntry(lines[0]);
        ParseEntriesStep(lines, npos, pos, neg);
        RouteStep(lines, npos, pos, neg);
        if npos != 0 {
          ParseEntriesRoute(rest, npos - 1, pos[name := v], neg);
        } else {
          ParseEntriesRoute(rest, npos, pos, neg[name := v]);
        }
      }
    }
  }

  /** The count token: the first space-separated piece of the first line. */
  function CountToken(text: string): string
  {
    Split(Split(text, '\n')[0], ' ')[0]
  }

  /**
   `_parseAcl` in full: it fails exactly when the count is not an integer or some line
   after the second is neither blank nor a name and an integer; otherwise the entries are
   routed by the count.
   */
  lemma ParseAclSpec(text: string)
    ensures ParseAcl(text).Ok? <==>
      ParseInt(CountToken(text)).Some? && forall k :: 0 <= k < |Drop2(Split(text, '\n'))| ==> GoodLine(Drop2(Split(text, '\n'))[k])
    ensures ParseAcl(text).Ok? ==>
      ParseAcl(text).value == Route(Drop2(Split(text, '\n')), ParseInt(CountToken(text)).value, map[], map[])
  {
    var lines := Drop2(Split(text, '\n'));
    match ParseInt(CountToken(text))
    case None =>
    case Some(n) =>
      ParseEntriesOk(lines, n, map[], map[]);
      if forall k :: 0 <= k < |lines| ==> GoodLine(lines[k]) {
        ParseEntriesRoute(lines, n, map[], map[]);
      }
  }

  /** The second line is never read: replacing it changes nothing. */
  lemma ParseAclIgnoresSecondLine(first: string, second: string, other: string, rest: string)
    requires '\n' !in first && '\n' !in second && '\n' !in other
    ensures ParseAcl(first + "\n" + second + "\n" + rest) == ParseAcl(first + "\n" + other + "\n" + rest)
  {
    SplitTwoLines(first, second, rest);
    SplitTwoLines(first, other, rest);
  }

  /**
   The count token is read by `int()` after splitting on spaces only, so a tab after the
   sign survives and is skipped: a header "-\t1" with no entry lines parses as empty.
   */
  lemma ParseAclTabAfterSign()
    ensures ParseAcl("-\t1\n0\n") == Ok((map[], map[]))
  {
    SplitTwoLines("-\t1", "0", "");
    assert "-\t1" + "\n" + "0" + "\n" + "" == "-\t1\n0\n";
    assert forall j :: 0 <= j < |"-\t1"| ==> "-\t1"[j] !in {' '};
    SplitOnNone("-\t1", {' '});
    ParseIntSpaceAfterSign();
  }

  lemma SplitTwoLines(first: string, second: string, rest: string)
    requires '\n' !in first && '\n' !in second
    ensures Split(first + "\n" + second + "\n" + rest, '\n') == [first, second] + Split(rest, '\n')
  {
    var t := second + ['\n'] + rest;
    assert forall j :: 0 <= j < |second| ==> second[j] !in {'\n'};
    assert forall j :: 0 <= j < |first| ==> first[j] !in {'\n'};
    SplitOnSep(second, '\n', rest, {'\n'});
    SplitOnSep(first, '\n', t, {'\n'});
    assert first + "\n" + second + "\n" + rest == first + ['\n'] + t;
    assert Split(rest, '\n') == SplitOn(rest, {'\n'});
  }

  /** One `"%s\t%d"` entry line, without its line end. */
  function EntryLine(name: string, v: int): string
  {
    name + "\t" + FormatInt(v)
  }

  /** The entry lines of `m` in the order `order`. */
  function EntryLines(m: Entries, order: seq<string>): (r: seq<string>)
    requires forall name :: name in order ==> name in m
    ensures |r| == |order|
    ensures forall i :: 0 <= i < |order| ==> r[i] == EntryLine(order[i], m[order[i]])
    decreases |order|
  {
    if |order| == 0 then []
    else
      var rest := EntryLines(m, order[1..]);
      assert forall i :: 1 <= i < |order| ==> order[1..][i - 1] == order[i];
      [EntryLine(order[0], m[order[0]])] + rest
  }

  /** Every line followed by "\n", concatenated. */
  function Terminated(lines: seq<string>): (r: string)
    ensures |lines| > 0 ==> |r| > |lines[0]| && r[..|lines[0]| + 1] == lines[0] + "\n"
    ensures |lines| > 0 ==> r[|r| - 1] == '\n'
    decreases |lines|
  {
    if |lines| == 0 then "" else lines[0] + "\n" + Terminated(lines[1..])
  }

  /**
   `_unparseAcl`: the header `"%d\n%d\n" % (len(pos), len(neg))`, then a terminated
   entry line per positive entry and per negative entry, in the given orders.
   */
  function UnparseAcl(pos: Entries, neg: Entries, posOrder: seq<string>, negOrder: seq<string>): (text: string)
    requires IsOrder(posOrder, pos) && IsOrder(negOrder, neg)
    ensures |text| > 0 && text[|text| - 1] == '\n'
  {
    var lines := [FormatInt(|pos|), FormatInt(|neg|)] + EntryLines(pos, posOrder) + EntryLines(neg, negOrder);
    Terminated(lines)
  }

  /** The map built by writing `m[name]` for each name of `order` in turn into `acc`. */
  function StoreAll(acc: Entries, m: Entries, order: seq<string>): Entries
    requires forall name :: name in order ==> name in m
    decreases |order|
  {
    if |order| == 0 then acc else StoreAll(acc[order[0] := m[order[0]]], m, order[1..])
  }

  lemma {:induction false} StoreAllFacts(acc: Entries, m: Entries, order: seq<string>)
    requires forall name :: name in order ==> name in m
    ensures forall k :: k in StoreAll(acc, m, order) <==> k in acc || k in order
    ensures forall k :: k in order ==> StoreAll(acc, m, order)[k] == m[k]
    ensures forall k :: k in acc && k !in order ==> StoreAll(acc, m, order)[k] == acc[k]
    decreases |order|
  {
    if |order| > 0 {
      StoreAllFacts(acc[order[0] := m[order[0]]], m, order[1..]);
      assert forall k :: k in order <==> k == order[0] || k in order[1..];
    }
  }

  /** Storing every key of `m` into an empty map rebuilds `m`. */
  lemma StoreAllOrder(m: Entries, order: seq<string>)
    requires IsOrder(order, m)
    ensures StoreAll(map[], m, order) == m
  {
    StoreAllFacts(map[], m, order);
  }

  /** An enumeration has as many elements as the map has keys. */
  lemma {:induction false} OrderLength(order: seq<string>, m: Entries)
    requires IsOrder(order, m)
    ensures |order| == |m|
    decreases |order|
  {
    if |order| == 0 {
      assert m.Keys == {};
    } else {
      var m' := map k | k in m && k != order[0] :: m[k];
      assert m'.Keys == m.Keys - {order[0]};
      forall name ensures name in order[1..] <==> name in m' {
        if name in order[1..] {
          var j :| 0 <= j < |order[1..]| && order[1..][j] == name;
          assert order[j + 1] == name;
        }
        if name in m' {
          var j :| 0 <= j < |order| && order[j] == name;
          assert order[1..][j - 1] == name;
        }
      }
      OrderLength(order[1..], m');
    }
  }

  lemma EntryLineWords(name: string, v: int)
    requires ValidName(name)
    ensures EntryLine(name, v) != ""
    ensures Words(EntryLine(name, v)) == [name, FormatInt(v)]
    ensures '\n' !in EntryLine(name, v)
  {
    WordsOfPair(name, '\t', FormatInt(v));
    assert EntryLine(name, v) == name + ['\t'] + FormatInt(v);
    var s := EntryLine(name, v);
    forall k | 0 <= k < |s| ensures s[k] != '\n' {
      if k < |name| {
        assert s[k] == name[k];
      } else if k > |name| {
        assert s[k] == FormatInt(v)[k - |name| - 1];
      }
    }
  }

  /** One entry line: its name and value go to `pos` while the counter is non-zero, else to `neg`. */
  lemma ParseEntryLine(name: string, v: int, rest: seq<string>, npos: int, pos: Entries, neg: Entries)
    requires ValidName(name) && ValidEntries(pos) && ValidEntries(neg)
    ensures npos != 0 ==>
      ParseEntries([EntryLine(name, v)] + rest, npos, pos, neg) == ParseEntries(rest, npos - 1, pos[name := v], neg)
    ensures npos == 0 ==>
      ParseEntries([EntryLine(name, v)] + rest, npos, pos, neg) == ParseEntries(rest, npos, pos, neg[name := v])
  {
    var lines := [EntryLine(name, v)] + rest;
    EntryLineWords(name, v);
    ParseFormatInt(v);
    assert lines[0] == EntryLine(name, v);
    assert lines[1..] == rest;
  }

  /** While the counter lasts, entry lines fill `pos` in order. */
  lemma {:induction false} ParsePosLines(m: Entries, order: seq<string>, rest: seq<string>, npos: int, pos: Entries, neg: Entries)
    requires forall name :: name in order ==> name in m && ValidName(name)
    requires ValidEntries(pos) && ValidEntries(neg)
    requires npos >= |order|
    ensures ValidEntries(StoreAll(pos, m, order))
    ensures ParseEntries(EntryLines(m, order) + rest, npos, pos, neg)
      == ParseEntries(rest, npos - |order|, StoreAll(pos, m, order), neg)
    decreases |order|
  {
    if |order| == 0 {
      assert EntryLines(m, order) + rest == rest;
    } else {
      var pos1 := pos[order[0] := m[order[0]]];
      PosLineStep(m, order, rest, npos, pos, neg);
      ParsePosLines(m, order[1..], rest, npos - 1, pos1, neg);
    }
  }

  /** The first entry line while the counter lasts. */
  lemma PosLineStep(m: Entries, order: seq<string>, rest: seq<string>, npos: int, pos: Entries, neg: Entries)
    requires forall name :: name in order ==> name in m && ValidName(name)
    requires ValidEntries(pos) && ValidEntries(neg)
    requires |order| > 0 && npos != 0
    ensures ValidEntries(pos[order[0] := m[order[0]]])
    ensures StoreAll(pos, m, order) == StoreAll(pos[order[0] := m[order[0]]], m, order[1..])
    ensures ParseEntries(EntryLines(m, order) + rest, npos, pos, neg)
      == ParseEntries(EntryLines(m, order[1..]) + rest, npos - 1, pos[order[0] := m[order[0]]], neg)
  {
    var name := order[0];
    assert name in order;
    EntryLinesCons(m, order, rest);
    ParseEntryLine(name, m[name], EntryLines(m, order[1..]) + rest, npos, pos, neg);
  }

  lemma EntryLinesCons(m: Entries, order: seq<string>, rest: seq<string>)
    requires forall name :: name in order ==> name in m
    requires |order| > 0
    ensures forall name :: name in order[1..] ==> name in m
    ensures EntryLines(m, order) + rest == [EntryLine(order[0], m[order[0]])] + (EntryLines(m, order[1..]) + rest)
  {
    assert forall name :: name in order[1..] ==> name in order;
    var x, t := EntryLine(order[0], m[order[0]]), EntryLines(m, order[1..]);
    assert EntryLines(m, order) == [x] + t;
    ConsAppend(x, t, rest);
  }

  lemma ConsAppend<T>(x: T, t: seq<T>, u: seq<T>)
    ensures ([x] + t) + u == [x] + (t + u)
  {
  }

  /** Once the counter is zero, entry lines fill `neg` in order. */
  lemma {:induction false} ParseNegLines(m: Entries, order: seq<string>, rest: seq<string>, pos: Entries, neg: Entries)
    requires forall name :: name in order ==> name in m && ValidName(name)
    requires ValidEntries(pos) && ValidEntries(neg)
    ensures ValidEntries(StoreAll(neg, m, order))
    ensures ParseEntries(EntryLines(m, order) + rest, 0, pos, neg)
      == ParseEntries(rest, 0, pos, StoreAll(neg, m, order))
    decreases |order|
  {
    if |order| == 0 {
      assert EntryLines(m, order) + rest == rest;
    } else {
      var name := order[0];
      assert name in order;
      var neg1 := neg[name := m[name]];
      assert ValidEntries(neg1);
      EntryLinesCons(m, order, rest);
      ParseEntryLine(name, m[name], EntryLines(m, order[1..]) + rest, 0, pos, neg);
      ParseNegLines(m, order[1..], rest, pos, neg1);
      assert StoreAll(neg, m, order) == StoreAll(neg1, m, order[1..]);
    }
  }

  /** Terminating every line is joining the lines with an empty last line. */
  lemma {:induction false} TerminatedJoin(lines: seq<string>)
    ensures Terminated(lines) == Join(lines + [""], '\n')
    decreases |lines|
  {
    if |lines| > 0 {
      TerminatedJoin(lines[1..]);
      assert (lines + [""])[1..] == lines[1..] + [""];
    }
  }

  /** The lines `_unparseAcl` writes, in order. */
  function UnparsedLines(pos: Entries, neg: Entries, posOrder: seq<string>, negOrder: seq<string>): seq<string>
    requires IsOrder(posOrder, pos) && IsOrder(negOrder, neg)
  {
    [FormatInt(|pos|), FormatInt(|neg|)] + EntryLines(pos, posOrder) + EntryLines(neg, negOrder)
  }

  /** No line of `lines` holds a line break. */
  predicate OneLineEach(lines: seq<string>)
  {
    forall k :: 0 <= k < |lines| ==> '\n' !in lines[k]
  }

  lemma OneLineEachConcat(a: seq<string>, b: seq<string>)
    requires OneLineEach(a) && OneLineEach(b)
    ensures OneLineEach(a + b)
  {
    assert forall k :: |a| <= k < |a + b| ==> (a + b)[k] == b[k - |a|];
  }

  lemma FormatIntOneLine(n: int)
    ensures '\n' !in FormatInt(n) && ' ' !in FormatInt(n)
  {
    var s := FormatInt(n);
    assert forall k :: 0 <= k < |s| ==> !IsSpace(s[k]);
  }

  /** No entry line holds a line break. */
  lemma {:induction false} EntryLinesOneLine(m: Entries, order: seq<string>)
    requires forall name :: name in order ==> name in m && ValidName(name)
    ensures OneLineEach(EntryLines(m, order))
    decreases |order|
  {
    if |order| > 0 {
      EntryLineWords(order[0], m[order[0]]);
      EntryLinesOneLine(m, order[1..]);
      OneLineEachConcat([EntryLine(order[0], m[order[0]])], EntryLines(m, order[1..]));
    }
  }

  /** Text whose lines are terminated splits back into those lines and one empty piece. */
  lemma SplitTerminated(lines: seq<string>)
    requires OneLineEach(lines)
    ensures Split(Terminated(lines), '\n') == lines + [""]
  {
    TerminatedJoin(lines);
    OneLineEachConcat(lines, [""]);
    SplitJoin(lines + [""], '\n');
  }

  lemma HeaderOneLine(a: int, b: int)
    ensures OneLineEach([FormatInt(a), FormatInt(b)])
  {
    FormatIntOneLine(a);
    FormatIntOneLine(b);
  }

  /** Splitting the unparsed text on "\n" gives back its lines and one empty piece after the last "\n". */
  lemma SplitUnparsed(pos: Entries, neg: Entries, posOrder: seq<string>, negOrder: seq<string>)
    requires ValidEntries(pos) && ValidEntries(neg)
    requires IsOrder(posOrder, pos) && IsOrder(negOrder, neg)
    ensures Split(UnparseAcl(pos, neg, posOrder, negOrder), '\n') == UnparsedLines(pos, neg, posOrder, negOrder) + [""]
  {
    var head := [FormatInt(|pos|), FormatInt(|neg|)];
    var pl := EntryLines(pos, posOrder);
    var nl := EntryLines(neg, negOrder);
    HeaderOneLine(|pos|, |neg|);
    EntryLinesOneLine(pos, posOrder);
    EntryLinesOneLine(neg, negOrder);
    OneLineEachConcat(head, pl);
    OneLineEachConcat(head + pl, nl);
    SplitTerminated(head + pl + nl);
  }

  /** Text whose first line is a printed count parses its lines from the third on with that count. */
  lemma ParseAclCounted(text: string, n: int)
    requires |Split(text, '\n')| >= 2 && Split(text, '\n')[0] == FormatInt(n)
    ensures ParseAcl(text) == ParseEntries(Split(text, '\n')[2..], n, map[], map[])
  {
    FormatIntOneLine(n);
    SplitOnNone(FormatInt(n), {' '});
    ParseFormatInt(n);
  }

  /** The unparsed text announces `len(pos)` positive entries and is otherwise its entry lines. */
  lemma ParseUnparsedHeader(pos: Entries, neg: Entries, posOrder: seq<string>, negOrder: seq<string>)
    requires ValidEntries(pos) && ValidEntries(neg)
    requires IsOrder(posOrder, pos) && IsOrder(negOrder, neg)
    ensures ParseAcl(UnparseAcl(pos, neg, posOrder, negOrder))
      == ParseEntries(EntryLines(pos, posOrder) + (EntryLines(neg, negOrder) + [""]), |posOrder|, map[], map[])
  {
    var text := UnparseAcl(pos, neg, posOrder, negOrder);
    SplitUnparsed(pos, neg, posOrder, negOrder);
    OrderLength(posOrder, pos);
    ParseAclCounted(text, |pos|);
    DropHeader([FormatInt(|pos|), FormatInt(|neg|)], EntryLines(pos, posOrder), EntryLines(neg, negOrder));
  }

  lemma DropHeader(head: seq<string>, pl: seq<string>, nl: seq<string>)
    requires |head| == 2
    ensures (head + pl + nl + [""])[2..] == pl + (nl + [""])
  {
  }

  /**
   `_parseAcl(_unparseAcl(pos, neg)) == (pos, neg)` for every pair of entry maps whose
   names are non-empty and whitespace-free, whatever order the dictionaries are visited in.
   */
  lemma ParseUnparse(pos: Entries, neg: Entries, posOrder: seq<string>, negOrder: seq<string>)
    requires ValidEntries(pos) && ValidEntries(neg)
    requires IsOrder(posOrder, pos) && IsOrder(negOrder, neg)
    ensures ParseAcl(UnparseAcl(pos, neg, posOrder, negOrder)) == Ok((pos, neg))
  {
    ParseUnparsedHeader(pos, neg, posOrder, negOrder);
    ParseEntryBlocks(pos, neg, posOrder, negOrder);
  }

  /** The positive block fills `pos` exactly, then the negative block fills `neg` exactly. */
  lemma ParseEntryBlocks(pos: Entries, neg: Entries, posOrder: seq<string>, negOrder: seq<string>)
    requires ValidEntries(pos) && ValidEntries(neg)
    requires IsOrder(posOrder, pos) && IsOrder(negOrder, neg)
    ensures ParseEntries(EntryLines(pos, posOrder) + (EntryLines(neg, negOrder) + [""]), |posOrder|, map[], map[])
      == Ok((pos, neg))
  {
    var nl := EntryLines(neg, negOrder);
    ParsePosLines(pos, posOrder, nl + [""], |posOrder|, map[], map[]);
    StoreAllOrder(pos, posOrder);
    ParseNegLines(neg, negOrder, [""], pos, map[]);
    StoreAllOrder(neg, negOrder);
    assert ParseEntries([""], 0, pos, neg) == Ok((pos, neg));
  }

}
