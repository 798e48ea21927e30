/**
 The access-rights codec of afs/acl.py: the character-to-flag table, parsing a rights
 string such as "rlidwk" into a bitmask, printing a bitmask back in table order, and
 the five canonical names.

 The flag values live in a foreign extension module; the model takes the OpenAFS
 values, each flag a single bit: READ 0x1, WRITE 0x2, INSERT 0x4, LOOKUP 0x8,
 DELETE 0x10, LOCK 0x20, ADMINISTER 0x40 and USR0..USR7 0x01000000..0x80000000.
 A flag is stored as its bit position; its mask is `Pow2(bit)`.
 */
module Rights {
  import opened Base
  import opened Bits

  datatype Assoc = Assoc(ch: char, bit: nat)

  const ReadBit: nat := 0
  const WriteBit: nat := 1
  const InsertBit: nat := 2
  const LookupBit: nat := 3
  const DeleteBit: nat := 4
  const LockBit: nat := 5
  const AdministerBit: nat := 6
  const Usr0Bit: nat := 24
  const Usr7Bit: nat := 31

  /** Every flag bit lies below this width. */
  const Width: nat := 32

  /** The character-to-flag table, in the order `showRights` prints it. */
  const CharBitAssoc: seq<Assoc> := [
    Assoc('r', ReadBit), Assoc('l', LookupBit), Assoc('i', InsertBit), Assoc('d', DeleteBit),
    Assoc('w', WriteBit), Assoc('k', LockBit), Assoc('a', AdministerBit),
    Assoc('A', 24), Assoc('B', 25), Assoc('C', 26), Assoc('D', 27),
    Assoc('E', 28), Assoc('F', 29), Assoc('G', 30), Assoc('H', 31)
  ]

  datatype RightsError = InvalidRightsCharacter

  /** The mask of a flag, as the extension module defines it. */
  function Mask(bit: nat): nat
  {
    Pow2(bit)
  }

  /** The concrete values the model assumes for the flag constants. */
  lemma FlagValues()
    ensures Mask(ReadBit) == 0x1 && Mask(WriteBit) == 0x2 && Mask(InsertBit) == 0x4
    ensures Mask(LookupBit) == 0x8 && Mask(DeleteBit) == 0x10 && Mask(LockBit) == 0x20
    ensures Mask(AdministerBit) == 0x40
    ensures Mask(Usr0Bit) == 0x0100_0000 && Mask(Usr7Bit) == 0x8000_0000
  {
    Pow2Usr();
  }

  lemma Pow2Byte()
    ensures Pow2(8) == 0x100
  {
    Pow2Add(4, 4);
  }

  lemma Pow2Usr()
    ensures Pow2(24) == 0x0100_0000 && Pow2(31) == 0x8000_0000
  {
    Pow2Byte();
    Pow2Add(8, 8);
    Pow2Add(16, 8);
    Pow2Add(24, 7);
    Pow2Add(4, 3);
  }

  /** The table is a genuine association: characters and bits are pairwise distinct. */
  lemma TableDistinct()
    ensures |CharBitAssoc| == 15
    ensures forall i, j :: 0 <= i < j < |CharBitAssoc| ==> CharBitAssoc[i].ch != CharBitAssoc[j].ch
    ensures forall i, j :: 0 <= i < j < |CharBitAssoc| ==> CharBitAssoc[i].bit != CharBitAssoc[j].bit
    ensures forall i :: 0 <= i < |CharBitAssoc| ==> CharBitAssoc[i].bit < Width
  {
    TableCharsDistinct();
    TableBitsDistinct();
  }

  lemma TableCharsDistinct()
    ensures forall i, j :: 0 <= i < j < |CharBitAssoc| ==> CharBitAssoc[i].ch != CharBitAssoc[j].ch
  {
  }

  lemma TableBitsDistinct()
    ensures forall i, j :: 0 <= i < j < |CharBitAssoc| ==> CharBitAssoc[i].bit != CharBitAssoc[j].bit
  {
  }

  predicate IsRightsChar(c: char)
  {
    exists i :: 0 <= i < |CharBitAssoc| && CharBitAssoc[i].ch == c
  }

  predicate AllRightsChars(s: string)
  {
    forall k :: 0 <= k < |s| ==> IsRightsChar(s[k])
  }

  /** `_char2bit[c]`: the bit of a table character, `None` for any other character. */
  function Char2Bit(c: char): (r: Option<nat>)
    ensures r.None? <==> !IsRightsChar(c)
    ensures r.Some? ==> forall i :: 0 <= i < |CharBitAssoc| && CharBitAssoc[i].ch == c ==>
      CharBitAssoc[i].bit == r.value
  {
    TableDistinct();
    LookupFrom(c, 0)
  }

  function LookupFrom(c: char, i: nat): (r: Option<nat>)
    requires i <= |CharBitAssoc|
    requires forall i, j :: 0 <= i < j < |CharBitAssoc| ==> CharBitAssoc[i].ch != CharBitAssoc[j].ch
    ensures r.None? <==> forall j :: i <= j < |CharBitAssoc| ==> CharBitAssoc[j].ch != c
    ensures r.Some? ==> exists j :: i <= j < |CharBitAssoc| && CharBitAssoc[j] == Assoc(c, r.value)
    decreases |CharBitAssoc| - i
  {
    if i == |CharBitAssoc| then None
    else if CharBitAssoc[i].ch == c then Some(CharBitAssoc[i].bit)
    else LookupFrom(c, i + 1)
  }

  /** The bits of the table entries whose character occurs in `s`. */
  ghost function FlagsOf(s: string): set<nat>
  {
    set i | 0 <= i < |CharBitAssoc| && CharBitAssoc[i].ch in s :: CharBitAssoc[i].bit
  }

  /** The bitmask whose set bits are exactly `P` (restricted to the flag width). */
  ghost function MaskOf(P: set<nat>): nat
  {
    FromBits(seq(Width, p => p in P))
  }

  /** The bits of `r` that carry a table flag. */
  ghost function Granted(r: int): set<nat>
  {
    set i | 0 <= i < |CharBitAssoc| && HasBit(r, CharBitAssoc[i].bit) :: CharBitAssoc[i].bit
  }

  lemma MaskOfBit(P: set<nat>, p: nat)
    ensures HasBit(MaskOf(P), p) <==> p < Width && p in P
  {
    FromBitsBit(seq(Width, q => q in P), p);
  }

  lemma MaskOfAddBit(P: set<nat>, p: nat)
    requires p < Width
    ensures SetBit(MaskOf(P), p) == MaskOf(P + {p})
  {
    var b := seq(Width, q => q in P);
    SetBitFromBits(b, p);
    assert b[p := true] == seq(Width, q => q in P + {p});
  }

  lemma FlagsOfSnoc(s: string, c: char, b: nat)
    requires Char2Bit(c) == Some(b)
    ensures FlagsOf(s + [c]) == FlagsOf(s) + {b}
  {
    var t := s + [c];
    assert IsRightsChar(c);
    var i :| 0 <= i < |CharBitAssoc| && CharBitAssoc[i].ch == c;
    assert CharBitAssoc[i].ch in t;
    assert b in FlagsOf(t);
    forall x | x in FlagsOf(t) ensures x in FlagsOf(s) + {b} {
      var j :| 0 <= j < |CharBitAssoc| && CharBitAssoc[j].ch in t && CharBitAssoc[j].bit == x;
      if CharBitAssoc[j].ch !in s {
        assert CharBitAssoc[j].ch == c;
      }
    }
    forall x | x in FlagsOf(s) ensures x in FlagsOf(t) {
      var j :| 0 <= j < |CharBitAssoc| && CharBitAssoc[j].ch in s && CharBitAssoc[j].bit == x;
      assert CharBitAssoc[j].ch in t;
    }
  }

  /**
   `_parseRights`: OR together the bit of every character, left to right; an empty
   string gives 0 and any character outside the table raises ValueError.
   */
  function ParseRights(s: string): (r: Result<int, RightsError>)
    ensures r.Ok? <==> AllRightsChars(s)
    ensures r.Ok? ==> r.value == MaskOf(FlagsOf(s))
    decreases |s|
  {
    if |s| == 0 then
      assert FlagsOf(s) == {};
      assert seq(Width, p => p in FlagsOf(s)) == seq(Width, p => false);
      FromBitsFalse(Width);
      Ok(0)
    else
      var init, c := s[..|s| - 1], s[|s| - 1];
      assert s == init + [c];
      match ParseRights(init)
      case Err(e) => Err(e)
      case Ok(acc) =>
        match Char2Bit(c)
        case None => Err(InvalidRightsCharacter)
        case Some(b) =>
          TableDistinct();
          FlagsOfSnoc(init, c, b);
          MaskOfAddBit(FlagsOf(init), b);
          Ok(SetBit(acc, b))
  }

  lemma {:induction false} FromBitsFalse(n: nat)
    ensures FromBits(seq(n, p => false)) == 0
  {
    if n > 0 {
      assert seq(n, p => false)[1..] == seq(n - 1, p => false);
      FromBitsFalse(n - 1);
    }
  }

  /** A parsed mask holds a flag exactly when the flag's character occurs in the string. */
  lemma ParsedBits(s: string, i: nat)
    requires ParseRights(s).Ok? && i < |CharBitAssoc|
    ensures HasBit(ParseRights(s).value, CharBitAssoc[i].bit) <==> CharBitAssoc[i].ch in s
  {
    TableDistinct();
    MaskOfBit(FlagsOf(s), CharBitAssoc[i].bit);
    if CharBitAssoc[i].bit in FlagsOf(s) {
      var j :| 0 <= j < |CharBitAssoc| && CharBitAssoc[j].ch in s && CharBitAssoc[j].bit == CharBitAssoc[i].bit;
      assert i == j;
    }
  }

  /** Position of a table character in the table; characters outside the table rank last. */
  function Rank(c: char): nat
  {
    RankFrom(c, 0)
  }

  function RankFrom(c: char, i: nat): nat
    requires i <= |CharBitAssoc|
    decreases |CharBitAssoc| - i
  {
    if i == |CharBitAssoc| then |CharBitAssoc|
    else if CharBitAssoc[i].ch == c then i
    else RankFrom(c, i + 1)
  }

  lemma RankOfTable(i: nat)
    requires i < |CharBitAssoc|
    ensures Rank(CharBitAssoc[i].ch) == i
  {
    TableDistinct();
    RankFromOfTable(i, 0);
  }

  lemma {:induction false} RankFromOfTable(i: nat, j: nat)
    requires j <= i < |CharBitAssoc|
    requires forall i, j :: 0 <= i < j < |CharBitAssoc| ==> CharBitAssoc[i].ch != CharBitAssoc[j].ch
    ensures RankFrom(CharBitAssoc[i].ch, j) == i
    decreases i - j
  {
    if j < i {
      RankFromOfTable(i, j + 1);
    }
  }

  /** Table characters are printed in strictly increasing table position. */
  predicate InTableOrder(s: string)
  {
    forall a, b :: 0 <= a < b < |s| ==> Rank(s[a]) < Rank(s[b])
  }

  /** The characters of table entries at positions `i..` whose flag is set in `r`, in table order. */
  function ShowFrom(r: int, i: nat): (s: string)
    requires i <= |CharBitAssoc|
    ensures forall c :: c in s <==> Shown(r, i, c)
    ensures forall a :: 0 <= a < |s| ==> i <= Rank(s[a]) < |CharBitAssoc|
    ensures InTableOrder(s)
    decreases |CharBitAssoc| - i
  {
    if i == |CharBitAssoc| then ""
    else
      var rest := ShowFrom(r, i + 1);
      RankOfTable(i);
      ShowStep(r, i);
      if HasBit(r, CharBitAssoc[i].bit) then
        ConsOrdered(CharBitAssoc[i].ch, rest, i);
        [CharBitAssoc[i].ch] + rest
      else rest
  }

  /** Some table character from position `i` on is `c` and its flag is set in `r`. */
  predicate Shown(r: int, i: nat, c: char)
  {
    exists j :: i <= j < |CharBitAssoc| && CharBitAssoc[j].ch == c && HasBit(r, CharBitAssoc[j].bit)
  }

  /** The table positions from `i` split into `i` itself and those after it. */
  lemma ShowStep(r: int, i: nat)
    requires i < |CharBitAssoc|
    ensures forall c ::
      Shown(r, i, c) <==> (CharBitAssoc[i].ch == c && HasBit(r, CharBitAssoc[i].bit)) || Shown(r, i + 1, c)
  {
  }

  /** A character of rank `i` in front of an ordered string ranked above `i` keeps it ordered. */
  lemma ConsOrdered(c: char, rest: string, i: nat)
    requires Rank(c) == i && InTableOrder(rest)
    requires forall a :: 0 <= a < |rest| ==> i + 1 <= Rank(rest[a])
    ensures InTableOrder([c] + rest)
    ensures forall a :: 0 <= a < |[c] + rest| ==> i <= Rank(([c] + rest)[a])
  {
    assert forall a :: 0 < a < |[c] + rest| ==> ([c] + rest)[a] == rest[a - 1];
  }

  /**
   `showRights`: append each table character whose full mask is contained in `r`, in the
   fixed table order, so the result is duplicate-free and `showRights(0) == ""`.
   */
  function ShowRights(r: int): (s: string)
    ensures forall c :: c in s <==>
      exists j :: 0 <= j < |CharBitAssoc| && CharBitAssoc[j].ch == c && HasBit(r, CharBitAssoc[j].bit)
    ensures AllRightsChars(s)
    ensures InTableOrder(s)
  {
    var s := ShowFrom(r, 0);
    assert forall k :: 0 <= k < |s| ==> s[k] in s;
    s
  }

  /** In table order, no character repeats. */
  lemma InTableOrderDistinct(s: string)
    requires InTableOrder(s)
    ensures forall a, b :: 0 <= a < b < |s| ==> s[a] != s[b]
  {
  }

  lemma ShowRightsZero()
    ensures ShowRights(0) == ""
  {
    HasBitZero(0);
    var s := ShowRights(0);
    if |s| > 0 {
      assert s[0] in s;
      var j :| 0 <= j < |CharBitAssoc| && CharBitAssoc[j].ch == s[0] && HasBit(0, CharBitAssoc[j].bit);
      HasBitZero(CharBitAssoc[j].bit);
    }
  }

  lemma ParseRightsEmpty()
    ensures ParseRights("") == Ok(0)
  {
  }

  /** `[c]` when `c` occurs in `s`, otherwise nothing. */
  function Pick(c: char, s: string): string
  {
    if c in s then [c] else ""
  }

  /** The table characters occurring in `s`, once each, in table order from position `i`. */
  function ArrangeFrom(s: string, i: nat): string
    requires i <= |CharBitAssoc|
    decreases |CharBitAssoc| - i
  {
    if i == |CharBitAssoc| then "" else Pick(CharBitAssoc[i].ch, s) + ArrangeFrom(s, i + 1)
  }

  /** The duplicate-free, table-ordered rearrangement of the characters of `s`. */
  function Arrange(s: string): string
  {
    ArrangeFrom(s, 0)
  }

  lemma {:induction false} ShowParsedFrom(s: string, i: nat)
    requires ParseRights(s).Ok? && i <= |CharBitAssoc|
    ensures ShowFrom(ParseRights(s).value, i) == ArrangeFrom(s, i)
    decreases |CharBitAssoc| - i
  {
    if i < |CharBitAssoc| {
      ParsedBits(s, i);
      ShowParsedFrom(s, i + 1);
    }
  }

  /** Round trip, first half: printing a parsed string rearranges it into table order without repeats. */
  lemma ShowParseRoundTrip(s: string)
    requires AllRightsChars(s)
    ensures ShowRights(ParseRights(s).value) == Arrange(s)
  {
    ShowParsedFrom(s, 0);
  }

  /** The parsed mask of a printed mask keeps exactly the table flags of the original. */
  lemma ParseShow(r: int)
    ensures ParseRights(ShowRights(r)) == Ok(MaskOf(Granted(r)))
  {
    var s := ShowRights(r);
    assert FlagsOf(s) == Granted(r) by {
      TableDistinct();
      forall x | x in Granted(r) ensures x in FlagsOf(s) {
        var i :| 0 <= i < |CharBitAssoc| && HasBit(r, CharBitAssoc[i].bit) && CharBitAssoc[i].bit == x;
        assert CharBitAssoc[i].ch in s;
      }
      forall x | x in FlagsOf(s) ensures x in Granted(r) {
        var i :| 0 <= i < |CharBitAssoc| && CharBitAssoc[i].ch in s && CharBitAssoc[i].bit == x;
        var j :| 0 <= j < |CharBitAssoc| && CharBitAssoc[j].ch == CharBitAssoc[i].ch
          && HasBit(r, CharBitAssoc[j].bit);
        assert i == j;
      }
    }
  }

  /** Round trip, second half: a mask built from table flags survives printing and re-parsing. */
  lemma ParseShowRoundTrip(s: string)
    requires ParseRights(s).Ok?
    ensures ParseRights(ShowRights(ParseRights(s).value)) == ParseRights(s)
  {
    var r := ParseRights(s).value;
    ParseShow(r);
    assert Granted(r) == FlagsOf(s) by {
      TableDistinct();
      forall x | x in FlagsOf(s) ensures x in Granted(r) {
        var i :| 0 <= i < |CharBitAssoc| && CharBitAssoc[i].ch in s && CharBitAssoc[i].bit == x;
        ParsedBits(s, i);
      }
      forall x | x in Granted(r) ensures x in FlagsOf(s) {
        var i :| 0 <= i < |CharBitAssoc| && HasBit(r, CharBitAssoc[i].bit) && CharBitAssoc[i].bit == x;
        ParsedBits(s, i);
      }
    }
  }

  /** `max(_char2bit.values())`: the largest single flag mask, the bound `ACL.set` checks against. */
  function MaxFlagValue(): (m: nat)
    ensures forall i :: 0 <= i < |CharBitAssoc| ==> Mask(CharBitAssoc[i].bit) <= m
    ensures exists i :: 0 <= i < |CharBitAssoc| && Mask(CharBitAssoc[i].bit) == m
  {
    var masks := seq(|CharBitAssoc|, i requires 0 <= i < |CharBitAssoc| => Mask(CharBitAssoc[i].bit));
    var m := MaxOf(masks);
    assert forall i :: 0 <= i < |CharBitAssoc| ==> masks[i] == Mask(CharBitAssoc[i].bit);
    m
  }

  /** The largest element of a non-empty sequence. */
  function MaxOf(xs: seq<nat>): (m: nat)
    requires |xs| > 0
    ensures forall j :: 0 <= j < |xs| ==> xs[j] <= m
    ensures exists j :: 0 <= j < |xs| && xs[j] == m
  {
    if |xs| == 1 then xs[0]
    else
      var rest := MaxOf(xs[1..]);
      assert forall j :: 1 <= j < |xs| ==> xs[j] == xs[1..][j - 1];
      if xs[0] < rest then rest else xs[0]
  }

  lemma {:induction false} Pow2Monotone(a: nat, b: nat)
    requires a <= b
    ensures Pow2(a) <= Pow2(b)
    decreases b
  {
    if a < b {
      Pow2Monotone(a, b - 1);
    }
  }

  /** The bound is USR7's mask, not the OR of all flags. */
  lemma MaxFlagValueIsUsr7()
    ensures MaxFlagValue() == Mask(Usr7Bit) == 0x8000_0000
  {
    FlagValues();
    TableDistinct();
    var m := MaxFlagValue();
    var i :| 0 <= i < |CharBitAssoc| && Mask(CharBitAssoc[i].bit) == m;
    Pow2Monotone(CharBitAssoc[i].bit, Usr7Bit);
    assert Mask(CharBitAssoc[14].bit) <= m;
  }

  /** A table character's rank is its position, and that position holds it. */
  lemma RankOfRightsChar(c: char)
    requires IsRightsChar(c)
    ensures Rank(c) < |CharBitAssoc| && CharBitAssoc[Rank(c)].ch == c
  {
    var k :| 0 <= k < |CharBitAssoc| && CharBitAssoc[k].ch == c;
    RankOfTable(k);
  }

  /** `ArrangeFrom(s, j)` depends only on which table characters from position `j` occur in `s`. */
  lemma {:induction false} ArrangeFromCongruent(s: string, t: string, j: nat)
    requires j <= |CharBitAssoc|
    requires forall k :: j <= k < |CharBitAssoc| ==> (CharBitAssoc[k].ch in s <==> CharBitAssoc[k].ch in t)
    ensures ArrangeFrom(s, j) == ArrangeFrom(t, j)
    decreases |CharBitAssoc| - j
  {
    if j < |CharBitAssoc| {
      ArrangeFromCongruent(s, t, j + 1);
    }
  }

  /** A string of table characters already in table order, all ranked at least `i`, is its own arrangement. */
  lemma {:induction false} ArrangeFromOrdered(s: string, i: nat)
    requires i <= |CharBitAssoc|
    requires AllRightsChars(s) && InTableOrder(s)
    requires forall a :: 0 <= a < |s| ==> i <= Rank(s[a])
    ensures ArrangeFrom(s, i) == s
    decreases |CharBitAssoc| - i
  {
    if i == |CharBitAssoc| {
      if |s| > 0 {
        RankOfRightsChar(s[0]);
        assert false;
      }
    } else if CharBitAssoc[i].ch in s {
      var t := OrderedHead(s, i);
      ArrangeFromOrdered(t, i + 1);
      ArrangeFromCongruent(s, t, i + 1);
    } else {
      OrderedSkip(s, i);
      ArrangeFromOrdered(s, i + 1);
    }
  }

  /** When the table character at `i` occurs in an ordered string ranked from `i`, it comes first. */
  lemma OrderedHead(s: string, i: nat) returns (t: string)
    requires i < |CharBitAssoc|
    requires AllRightsChars(s) && InTableOrder(s)
    requires forall a :: 0 <= a < |s| ==> i <= Rank(s[a])
    requires CharBitAssoc[i].ch in s
    ensures s == [CharBitAssoc[i].ch] + t
    ensures AllRightsChars(t) && InTableOrder(t)
    ensures forall a :: 0 <= a < |t| ==> i + 1 <= Rank(t[a])
    ensures forall k :: i + 1 <= k < |CharBitAssoc| ==> (CharBitAssoc[k].ch in s <==> CharBitAssoc[k].ch in t)
  {
    var c := CharBitAssoc[i].ch;
    OrderedHeadChar(s, i);
    t := s[1..];
    assert s == [c] + t;
    RankOfTable(i);
    OrderedTail(s, i);
    forall j | i + 1 <= j < |CharBitAssoc|
      ensures CharBitAssoc[j].ch in s <==> CharBitAssoc[j].ch in t
    {
      RankOfTable(j);
      ConsMember(c, t, CharBitAssoc[j].ch);
    }
  }

  /** The first character of an ordered string ranked from `i` that holds the `i`-th table character is that character. */
  lemma OrderedHeadChar(s: string, i: nat)
    requires i < |CharBitAssoc|
    requires AllRightsChars(s) && InTableOrder(s)
    requires forall a :: 0 <= a < |s| ==> i <= Rank(s[a])
    requires CharBitAssoc[i].ch in s
    ensures |s| > 0 && s[0] == CharBitAssoc[i].ch
  {
    RankOfTable(i);
    var k :| 0 <= k < |s| && s[k] == CharBitAssoc[i].ch;
    OrderedFirst(s, k);
    RankOfRightsChar(s[0]);
  }

  /** The rest of an ordered string whose first character ranks `i` is ordered and ranks above `i`. */
  lemma OrderedTail(s: string, i: nat)
    requires |s| > 0 && AllRightsChars(s) && InTableOrder(s) && Rank(s[0]) == i
    ensures AllRightsChars(s[1..]) && InTableOrder(s[1..])
    ensures forall a :: 0 <= a < |s[1..]| ==> i + 1 <= Rank(s[1..][a])
  {
    assert forall a :: 0 <= a < |s[1..]| ==> s[1..][a] == s[a + 1];
  }

  lemma ConsMember(c: char, t: string, d: char)
    requires d != c
    ensures d in [c] + t <==> d in t
  {
  }

  /** In an ordered string no character ranks below the first. */
  lemma OrderedFirst(s: string, k: nat)
    requires InTableOrder(s) && k < |s|
    ensures Rank(s[0]) <= Rank(s[k])
  {
  }

  /** When the table character at `i` is absent, every character of the string ranks above `i`. */
  lemma OrderedSkip(s: string, i: nat)
    requires i < |CharBitAssoc|
    requires AllRightsChars(s)
    requires forall a :: 0 <= a < |s| ==> i <= Rank(s[a])
    requires CharBitAssoc[i].ch !in s
    ensures forall a :: 0 <= a < |s| ==> i + 1 <= Rank(s[a])
  {
    forall a | 0 <= a < |s| ensures i + 1 <= Rank(s[a]) {
      RankOfRightsChar(s[a]);
    }
  }

  /** A string of table characters in table order is its own arrangement. */
  lemma ArrangeOrdered(s: string)
    requires AllRightsChars(s) && InTableOrder(s)
    ensures Arrange(s) == s
  {
    ArrangeFromOrdered(s, 0);
  }
}

/**
 The five canonical rights names of afs/acl.py (`_canonical`, `_reverseCanonical`) and
 the two functions that translate through them, `readRights` and `rightsToEnglish`.
 */
module RightsNames {
  import opened Base
  import opened Bits
  import opened Rights

  /** `_canonical`: the five canonical names and the rights string each stands for. */
  const Canonical: map<string, string> := map[
    "read" := "rl", "write" := "rlidwk", "all" := "rlidwka", "mail" := "lik", "none" := ""
  ]

  /** `_reverseCanonical`: each canonical rights string back to its name. */
  const ReverseCanonical: map<string, string> := map[
    "rl" := "read", "rlidwk" := "write", "rlidwka" := "all", "lik" := "mail", "" := "none"
  ]

  /** The two tables are inverse to each other, as the dictionary inversion builds them. */
  lemma ReverseCanonicalInverts()
    ensures forall n :: n in Canonical ==> Canonical[n] in ReverseCanonical && ReverseCanonical[Canonical[n]] == n
    ensures forall s :: s in ReverseCanonical ==> ReverseCanonical[s] in Canonical && Canonical[ReverseCanonical[s]] == s
  {
  }

  /**
   `readRights`: a canonical name is expanded before parsing; any other token is parsed
   literally as a rights string.
   */
  function ReadRights(s: string): (r: Result<int, RightsError>)
    ensures s in Canonical ==> r.Ok? && r.value == MaskOf(FlagsOf(Canonical[s]))
    ensures s !in Canonical ==> (r.Ok? <==> AllRightsChars(s))
    ensures s !in Canonical && r.Ok? ==> r.value == MaskOf(FlagsOf(s))
  {
    CanonicalAreRights();
    ParseRights(if s in Canonical then Canonical[s] else s)
  }

  lemma CanonicalAreRights()
    ensures forall n :: n in Canonical ==> AllRightsChars(Canonical[n])
  {
    assert CharBitAssoc[0].ch == 'r' && CharBitAssoc[1].ch == 'l' && CharBitAssoc[2].ch == 'i';
    assert CharBitAssoc[3].ch == 'd' && CharBitAssoc[4].ch == 'w' && CharBitAssoc[5].ch == 'k';
    assert CharBitAssoc[6].ch == 'a';
    assert IsRightsChar('r') && IsRightsChar('l') && IsRightsChar('i') && IsRightsChar('d');
    assert IsRightsChar('w') && IsRightsChar('k') && IsRightsChar('a');
  }

  /**
   `rightsToEnglish`: the canonical name whose expansion is exactly `s`, or "" when there is
   none (a best-effort lookup, not an error).
   */
  function RightsToEnglish(s: string): (n: string)
    ensures (n in Canonical && Canonical[n] == s) || (n == "" && forall k :: k in Canonical ==> Canonical[k] != s)
  {
    ReverseCanonicalInverts();
    if s in ReverseCanonical then ReverseCanonical[s] else ""
  }

  lemma RightsToEnglishOfCanonical(n: string)
    requires n in Canonical
    ensures RightsToEnglish(Canonical[n]) == n
  {
    var k := RightsToEnglish(Canonical[n]);
    assert k in Canonical && Canonical[k] == Canonical[n];
  }

  /** The test's expectation: "read" grants READ and LOOKUP but not WRITE. */
  lemma ReadRightsRead()
    ensures ReadRights("read").Ok?
    ensures HasBit(ReadRights("read").value, ReadBit)
    ensures HasBit(ReadRights("read").value, LookupBit)
    ensures !HasBit(ReadRights("read").value, WriteBit)
  {
    ParsedBits("rl", 0);
    ParsedBits("rl", 1);
    ParsedBits("rl", 4);
  }

  lemma ReadRightsNone()
    ensures ReadRights("none") == Ok(0)
  {
  }

  /** "all" grants every one of the seven standard rights and none of the USR bits. */
  lemma ReadRightsAll()
    ensures ReadRights("all").Ok?
    ensures forall i :: 0 <= i < 7 ==> HasBit(ReadRights("all").value, CharBitAssoc[i].bit)
    ensures forall i :: 7 <= i < |CharBitAssoc| ==> !HasBit(ReadRights("all").value, CharBitAssoc[i].bit)
  {
    CanonicalAreRights();
    TableDistinct();
    var s := Canonical["all"];
    assert s == "rlidwka";
    assert forall i :: 0 <= i < 7 ==> CharBitAssoc[i].ch == s[i];
    forall i | 0 <= i < |CharBitAssoc|
      ensures HasBit(ReadRights("all").value, CharBitAssoc[i].bit) <==> i < 7
    {
      ParsedBits(s, i);
      if i < 7 {
        assert CharBitAssoc[i].ch == s[i];
      }
    }
  }

  /** Printing the mask of a canonical name and looking the string up gives the name back. */
  lemma CanonicalRoundTrip(n: string)
    requires n in Canonical
    ensures RightsToEnglish(ShowRights(ReadRights(n).value)) == n
  {
    CanonicalAreRights();
    ShowParseRoundTrip(Canonical[n]);
    CanonicalArranged(n);
    RightsToEnglishOfCanonical(n);
  }

  /** Every canonical expansion is already written in table order. */
  lemma CanonicalArranged(n: string)
    requires n in Canonical
    ensures Arrange(Canonical[n]) == Canonical[n]
  {
    CanonicalAreRights();
    RankOfTable(0);
    RankOfTable(1);
    RankOfTable(2);
    RankOfTable(3);
    RankOfTable(4);
    RankOfTable(5);
    RankOfTable(6);
    assert Rank('r') == 0 && Rank('l') == 1 && Rank('i') == 2 && Rank('d') == 3;
    assert Rank('w') == 4 && Rank('k') == 5 && Rank('a') == 6;
    ArrangeOrdered(Canonical[n]);
  }
}
