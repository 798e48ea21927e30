/**
 The `ACL` value object of afs/acl.py: a positive and a negative entry map, the bounded
 `set`, `remove` as setting to zero, `_clean` dropping zero entries, and `apply` reduced to
 clean-then-unparse (the foreign `setAcl` call that would send the text is not modelled).
 A raised ValueError is an `Err`; the caller still holds the unchanged receiver.
 */
module AclObject {
  import opened Base
  import opened Bits
  import opened Rights
  import opened RightsNames
  import opened AclText

  datatype Acl = Acl(pos: Entries, neg: Entries)

  datatype SetError = InvalidBitmask

  /** The side an entry is written to: `negative=True` selects `neg`. */
  function Side(a: Acl, negative: bool): Entries
  {
    if negative then a.neg else a.pos
  }

  /**
   `ACL.set`: a bitmask below zero or above the largest single flag value raises
   ValueError; otherwise the user's entry on the chosen side becomes the bitmask.
   */
  function Set(a: Acl, user: string, bitmask: int, negative: bool): (r: Result<Acl, SetError>)
    ensures r.Err? <==> bitmask < 0 || bitmask > MaxFlagValue()
    ensures r.Ok? ==> user in Side(r.value, negative) && Side(r.value, negative)[user] == bitmask
    ensures r.Ok? ==> Side(r.value, !negative) == Side(a, !negative)
    ensures r.Ok? ==> forall k :: k != user ==>
      (k in Side(r.value, negative) <==> k in Side(a, negative))
      && (k in Side(a, negative) ==> Side(r.value, negative)[k] == Side(a, negative)[k])
  {
    if bitmask < 0 || bitmask > MaxFlagValue() then Err(InvalidBitmask)
    else if negative then Ok(a.(neg := a.neg[user := bitmask]))
    else Ok(a.(pos := a.pos[user := bitmask]))
  }

  /** `ACL.remove`: set the user's bitmask to zero on the chosen side; it cannot fail. */
  function Remove(a: Acl, user: string, negative: bool): (r: Acl)
    ensures user in Side(r, negative) && Side(r, negative)[user] == 0
    ensures Side(r, !negative) == Side(a, !negative)
    ensures Set(a, user, 0, negative) == Ok(r)
  {
    Set(a, user, 0, negative).value
  }

  /** The entries of `m` whose bitmask is not zero. */
  function NonZero(m: Entries): (r: Entries)
    ensures forall k :: k in r <==> k in m && m[k] != 0
    ensures forall k :: k in r ==> r[k] == m[k]
  {
    map k | k in m && m[k] != 0 :: m[k]
  }

  /** `ACL._clean`: remove every entry whose bitmask is 0, on both sides. */
  function Clean(a: Acl): (r: Acl)
    ensures forall k :: k in r.pos ==> r.pos[k] != 0
    ensures forall k :: k in r.neg ==> r.neg[k] != 0
    ensures forall k :: k in a.pos && a.pos[k] != 0 ==> k in r.pos && r.pos[k] == a.pos[k]
    ensures forall k :: k in a.neg && a.neg[k] != 0 ==> k in r.neg && r.neg[k] == a.neg[k]
    ensures forall k :: k in r.pos ==> k in a.pos && r.pos[k] == a.pos[k]
    ensures forall k :: k in r.neg ==> k in a.neg && r.neg[k] == a.neg[k]
  {
    Acl(NonZero(a.pos), NonZero(a.neg))
  }

  /** Cleaning twice is cleaning once. */
  lemma CleanIdempotent(a: Acl)
    ensures Clean(Clean(a)) == Clean(a)
  {
    var c := Clean(a);
    assert Clean(c).pos == c.pos;
    assert Clean(c).neg == c.neg;
  }

  /** Removing a user and cleaning leaves no entry for that user on that side. */
  lemma RemoveThenClean(a: Acl, user: string, negative: bool)
    ensures user !in Side(Clean(Remove(a, user, negative)), negative)
  {
  }

  /**
   `ACL.apply` without the foreign call: clean, then unparse. The orders in which the
   cleaned dictionaries are visited are parameters, as for `UnparseAcl`.
   */
  function Apply(a: Acl, posOrder: seq<string>, negOrder: seq<string>): (text: string)
    requires IsOrder(posOrder, Clean(a).pos) && IsOrder(negOrder, Clean(a).neg)
    ensures ValidEntries(a.pos) && ValidEntries(a.neg) ==> ParseAcl(text) == Ok((Clean(a).pos, Clean(a).neg))
  {
    var c := Clean(a);
    if ValidEntries(c.pos) && ValidEntries(c.neg) then
      ParseUnparse(c.pos, c.neg, posOrder, negOrder);
      UnparseAcl(c.pos, c.neg, posOrder, negOrder)
    else
      UnparseAcl(c.pos, c.neg, posOrder, negOrder)
  }

  /** The applied text reads back as the cleaned ACL: no zero entry ever reaches the server. */
  lemma ApplyRoundTrip(a: Acl, posOrder: seq<string>, negOrder: seq<string>)
    requires ValidEntries(a.pos) && ValidEntries(a.neg)
    requires IsOrder(posOrder, Clean(a).pos) && IsOrder(negOrder, Clean(a).neg)
    ensures ParseAcl(Apply(a, posOrder, negOrder)) == Ok((Clean(a).pos, Clean(a).neg))
    ensures forall k :: k in Clean(a).pos ==> Clean(a).pos[k] != 0
  {
    ParseUnparse(Clean(a).pos, Clean(a).neg, posOrder, negOrder);
  }

  /**
   Which parsed rights strings `set` accepts: all of them except those combining 'H'
   (USR7, the largest single flag) with any other right, because the bound is the largest
   single flag and not the OR of all flags.
   */
  lemma SetParsedRights(a: Acl, user: string, s: string, negative: bool)
    requires AllRightsChars(s)
    ensures Set(a, user, ParseRights(s).value, negative).Ok?
      <==> !('H' in s && exists k :: 0 <= k < |s| && s[k] != 'H')
  {
    MaxFlagValueIsUsr7();
    if 'H' in s && exists k :: 0 <= k < |s| && s[k] != 'H' {
      var k :| 0 <= k < |s| && s[k] != 'H';
      ParsedHWithOther(s, k);
    } else if 'H' in s {
      ParsedOnlyH(s);
    } else {
      ParsedWithoutH(s);
    }
  }

  lemma UsrSevenIsTop()
    ensures CharBitAssoc[14] == Assoc('H', Usr7Bit) && Usr7Bit == Width - 1
  {
  }

  /** 'H' together with another right parses above USR7's value. */
  lemma ParsedHWithOther(s: string, k: nat)
    requires AllRightsChars(s) && 'H' in s && k < |s| && s[k] != 'H'
    ensures ParseRights(s).value > Mask(Usr7Bit)
  {
    UsrSevenIsTop();
    TableDistinct();
    var i :| 0 <= i < |CharBitAssoc| && CharBitAssoc[i].ch == s[k];
    assert CharBitAssoc[i].ch in s;
    ParsedBits(s, 14);
    ParsedBits(s, i);
    TwoBitsLowerBound(ParseRights(s).value, Usr7Bit, CharBitAssoc[i].bit);
  }

  /** A string of 'H's parses to exactly USR7's value. */
  lemma ParsedOnlyH(s: string)
    requires AllRightsChars(s) && 'H' in s && forall k :: 0 <= k < |s| ==> s[k] == 'H'
    ensures ParseRights(s).value == Mask(Usr7Bit)
  {
    UsrSevenIsTop();
    TableDistinct();
    assert FlagsOf(s) == {Usr7Bit} by {
      forall x | x in FlagsOf(s) ensures x == Usr7Bit {
        var i :| 0 <= i < |CharBitAssoc| && CharBitAssoc[i].ch in s && CharBitAssoc[i].bit == x;
        assert CharBitAssoc[i].ch == 'H';
      }
      assert CharBitAssoc[14].ch in s;
    }
    MaskOfSingle(Usr7Bit);
  }

  /** Without 'H' the parsed value stays below USR7's value. */
  lemma ParsedWithoutH(s: string)
    requires AllRightsChars(s) && 'H' !in s
    ensures 0 <= ParseRights(s).value < Mask(Usr7Bit)
  {
    UsrSevenIsTop();
    TableDistinct();
    assert Usr7Bit !in FlagsOf(s);
    var b := seq(Width, p => p in FlagsOf(s));
    FromBitsTopClear(b);
  }

  /** The mask with exactly one flag is that flag's value. */
  lemma MaskOfSingle(p: nat)
    requires p < Width
    ensures MaskOf({p}) == Mask(p)
  {
    var e: set<nat> := {};
    FromBitsFalse(Width);
    assert seq(Width, q => q in e) == seq(Width, q => false);
    assert MaskOf(e) == 0;
    MaskOfAddBit(e, p);
    HasBitZero(p);
    SetBitValue(0, p);
    assert e + {p} == {p};
  }

  /** The "all" rights, and every standard right, are accepted by `set`. */
  lemma SetAcceptsAll(a: Acl, user: string, negative: bool)
    ensures Set(a, user, ReadRights("all").value, negative).Ok?
  {
    CanonicalAreRights();
    var s := Canonical["all"];
    assert s == "rlidwka";
    assert forall k :: 0 <= k < |s| ==> s[k] != 'H';
    SetParsedRights(a, user, s, negative);
  }
}
