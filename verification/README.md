# pyafs ACL and protection-database client, modelled in Dafny

This project models the pure core of two modules of pyafs, the Python bindings to AFS.

- **afs/acl.py.** This module has four parts:
  - The access-rights codec. Rights strings such as `"rlidwk"` become bitmasks, and bitmasks are printed back in table order.
  - The five canonical rights names (`read`, `write`, `all`, `mail`, `none`).
  - The text format of a directory ACL (`_parseAcl`, `_unparseAcl`). The text is a count of positive entries, a count of negative entries, then one `name<TAB>mask` line per entry.
  - The `ACL` object: `set`, `remove`, `_clean`, and `apply` reduced to clean-then-unparse.
- **afs/pts.py.** The client side of the protection server (PTS):
  - The `PTS` connection and its identity cache of `PTEntry` objects (`getEntry`, `PTEntry.__new__`, `expire`).
  - The lazily loaded entry attributes (`_loadEntry`) and their write-through setters (`id`, `name`, `flags`, `ngroups`, `nusers`).
  - The `PTRelationSet` view of an entry. A group's view is `members` and a user's is `groups`. The view is lazily loaded, membership tests do not load it, and it writes through to the server on `add`, `discard` and `remove`.

Files and modules:

| file | module | contents |
|---|---|---|
| base.dfy | `Base` | `Option`, `Result` |
| bits.dfy | `Bits` | powers of two, bit tests and bit setting on unbounded integers (Python `&`, `\|`) |
| decimal.dfy | `Decimal` | `"%d"` formatting and Python 2 `int()` parsing of decimal text |
| text.dfy | `Text` | `str.split(sep)`, `sep.join`, argument-less `str.split()` |
| rights.dfy | `Rights`, `RightsNames` | the rights table, `_parseRights`, `showRights`, the canonical names, `readRights`, `rightsToEnglish` |
| acl_text.dfy | `AclText` | `_parseAcl`, `_unparseAcl` and their round trip |
| acl.dfy | `AclObject` | the `ACL` object |
| pts_remote.dfy | `PtsRemote` | the protection server as a value: id/name directory, entry records, membership pairs, and one function per RPC |
| pts_cache.dfy | `PtsCache` | the connection state, `PTEntry.__new__`, `getEntry`, `expire`, and the cache invariants |
| pts_relations.dfy | `PtsRelations` | `PTRelationSet` |
| pts_entry.dfy | `PtsEntry` | `_loadEntry`, the attribute getters and the setters |

How Python is represented:

- **ACL side.**
  - A Python `int` is a Dafny `int`.
  - The flag constants come from the C extension. The model uses the OpenAFS values: READ 0x1, WRITE 0x2, INSERT 0x4, LOOKUP 0x8, DELETE 0x10, LOCK 0x20, ADMINISTER 0x40, and USR0..USR7 = 0x01000000..0x80000000.
  - A raised `ValueError` is an `Err`.
  - Python dictionaries have no guaranteed iteration order. Where the source iterates one (`_unparseAcl`), the order is a parameter: a duplicate-free list of the keys.
- **PTS side.**
  - Python objects are references into a heap. One `State` value holds:
    - the heap;
    - the `_cache` dictionary;
    - the server;
    - the set of RPCs the environment refuses, standing for permission errors and lost connections;
    - the log of every RPC issued.
  - Each operation takes the state and returns its outcome together with the new state.
  - An exception is an `Err` in the outcome. Whatever the operation changed before raising stays changed, as in Python.
  - An entry whose `_pts` attribute `expire` deleted is marked detached.
  - A missing `_set` is an `Unloaded` view.

## Model

| member | source | states |
|---|---|---|
| Rights.FlagValues | afs/acl.py:2-3 | The flag masks: READ 0x1 … ADMINISTER 0x40, USR0 0x01000000, USR7 0x80000000. |
| Rights.TableDistinct | afs/acl.py:16-34 | The table has 15 rows. No character and no flag appears twice, so `dict(_charBitAssoc)` loses nothing. Every flag lies below bit 32. |
| Rights.Char2Bit | afs/acl.py:34 | The lookup fails exactly for characters outside the table; a found flag is the table's flag for that character. |
| Rights.ParseRights | afs/acl.py:56-64 | `_parseRights` succeeds exactly when every character is in the table. The result is the OR of the masks of the flags named. |
| Rights.ParsedBits | afs/acl.py:56-64 | The flag of a table row is set in the parsed mask exactly when its character occurs in the string. |
| Rights.ParseRightsEmpty | afs/acl.py:56-64 | The empty string parses to 0. |
| Rights.ShowRights | afs/acl.py:49-54 | A character is printed exactly when its flag is fully set in the mask. The output uses only table characters, in table order, each at most once. |
| Rights.ShowRightsZero | afs/acl.py:49-54 | Mask 0 prints as "". |
| Rights.InTableOrderDistinct | afs/acl.py:49-54 | A string in table order repeats no character. |
| Rights.ShowParseRoundTrip | afs/acl.py:49-64 | Printing a parsed rights string gives the string rearranged into table order, with duplicates dropped. |
| Rights.ArrangeOrdered | afs/acl.py:49-54 | A rights string already in table order is its own arrangement, so printing its mask gives it back. |
| Rights.ParseShow | afs/acl.py:49-64 | Parsing a printed mask gives the mask restricted to the table flags it contains. |
| Rights.ParseShowRoundTrip | afs/acl.py:49-64 | Parse, print, parse gives the same result as one parse. |
| Rights.MaxFlagValue | afs/acl.py:121 | `max(_char2bit.values())` is at least every table mask and equal to one of them. |
| Rights.MaxFlagValueIsUsr7 | afs/acl.py:121 | That maximum is USR7, 0x80000000. |
| RightsNames.ReverseCanonicalInverts | afs/acl.py:6-14 | `_reverseCanonical` is the inverse of `_canonical` in both directions. |
| RightsNames.CanonicalAreRights | afs/acl.py:6-12 | Every canonical expansion is a valid rights string. |
| RightsNames.CanonicalArranged | afs/acl.py:6-12 | Every canonical expansion is written in table order. |
| RightsNames.ReadRights | afs/acl.py:44-47 | A canonical name parses as its expansion. Any other string must be a valid rights string, and then parses literally. |
| RightsNames.RightsToEnglish | afs/acl.py:37-42 | The result is a canonical name whose expansion is exactly the input. If no such name exists, the result is "". |
| RightsNames.RightsToEnglishOfCanonical | afs/acl.py:37-42 | Every canonical expansion is named back by its own name. |
| RightsNames.CanonicalRoundTrip | afs/acl.py:37-54 | Reading a canonical name, printing the mask and naming the string gives the name back. |
| RightsNames.ReadRightsRead | afs/tests/test_acl.py:4-7 | "read" grants READ and LOOKUP but not WRITE. The test calls the function by its older name `crights`. |
| RightsNames.ReadRightsNone | afs/acl.py:6-12 | "none" reads as mask 0. |
| RightsNames.ReadRightsAll | afs/acl.py:6-12 | "all" grants the seven standard rights and none of USR0..USR7. |
| Decimal.FormatInt | afs/acl.py:85-87 | `"%d" % n` is a non-empty string without whitespace: all digits for `n >= 0`, a `-` followed by digits for `n < 0`. |
| Decimal.ParseInt | afs/acl.py:68 | A successful `int()` has non-blank text once stripped. A negative result comes from a leading `-`; unsigned text is all digits and gives a non-negative number. |
| Decimal.ParseFormatInt | afs/acl.py:87 | `int()` of `"%d" % n` is `n`, negative numbers included. |
| Decimal.ParseIntBlank | afs/acl.py:68 | `int()` of an all-blank string fails. |
| Decimal.ParseIntSpaceAfterSign | afs/acl.py:68 | `int()` skips whitespace between the sign and the digits: `"-\t1"` is -1. |
| Decimal.ParseIntSignOnly | afs/acl.py:68 | A sign followed only by blanks is not a number. |
| Text.SplitOn | afs/acl.py:67-73 | The common engine of both splits: at least one piece, and no piece contains a separator. |
| Text.Split | afs/acl.py:67-68 | `s.split(sep)` gives at least one piece, and no piece contains `sep`. |
| Text.Words | afs/acl.py:73 | Every word of argument-less `split()` is non-empty and free of whitespace. |
| Text.Join | afs/acl.py:85-89 | Joining the lines of the text: the result is as long as the pieces together plus one separator per gap. |
| Text.WordsOfPair | afs/acl.py:73 | A name, one whitespace character and a number split into exactly those two words. |
| Text.SplitJoin | afs/acl.py:67 | Splitting a joined list of separator-free pieces gives the pieces back. |
| AclText.ParseEntries | afs/acl.py:71-79 | The entry loop: on success both dictionaries have valid names, and every name they held before is still present (a later line may change its mask). |
| AclText.ParseAcl | afs/acl.py:66-80 | Every name in a parsed ACL is non-empty and free of whitespace. |
| AclText.ParseAclSpec | afs/acl.py:66-80 | `_parseAcl` succeeds exactly when the first token is an integer and every later line (from the third) is blank or a name and an integer. On success, entries go to `pos` while the counter lasts and to `neg` after; a later line for the same name wins. |
| AclText.ParseEntriesOk | afs/acl.py:71-79 | The entry loop fails exactly when some line is neither blank nor two words ending in an integer. |
| AclText.ParseEntriesRoute | afs/acl.py:71-79 | On well-formed lines the loop equals a reference routing function over the non-blank lines. The first `npos` lines go to `pos`, the rest to `neg`, with a negative counter never running out. |
| AclText.ParseAclTabAfterSign | afs/acl.py:66-68 | The count token is cut at spaces only, so a first line `"-\t1"` is one token, and `int()` reads it as -1. |
| AclText.ParseAclIgnoresSecondLine | afs/acl.py:67-71 | The second line (the negative count) is never read: replacing it changes nothing. |
| AclText.ParseAclCounted | afs/acl.py:67-71 | With first line `"%d" % n`, parsing is the entry loop over the lines after the second, with counter `n`. |
| AclText.SplitTwoLines | afs/acl.py:67 | Two newline-free lines, each followed by "\n", split off the front of the text. |
| AclText.EntryLines | afs/acl.py:86-89 | The i-th unparsed entry line is `name\tvalue` for the i-th name of the iteration order. |
| AclText.EntryLineWords | afs/acl.py:87 | An entry line is one non-empty line, and it splits into the name and the formatted value. |
| AclText.OrderLength | afs/acl.py:83-86 | An iteration order has as many names as the dictionary has keys, so the header counts are the entry counts. |
| AclText.StoreAllOrder | afs/acl.py:86-89 | Storing each entry of a dictionary in iteration order rebuilds the dictionary. |
| AclText.ParsePosLines | afs/acl.py:74-76 | While the counter lasts, a block of entry lines is stored into `pos` in order and the counter drops by the block length. |
| AclText.ParseNegLines | afs/acl.py:77-79 | Once the counter is zero, a block of entry lines is stored into `neg` in order. |
| AclText.UnparseAcl | afs/acl.py:82-90 | The text is non-empty and ends with a newline, since every line is terminated. |
| AclText.SplitUnparsed | afs/acl.py:82-90 | The unparsed text splits into the two counts, the positive lines, the negative lines, and a final empty piece. |
| AclText.ParseUnparse | afs/acl.py:66-90 | For every dictionary pair with valid names and every iteration order, `_parseAcl(_unparseAcl(pos, neg)) == (pos, neg)`. |
| AclObject.Set | afs/acl.py:119-126 | ValueError exactly when the bitmask is negative or above the largest single flag. Otherwise only the user's entry on the chosen side changes, to the bitmask. |
| AclObject.Remove | afs/acl.py:127-129 | `remove` is `set` to 0: the entry stays, with mask 0, and the other side is untouched. |
| AclObject.NonZero | afs/acl.py:113-118 | Exactly the entries with a non-zero mask survive, with their masks. |
| AclObject.Clean | afs/acl.py:111-118 | Both sides keep exactly their non-zero entries: every entry of the result is an entry of the input with the same non-zero mask, and every non-zero input entry is kept. |
| AclObject.CleanIdempotent | afs/acl.py:111-118 | Cleaning twice is cleaning once. |
| AclObject.RemoveThenClean | afs/acl.py:111-129 | After `remove` and `_clean`, the user has no entry on that side. |
| AclObject.Apply | afs/acl.py:107-110 | When every name is valid, the text `apply` would send parses back to the cleaned ACL. |
| AclObject.ApplyRoundTrip | afs/acl.py:107-110 | The text `apply` sends parses back to the cleaned ACL, so no zero entry reaches the server. |
| AclObject.SetParsedRights | afs/acl.py:119-122 | `set` accepts every parsed rights string except those combining 'H' (USR7) with another right. The bound is the largest single flag, not the OR of all flags. |
| AclObject.SetAcceptsAll | afs/acl.py:119-122 | `set` accepts the mask of "all". |
| PtsRemote.Related | afs/pts.py:40-41 | `_ListMembers` of a group is its member users; of a user, the groups it belongs to. |
| PtsRemote.AddToGroupUnchecked | afs/pts.py:134-147 | Without the client's kind check, the server state would gain a group-in-group pair. |
| PtsRemote.ChangeIdKeepsDbWF | afs/pts.py:256 | An accepted id change keeps the server's directory and membership pairs consistent. |
| PtsRemote.RelatedRenamed | afs/pts.py:256 | After an id change, each entry's related ids are the old ones with the old id replaced by the new. |
| PtsCache.NewEntry | afs/pts.py:224-244 | The result is a live entry of the connection. When an id is given, the entry carries that id. Existing objects, the server and the refused calls are untouched. |
| PtsCache.GetEntry | afs/pts.py:372-387 | An entry object of this connection is returned unchanged and changes no state. A name or an id yields a live entry, and an id yields one with that id. |
| PtsCache.GetEntryHit | afs/pts.py:231-244 | For a cached id, `getEntry` returns the cached object, issues no RPC and changes nothing. |
| PtsCache.GetEntryMiss | afs/pts.py:231-244 | For an uncached id, exactly one `_IdToName` is issued. On success, one new object is created with that id and the server's name, an unloaded view of the kind the id's sign selects and no attributes, and it is cached. On failure, heap and cache are unchanged. |
| PtsCache.GetEntryByName | afs/pts.py:224-244 | A name issues one `_NameToId`. A cached id returns the cached object; otherwise a new entry is created carrying the given name. |
| PtsCache.GetEntryTwice | afs/pts.py:224-244 | Asking twice for the same id gives the same object, and the second call changes nothing. |
| PtsCache.GetEntryOfEntry | afs/pts.py:378-382 | A live entry object passes through `getEntry` unchanged. |
| PtsCache.Identity | afs/pts.py:243-244 | In a consistent state, two live entries have the same id exactly when they are the same object. |
| PtsCache.InViewIffIdListed | afs/pts.py:40-41 | An entry is in a loaded view exactly when its id is among the view's ids. |
| PtsCache.GetEntryGrown | afs/pts.py:224-244 | `getEntry` only adds fresh, live, cached entries with unloaded views. |
| PtsCache.GetEntryKeepsInvariants | afs/pts.py:372-387 | `getEntry` keeps the cache consistent and every loaded view equal to what the server relates. |
| PtsCache.Expire | afs/pts.py:397-405 | `expire` keeps the heap sound (`Sound`). What it changes is stated by `ExpireDetachesAll`. |
| PtsCache.ExpireDetachesAll | afs/pts.py:397-405 | After `expire` the cache is empty and every entry is detached. Ids, names, views and attributes are kept, and no RPC is issued. |
| PtsCache.ExpireThenGetEntry | afs/pts.py:397-405 | After `expire`, an old entry object is refused by `getEntry`, and a lookup by id yields a new object. |
| PtsCache.ExpireKeepsInvariants | afs/pts.py:397-405 | `expire` keeps the invariants. |
| PtsRelations.Mirror | afs/pts.py:43-67 | `_add`/`_discard` change only the owner's view, and only if it is loaded. Ids, connections, the cache and the server are untouched. |
| PtsRelations.Resolve | afs/pts.py:40-41 | `getEntry` over the listed ids yields a set of live entries whose ids are exactly the listed ids, one entry per id. |
| PtsRelations.LoadSet | afs/pts.py:32-41 | A loaded view is left alone. Otherwise, on success, the view becomes the entries of exactly the ids the server relates, and nothing else of the entry changes. The invariants are kept. |
| PtsRelations.LoadKeepsInvariants | afs/pts.py:32-41 | Filling a view from the server's list keeps the invariants. |
| PtsRelations.Len | afs/pts.py:69-76 | The length is the loaded view's size, or else the number of ids the server relates. |
| PtsRelations.Contains | afs/pts.py:88-113 | A membership test only adds entries: no existing object changes, so in particular the view is never loaded. |
| PtsRelations.ContainsLoaded | afs/pts.py:106-108 | A loaded view answers from its set, with no RPC. |
| PtsRelations.ContainsUnloaded | afs/pts.py:109-113 | An unloaded view issues exactly one `_IsAMemberOf`, user first and group second, and answers whether that pair is on the server. |
| PtsRelations.ContainsAgrees | afs/pts.py:88-113 | In a consistent state, every successful test answers whether the (user, group) pair is on the server. |
| PtsRelations.ContainsGrown | afs/pts.py:106 | The test only adds fresh cached entries. |
| PtsRelations.RelatedPair | afs/pts.py:110-113 | The other id is related to the owner exactly when the ordered pair is on the server. |
| PtsRelations.Add | afs/pts.py:119-153 | `add` keeps the heap sound (`Sound`). Its effect is stated by the lemmas below. |
| PtsRelations.AddFound | afs/pts.py:130-153 | `add` past `getEntry` keeps the heap sound (`Sound`). |
| PtsRelations.Link | afs/pts.py:134-153 | The kind checks, `_AddToGroup` and the two `_add` calls keep the heap sound, and every existing entry keeps its id and connection with no view newly loaded (`ViewsOnly`). |
| PtsRelations.AddEffect | afs/pts.py:119-153 | A successful `add` leaves a positive user and a negative group, with exactly that pair added on the server. A failed one leaves the server unchanged. |
| PtsRelations.AddFoundEffect | afs/pts.py:131-153 | The same effect, for an element already resolved to an entry. |
| PtsRelations.AddRejectsSameKind | afs/pts.py:131-147 | For an absent element, a group into a group raises GroupIntoGroup and a user into a user raises UserIntoUser. Either way, same-kind pairs never reach the server. |
| PtsRelations.LinkEffect | afs/pts.py:134-153 | Past the membership test, the two TypeErrors fire exactly for same-kind pairs and change nothing. Success adds exactly the pair. |
| PtsRelations.AddFoundMirrors | afs/pts.py:140-153 | After a successful `add`, each loaded view on either side contains the other entry. |
| PtsRelations.AddFoundRpcs | afs/pts.py:130-153 | Issued RPCs, unloaded view: `_IsAMemberOf`, then `_AddToGroup`, which is sent only when the server lacks the pair. Loaded view: at most one `_AddToGroup`. |
| PtsRelations.AddFoundCallsOnlyWhenAbsent | afs/pts.py:130-153 | While the loaded views agree with the server, `add` sends `_AddToGroup` only for a pair the server does not hold, whatever the view state. |
| PtsRelations.AddFoundPresent | afs/pts.py:130-132 | While the loaded views agree with the server, `add` of a present element returns after the membership test: no further RPC, and no entry, view or server change. |
| PtsRelations.DiscardFoundAbsent | afs/pts.py:162-164 | While the loaded views agree with the server, `discard` of an absent element returns after the membership test: no further RPC, and no entry, view or server change. |
| PtsRelations.AddFoundKeeps | afs/pts.py:130-153 | `add` keeps every entry's id and connection and loads no view. |
| PtsRelations.AddKeepsInvariants | afs/pts.py:119-153 | `add` keeps the cache consistent and every loaded view equal to what the server relates, on both sides. |
| PtsRelations.AddFoundKeepsInvariants | afs/pts.py:131-153 | The same, for a resolved element. |
| PtsRelations.LinkKeepsInvariants | afs/pts.py:134-153 | The write-and-mirror step keeps the invariants. |
| PtsRelations.Discard | afs/pts.py:155-173 | `discard` keeps the heap sound (`Sound`). Its effect is stated by the lemmas below. |
| PtsRelations.DiscardFound | afs/pts.py:162-173 | `discard` past `getEntry` keeps the heap sound (`Sound`). |
| PtsRelations.Unlink | afs/pts.py:166-173 | `_RemoveFromGroup` and the two `_discard` calls keep the heap sound, and every existing entry keeps its id and connection with no view newly loaded (`ViewsOnly`). |
| PtsRelations.DiscardEffect | afs/pts.py:155-173 | A successful `discard` removes exactly the pair from the server. A failed one leaves the server unchanged. |
| PtsRelations.DiscardFoundEffect | afs/pts.py:162-173 | The same, for a resolved element. |
| PtsRelations.UnlinkEffect | afs/pts.py:166-173 | Past the membership test, success removes exactly the pair and failure changes nothing on the server. |
| PtsRelations.DiscardFoundMirrors | afs/pts.py:166-173 | After a successful `discard`, no loaded view on either side contains the other entry. |
| PtsRelations.DiscardFoundKeeps | afs/pts.py:162-173 | `discard` keeps every entry's id and connection and loads no view. |
| PtsRelations.DiscardKeepsInvariants | afs/pts.py:155-173 | `discard` keeps the invariants. |
| PtsRelations.DiscardFoundKeepsInvariants | afs/pts.py:162-173 | The same, for a resolved element. |
| PtsRelations.UnlinkKeepsInvariants | afs/pts.py:166-173 | The remove-and-mirror step keeps the invariants. |
| PtsRelations.Remove | afs/pts.py:175-183 | `remove` keeps the heap sound (`Sound`). Its effect is stated by `RemoveEffect`. |
| PtsRelations.RemoveEffect | afs/pts.py:175-183 | An absent element raises NotAMember after only the membership test. Success implies the element was present, and removes exactly its pair. Failure leaves the server unchanged. |
| PtsRelations.RemoveKeepsInvariants | afs/pts.py:175-183 | `remove` keeps the invariants. |
| PtsEntry.FetchEntry | afs/pts.py:316-322 | The body of `_loadEntry` keeps the heap sound, and the entry stays in it. What it loads is stated by `FetchEntryFrame` and `FetchEntryLoads`. |
| PtsEntry.FetchEntries | afs/pts.py:321-322 | Resolving `owner` and `creator` keeps the heap sound, and the entry stays in it. |
| PtsEntry.FetchEntryFrame | afs/pts.py:316-322 | A load issues `_ListEntry` of the entry's id first and changes neither the server nor the entry's id, connection or view. |
| PtsEntry.FetchEntryLoads | afs/pts.py:316-322 | A successful load sets the name and all six attributes from the server's record; `owner` and `creator` are entries carrying the recorded ids. |
| PtsEntry.FetchEntriesLoads | afs/pts.py:321-322 | `owner` and `creator` are resolved through `getEntry`. Only those two attributes change; the log only grows. |
| PtsEntry.LoadEntry | afs/pts.py:316-322 | Corrected `_loadEntry`: a fully loaded entry issues nothing. |
| PtsEntry.LoadEntryOnce | afs/pts.py:316-322 | After a successful corrected load the entry is fully loaded, and the next load issues no RPC. |
| PtsEntry.LoadEntryRetries | afs/pts.py:316-322 | The price of the correction. Take an entry with `flags` assigned but not fully loaded, for instance after a failed `owner`/`creator` lookup. As written, `_loadEntry` issues nothing for it; the corrected load issues `_ListEntry` again. |
| PtsEntry.ReadAttrNeverMissing | afs/pts.py:274-314 | The corrected getters never raise AttributeError for an unassigned attribute. |
| PtsEntry.ReadAttr | afs/pts.py:274-314 | A getter that succeeds returns the attribute the entry now holds. On an entry whose attributes are all assigned it returns that value without an RPC. |
| PtsEntry.ReadAttrAsWritten | afs/pts.py:274-322 | As written, a getter that succeeds returns the attribute the entry now holds. Once `_flags` is assigned it issues no RPC: it returns the cached value, or raises AttributeError when that attribute was never assigned. |
| PtsEntry.LoadEntryAsWritten | afs/pts.py:316-317 | As written, `_loadEntry` does nothing once `_flags` is assigned. |
| PtsEntry.LoadEntryAsWrittenOnce | afs/pts.py:316-322 | As written, a successful `_ListEntry` assigns `flags`, and later loads issue nothing. |
| PtsEntry.ReadAfterSetAsWritten | afs/pts.py:279-322 | Set `flags` on a fresh entry, then read `count`, `ngroups`, `nusers`, `owner` or `creator`: AttributeError as written, no such error corrected. |
| PtsEntry.SetField | afs/pts.py:282-301 | The `flags`, `ngroups` and `nusers` setters keep the heap sound (`Sound`). |
| PtsEntry.SetFieldEffect | afs/pts.py:282-301 | A detached entry fails untouched. Otherwise `_SetFields` comes first; only on success is the one local attribute assigned, every other attribute being unchanged. |
| PtsEntry.SetFieldThenRead | afs/pts.py:279-301 | A successful set followed by a successful read of that attribute gives the value set. |
| PtsEntry.SetFieldKeepsInvariants | afs/pts.py:282-301 | The setters of `flags`, `ngroups` and `nusers` keep the invariants. |
| PtsEntry.SetId | afs/pts.py:254-258 | The `id` setter keeps the heap sound (`Sound`), even when `_ChangeEntry` fails. |
| PtsEntry.SetIdEffect | afs/pts.py:254-258 | KeyError if the id is not cached. On success, the server changes the id, the entry takes the new id and the cache moves it to the new slot. |
| PtsEntry.SetIdNotAtomic | afs/pts.py:254-258 | When `_ChangeEntry` fails, the entry has already left the cache: the cache is inconsistent and a later `getEntry` of that id returns a different object. |
| PtsEntry.SetIdKeepsInvariants | afs/pts.py:254-258 | A successful id change keeps the invariants, all views included. |
| PtsEntry.SetName | afs/pts.py:263-265 | The `name` setter keeps the heap sound (`Sound`). |
| PtsEntry.SetNameEffect | afs/pts.py:263-265 | `_ChangeEntry` comes first; only on success does the local name change. The cache is untouched. |
| PtsEntry.SetNameKeepsInvariants | afs/pts.py:263-265 | The name setter keeps the invariants. |
| PtsEntry.ReadAttrKeepsInvariants | afs/pts.py:274-322 | Reading an attribute keeps the invariants. |
| PtsEntry.ExpireThenRead | afs/pts.py:397-405 | With the corrected load: after `expire`, a fully loaded entry still answers from its attributes, and any other read raises AttributeError because `_pts` is gone. |

## Left out

- `ACL.retrieve`, the foreign half of `ACL.apply`, and `getCallerAccess`: these call the C extension `_acl` (`getAcl`, `setAcl`), which is not part of this model. `Apply` stops at the text that would be sent.
- afs/fs.py and the `umax`/`gmax` properties: they only forward to foreign calls.
- `PTS.__iter__`, `PTRelationSet.__iter__` and `__repr__`, and `PTEntry.__repr__`: iteration and display only. `__len__` is modelled.
- `krbname` and `getEntryFromKrbname`: Kerberos name conversion is a foreign call.
- The `owner` setter: it changes the entry's owner through `_ChangeEntry(newoid=...)`. It is a write-through like the other setters, but the server's owner field is not connected to the entry cache.
- The RPC layer itself: each RPC is a function on the server value. A call in the environment's `refused` set fails, standing for permission errors and connection loss.
- The server is assumed to refuse an id change that reuses an id in use, changes a user into a group or back, or targets 0.
- Id 0 is excluded from the server directory, and membership pairs are (positive user, negative group). The consistency lemmas assume both.
- Set iteration order of `_ListMembers`: `LoadSet` takes the listed ids as a duplicate-free sequence that enumerates what the server relates.
- PtsEntry.FetchEntry: the assignment of `_id` from the `_ListEntry` record is not modelled. For a cached entry it equals the current id, and the name is modelled.
- PtsCache.GetEntry: the Python `NameError` in the foreign-connection branch (it formats an undefined variable) is modelled as the `ForeignEntry` error. Either way an exception is raised.
- The server changes only through this connection's RPCs. `Synced`, `ContainsAgrees`, `AddFoundPresent`, `DiscardFoundAbsent`, `AddFoundCallsOnlyWhenAbsent` and the `*KeepsInvariants` lemmas therefore hold only while no other client changes memberships. Loaded views going stale in that situation is what `expire` exists for (afs/pts.py:397-405).
- An `ACL` is a value. Python's `ACL` shares the caller's dictionaries and mutates them in place (afs/acl.py:100-101). `apply` cleans the receiver before calling `setAcl` (afs/acl.py:109-110), so it stays cleaned even if `setAcl` fails; `Apply` returns only the text that would be sent.
- PtsCache.GetEntry: `getEntry(None)` is not modelled, because an identifier is an entry, a name or an id. In Python it reaches `PTEntry(self, id=None)` and raises TypeError (afs/pts.py:225-227, 387). The model has that error only in `NewEntry`, as `MissingIdentifier`.
- PtsEntry.LoadEntryOnce: the corrected load does not keep the source's once-per-entry `_ListEntry` after a failed `owner`/`creator` lookup; `LoadEntryRetries` states the difference.
- AclObject.Set: the Python 2 `raise ValueError, "..."` message text is not modelled; only the error is.

## Findings

| source | as written | input that shows it | evidently intended | confidence | as-written member | corrected member |
|---|---|---|---|---|---|---|
| afs/pts.py:316-322 | `_loadEntry` decides whether to load by `_flags` alone | on a fresh entry, set `flags` (which assigns `_flags` after `_SetFields`), then read `count` | load until every attribute is assigned; `count` is fetched by `_ListEntry` | not executed | PtsEntry.ReadAfterSetAsWritten | PtsEntry.ReadAttrNeverMissing |

Setting `flags`, `ngroups` or `nusers` on an entry that was never read assigns the local attribute. After a `flags` write, `_loadEntry` then believes the entry is loaded and never fetches it. So `count`, `ngroups`, `nusers`, `owner` and `creator` raise AttributeError.

- `PtsEntry.LoadEntryAsWritten` and `PtsEntry.ReadAttrAsWritten` model the code as written, and `ReadAfterSetAsWritten` exhibits the failure.
- `PtsEntry.LoadEntry`, which loads unless every attribute is assigned, is used by `PtsEntry.ReadAttr` and the rest of the model.
- `ReadAttrNeverMissing` proves that the corrected version never raises this error. `LoadEntryOnce` proves that after a successful corrected load, the next load issues nothing.
- The correction has a cost, stated by `LoadEntryRetries`. When the `owner` or `creator` lookup fails after `_ListEntry` has answered (afs/pts.py:321-322), `flags` is assigned but the entry is not fully loaded. The next corrected read issues `_ListEntry` again, where the code as written issues it once per entry (afs/pts.py:317).
