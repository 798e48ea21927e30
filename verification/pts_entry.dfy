/**
 The attributes of `PTEntry` in afs/pts.py: the six fields `_loadEntry` fills from one
 `_ListEntry` on first read, the write-through setters of `flags`, `ngroups` and `nusers`,
 and the `id` and `name` setters that go through `_ChangeEntry`.
 */
module PtsEntry {
  import opened Base
  import opened PtsRemote
  import opened PtsCache

  datatype Attr = Count | Flags | NGroups | NUsers | Owner | Creator

  datatype AttrValue = IntValue(i: int) | EntryValue(ref: Ref)

  /** The value of one attribute, if it has been assigned. */
  function AttrOf(a: Attrs, f: Attr): Option<AttrValue>
  {
    match f
    case Count => if a.count.Some? then Some(IntValue(a.count.value)) else None
    case Flags => if a.flags.Some? then Some(IntValue(a.flags.value)) else None
    case NGroups => if a.ngroups.Some? then Some(IntValue(a.ngroups.value)) else None
    case NUsers => if a.nusers.Some? then Some(IntValue(a.nusers.value)) else None
    case Owner => if a.owner.Some? then Some(EntryValue(a.owner.value)) else None
    case Creator => if a.creator.Some? then Some(EntryValue(a.creator.value)) else None
  }

  /** Every attribute `_loadEntry` assigns has a value. */
  predicate FullyLoaded(a: Attrs)
  {
    a.count.Some? && a.flags.Some? && a.ngroups.Some? && a.nusers.Some? && a.owner.Some? && a.creator.Some?
  }

  /** The attribute a `_SetFields` keyword writes: `access=` is `flags`. */
  function FieldAttr(field: Field): Attr
  {
    match field
    case Access => Flags
    case Groups => NGroups
    case Users => NUsers
  }

  /** The entry at `r` with new attributes; nothing else changes. */
  function WithAttrs(st: State, r: Ref, a: Attrs): (st2: State)
    requires r in st.heap
    ensures Sound(st) ==> Sound(st2)
  {
    st.(heap := st.heap[r := st.heap[r].(attrs := a)])
  }

  /**
   The loading half of `_loadEntry`: `_ListEntry`, then the name and the four numeric
   fields, then `owner` and `creator` through `getEntry`, each assigned as soon as it is
   known, so a failing lookup leaves the fields before it assigned.
   */
  function FetchEntry(st: State, r: Ref): (s: Step<()>)
    requires Sound(st) && r in st.heap
    ensures Sound(s.st) && r in s.st.heap
  {
    if !st.heap[r].attached then Step(Err(Detached), st)
    else
      var q := ListEntry(st, st.heap[r].id);
      if q.res.Err? then Fail(q)
      else
        var info := q.res.value.1;
        var e := q.st.heap[r];
        var a := e.attrs.(count := Some(info.count), flags := Some(info.flags),
                          ngroups := Some(info.ngroups), nusers := Some(info.nusers));
        var st1 := q.st.(heap := q.st.heap[r := e.(name := q.res.value.0, attrs := a)]);
        FetchEntries(st1, r, info.owner, info.creator)
  }

  /** The last two assignments of `_loadEntry`: `owner`, then `creator`, each through `getEntry`. */
  function FetchEntries(st: State, r: Ref, owner: int, creator: int): (s: Step<()>)
    requires Sound(st) && r in st.heap
    ensures Sound(s.st) && r in s.st.heap
  {
    var g1 := GetEntry(st, ById(owner));
    if g1.res.Err? then Fail(g1)
    else
      var st2 := WithAttrs(g1.st, r, g1.st.heap[r].attrs.(owner := Some(g1.res.value)));
      var g2 := GetEntry(st2, ById(creator));
      if g2.res.Err? then Fail(g2)
      else Step(Ok(()), WithAttrs(g2.st, r, g2.st.heap[r].attrs.(creator := Some(g2.res.value))))
  }

  /** `_loadEntry` corrected: load unless every attribute is already assigned. */
  function LoadEntry(st: State, r: Ref): (s: Step<()>)
    requires Sound(st) && r in st.heap
    ensures Sound(s.st) && r in s.st.heap
    ensures FullyLoaded(st.heap[r].attrs) ==> s == Step(Ok(()), st)
  {
    if FullyLoaded(st.heap[r].attrs) then Step(Ok(()), st) else FetchEntry(st, r)
  }

  /** `_loadEntry` as written: load only when `_flags` was never assigned. */
  function LoadEntryAsWritten(st: State, r: Ref): (s: Step<()>)
    requires Sound(st) && r in st.heap
    ensures Sound(s.st) && r in s.st.heap
    ensures st.heap[r].attrs.flags.Some? ==> s == Step(Ok(()), st)
  {
    if st.heap[r].attrs.flags.Some? then Step(Ok(()), st) else FetchEntry(st, r)
  }

  /** The getters of `count`, `flags`, `ngroups`, `nusers`, `owner` and `creator`, over the corrected load. */
  function ReadAttr(st: State, r: Ref, f: Attr): (s: Step<AttrValue>)
    requires Sound(st) && r in st.heap
    ensures Sound(s.st) && r in s.st.heap
    ensures s.res.Ok? ==> AttrOf(s.st.heap[r].attrs, f) == Some(s.res.value)
    ensures FullyLoaded(st.heap[r].attrs) ==> s == Step(Ok(AttrOf(st.heap[r].attrs, f).value), st)
  {
    var l := LoadEntry(st, r);
    if l.res.Err? then Fail(l)
    else
      var v := AttrOf(l.st.heap[r].attrs, f);
      if v.None? then Step(Err(MissingAttribute), l.st) else Step(Ok(v.value), l.st)
  }

  /** The same getters over `_loadEntry` as written; an unassigned attribute raises AttributeError. */
  function ReadAttrAsWritten(st: State, r: Ref, f: Attr): (s: Step<AttrValue>)
    requires Sound(st) && r in st.heap
    ensures Sound(s.st) && r in s.st.heap
    ensures s.res.Ok? ==> AttrOf(s.st.heap[r].attrs, f) == Some(s.res.value)
    ensures st.heap[r].attrs.flags.Some? ==>
      && s.st == st
      && (AttrOf(st.heap[r].attrs, f).Some? ==> s.res == Ok(AttrOf(st.heap[r].attrs, f).value))
      && (AttrOf(st.heap[r].attrs, f).None? ==> s.res == Err(MissingAttribute))
  {
    var l := LoadEntryAsWritten(st, r);
    if l.res.Err? then Fail(l)
    else
      var v := AttrOf(l.st.heap[r].attrs, f);
      if v.None? then Step(Err(MissingAttribute), l.st) else Step(Ok(v.value), l.st)
  }

  /** The local attribute a `_SetFields` keyword writes. */
  function StoreField(a: Attrs, field: Field, value: int): Attrs
  {
    match field
    case Access => a.(flags := Some(value))
    case Groups => a.(ngroups := Some(value))
    case Users => a.(nusers := Some(value))
  }

  /**
   The setters of `flags`, `ngroups` and `nusers`: `_SetFields` first, and the local
   attribute only once the server accepted it.
   */
  function SetField(st: State, r: Ref, field: Field, value: int): (s: Step<()>)
    requires Sound(st) && r in st.heap
    ensures Sound(s.st)
  {
    if !st.heap[r].attached then Step(Err(Detached), st)
    else
      var u := SetFields(st, st.heap[r].id, field, value);
      if u.res.Err? then Fail(u)
      else Step(Ok(()), WithAttrs(u.st, r, StoreField(st.heap[r].attrs, field, value)))
  }

  /**
   The `id` setter: the cache slot of the current id is deleted first (KeyError if there
   is none), then `_ChangeEntry`; only on success does the entry take the new id and the
   new cache slot. A refused change leaves the entry out of the cache.
   */
  function SetId(st: State, r: Ref, newId: int): (s: Step<()>)
    requires Sound(st) && r in st.heap
    ensures Sound(s.st)
  {
    var e := st.heap[r];
    if !e.attached then Step(Err(Detached), st)
    else if e.id !in st.cache then Step(Err(UncachedId), st)
    else
      var st1 := st.(cache := st.cache - {e.id});
      var u := ChangeId(st1, e.id, newId);
      if u.res.Err? then Fail(u)
      else Step(Ok(()), u.st.(heap := u.st.heap[r := e.(id := newId)], cache := u.st.cache[newId := r]))
  }

  /** The `name` setter: `_ChangeEntry` first, the local name only on success. */
  function SetName(st: State, r: Ref, newName: string): (s: Step<()>)
    requires Sound(st) && r in st.heap
    ensures Sound(s.st)
  {
    var e := st.heap[r];
    if !e.attached then Step(Err(Detached), st)
    else
      var u := ChangeName(st, e.id, newName);
      if u.res.Err? then Fail(u)
      else Step(Ok(()), u.st.(heap := u.st.heap[r := e.(name := newName)]))
  }


  // ---------------------------------------------------------------- properties

  /**
   A load starts with one `_ListEntry` of the entry's id and changes neither the server
   nor the entry's id, connection or view; once `_ListEntry` has answered, `flags` is
   assigned whatever happens next.
   */
  lemma FetchEntryFrame(st: State, r: Ref)
    requires Sound(st) && r in st.heap && st.heap[r].attached
    ensures var s := FetchEntry(st, r);
      var id := st.heap[r].id;
      && |st.log| < |s.st.log| && s.st.log[|st.log|] == ListEntryCall(id)
      && s.st.db == st.db
      && s.st.heap[r].id == id && s.st.heap[r].attached && s.st.heap[r].view == st.heap[r].view
      && (ListEntry(st, id).res.Ok? ==> s.st.heap[r].attrs.flags.Some?)
  {
    var id := st.heap[r].id;
    var q := ListEntry(st, id);
    if q.res.Ok? {
      var info := q.res.value.1;
      var e := q.st.heap[r];
      var a := e.attrs.(count := Some(info.count), flags := Some(info.flags),
                        ngroups := Some(info.ngroups), nusers := Some(info.nusers));
      var st1 := q.st.(heap := q.st.heap[r := e.(name := q.res.value.0, attrs := a)]);
      assert FetchEntry(st, r) == FetchEntries(st1, r, info.owner, info.creator);
      FetchEntriesLoads(st1, r, info.owner, info.creator);
      PrefixAt(st.log, st1.log, FetchEntry(st, r).st.log, ListEntryCall(id));
    }
  }

  /** The call appended to `a` is still at that position in any extension of `a + [c]`. */
  lemma PrefixAt<T>(a: seq<T>, b: seq<T>, c: seq<T>, x: T)
    requires b == a + [x] && |b| <= |c| && c[..|b|] == b
    ensures |a| < |c| && c[|a|] == x
  {
    assert c[|a|] == c[..|b|][|a|];
  }

  /**
   A successful load leaves every attribute holding the server's record: the name and
   the four numbers as listed, `owner` and `creator` as entries carrying the listed ids.
   */
  lemma FetchEntryLoads(st: State, r: Ref)
    requires Sound(st) && r in st.heap && st.heap[r].attached
    ensures var s := FetchEntry(st, r);
      var id := st.heap[r].id;
      && (s.res.Ok? ==> id in st.db.names && id in st.db.info && FullyLoaded(s.st.heap[r].attrs))
      && (s.res.Ok? ==>
            var info := st.db.info[id];
            var a := s.st.heap[r].attrs;
            && s.st.heap[r].name == st.db.names[id]
            && a.count == Some(info.count) && a.flags == Some(info.flags)
            && a.ngroups == Some(info.ngroups) && a.nusers == Some(info.nusers)
            && a.owner.value in s.st.heap && s.st.heap[a.owner.value].id == info.owner
            && a.creator.value in s.st.heap && s.st.heap[a.creator.value].id == info.creator)
  {
    var id := st.heap[r].id;
    var q := ListEntry(st, id);
    if q.res.Ok? {
      var info := q.res.value.1;
      var e := q.st.heap[r];
      var a := e.attrs.(count := Some(info.count), flags := Some(info.flags),
                        ngroups := Some(info.ngroups), nusers := Some(info.nusers));
      var st1 := q.st.(heap := q.st.heap[r := e.(name := q.res.value.0, attrs := a)]);
      FetchEntriesLoads(st1, r, info.owner, info.creator);
    }
  }

  lemma FetchEntriesLoads(st: State, r: Ref, owner: int, creator: int)
    requires Sound(st) && r in st.heap
    ensures var s := FetchEntries(st, r, owner, creator);
      && |st.log| <= |s.st.log| && s.st.log[..|st.log|] == st.log && s.st.db == st.db
      && s.st.heap[r] == st.heap[r].(attrs := s.st.heap[r].attrs)
      && s.st.heap[r].attrs.(owner := st.heap[r].attrs.owner, creator := st.heap[r].attrs.creator) == st.heap[r].attrs
      && (s.res.Ok? ==>
            var a := s.st.heap[r].attrs;
            && a.owner.Some? && a.owner.value in s.st.heap && s.st.heap[a.owner.value].id == owner
            && a.creator.Some? && a.creator.value in s.st.heap && s.st.heap[a.creator.value].id == creator)
  {
    var g1 := GetEntry(st, ById(owner));
    if g1.res.Ok? {
      var st2 := WithAttrs(g1.st, r, g1.st.heap[r].attrs.(owner := Some(g1.res.value)));
      var g2 := GetEntry(st2, ById(creator));
      assert Keeps(st2, g2.st);
    }
  }

  /**
   With the corrected test a successful load is the last one: every attribute is then
   assigned, a second load issues no RPC, and no getter can meet a missing attribute.
   */
  lemma LoadEntryOnce(st: State, r: Ref)
    requires Sound(st) && r in st.heap
    ensures var s := LoadEntry(st, r);
      s.res.Ok? ==> FullyLoaded(s.st.heap[r].attrs) && LoadEntry(s.st, r) == Step(Ok(()), s.st)
  {
    if !FullyLoaded(st.heap[r].attrs) && st.heap[r].attached {
      FetchEntryLoads(st, r);
    }
  }

  /**
   The price of the correction: an entry whose `flags` is assigned but which is not fully
   loaded (a failed `owner` or `creator` lookup, or a `flags` write) is fetched again with
   `_ListEntry`, while the code as written issues nothing for it.
   */
  lemma LoadEntryRetries(st: State, r: Ref)
    requires Sound(st) && r in st.heap && st.heap[r].attached
    requires st.heap[r].attrs.flags.Some? && !FullyLoaded(st.heap[r].attrs)
    ensures LoadEntryAsWritten(st, r) == Step(Ok(()), st)
    ensures var s := LoadEntry(st, r);
      |st.log| < |s.st.log| && s.st.log[|st.log|] == ListEntryCall(st.heap[r].id)
  {
    FetchEntryFrame(st, r);
  }

  /** The corrected getters never raise AttributeError. */
  lemma ReadAttrNeverMissing(st: State, r: Ref, f: Attr)
    requires Sound(st) && r in st.heap
    ensures ReadAttr(st, r, f).res != Err(MissingAttribute)
  {
    LoadEntryOnce(st, r);
  }

  /**
   As written, `_loadEntry` issues `_ListEntry` at most once per entry: once a
   `_ListEntry` has answered, `flags` is assigned and every later load returns at once,
   even if looking up `owner` or `creator` failed.
   */
  lemma LoadEntryAsWrittenOnce(st: State, r: Ref)
    requires Sound(st) && r in st.heap && st.heap[r].attached
    ensures var s := LoadEntryAsWritten(st, r);
      && (st.heap[r].attrs.flags.None? ==> ListEntry(st, st.heap[r].id).res.Ok? ==> s.st.heap[r].attrs.flags.Some?)
      && (s.st.heap[r].attrs.flags.Some? ==> LoadEntryAsWritten(s.st, r) == Step(Ok(()), s.st))
  {
    if st.heap[r].attrs.flags.None? {
      FetchEntryFrame(st, r);
    }
  }

  /**
   The setters of `flags`, `ngroups` and `nusers` on the server and on the entry: a
   detached entry fails with nothing changed; a refused `_SetFields` changes nothing but
   the log, so the cached value is kept; a success writes the field on the server and that
   one attribute locally, and no other attribute or entry changes.
   */
  lemma SetFieldEffect(st: State, r: Ref, field: Field, value: int)
    requires Sound(st) && r in st.heap
    ensures var s := SetField(st, r, field, value);
      var e := st.heap[r];
      && (!e.attached ==> s == Step(Err(Detached), st))
      && (e.attached && s.res.Err? ==> s.st == Issue(st, SetFieldsCall(e.id, field, value)))
      && (s.res.Ok? ==> e.attached && e.id in st.db.info)
      && (s.res.Ok? ==>
            && s.st.db.info == st.db.info[e.id := SetInfoField(st.db.info[e.id], field, value)]
            && s.st.heap == st.heap[r := e.(attrs := s.st.heap[r].attrs)]
            && AttrOf(s.st.heap[r].attrs, FieldAttr(field)) == Some(IntValue(value))
            && (forall f :: f != FieldAttr(field) ==> AttrOf(s.st.heap[r].attrs, f) == AttrOf(e.attrs, f)))
  {
  }

  /**
   Write-through: after a setter succeeds, the corrected getter of the same attribute
   returns the value written, whether the entry was loaded before or is loaded now from
   the server.
   */
  lemma SetFieldThenRead(st: State, r: Ref, field: Field, value: int)
    requires Sound(st) && r in st.heap && SetField(st, r, field, value).res.Ok?
    ensures var s := SetField(st, r, field, value);
      var t := ReadAttr(s.st, r, FieldAttr(field));
      t.res.Ok? ==> t.res.value == IntValue(value)
  {
    var s := SetField(st, r, field, value);
    SetFieldEffect(st, r, field, value);
    if !FullyLoaded(s.st.heap[r].attrs) {
      FetchEntryLoads(s.st, r);
    }
  }

  /**
   The defect of the as-written test: on an entry never loaded, setting `flags` assigns
   `_flags`, so the next getter of any other attribute skips `_ListEntry` and raises
   AttributeError. The corrected getter loads instead.
   */
  lemma ReadAfterSetAsWritten(st: State, r: Ref, value: int, f: Attr)
    requires Sound(st) && r in st.heap && st.heap[r].attrs == NoAttrs && f != Flags
    requires SetField(st, r, Access, value).res.Ok?
    ensures ReadAttrAsWritten(SetField(st, r, Access, value).st, r, f).res == Err(MissingAttribute)
    ensures ReadAttr(SetField(st, r, Access, value).st, r, f).res != Err(MissingAttribute)
  {
    SetFieldEffect(st, r, Access, value);
    ReadAttrNeverMissing(SetField(st, r, Access, value).st, r, f);
  }

  /**
   A successful `id` change: the entry takes the new id and the new cache slot, the old
   slot is gone, no other slot or entry changes, and the server renamed the id.
   */
  lemma SetIdEffect(st: State, r: Ref, newId: int)
    requires Sound(st) && r in st.heap
    ensures var s := SetId(st, r, newId);
      var e := st.heap[r];
      && (!e.attached ==> s == Step(Err(Detached), st))
      && (e.attached && e.id !in st.cache ==> s == Step(Err(UncachedId), st))
      && (s.res.Ok? ==> e.attached && e.id in st.cache && DbChangeId(st.db, e.id, newId).Some?)
      && (s.res.Ok? ==>
            && s.st.db == DbChangeId(st.db, e.id, newId).value
            && s.st.heap == st.heap[r := e.(id := newId)]
            && s.st.cache == (st.cache - {e.id})[newId := r]
            && s.st.log == st.log + [ChangeIdCall(e.id, newId)])
  {
  }

  /**
   The `id` change is not failure-atomic: when the server refuses it, the entry is still
   connected and keeps its id, but the cache slot of that id is already gone, so the
   identity map is broken and looking the id up again builds a second object.
   */
  lemma SetIdNotAtomic(st: State, r: Ref, newId: int)
    requires WF(st) && r in st.heap && st.heap[r].attached
    requires SetId(st, r, newId).res.Err?
    ensures var s := SetId(st, r, newId);
      var id := st.heap[r].id;
      && s.res == Err(RpcFailed(ChangeIdCall(id, newId)))
      && s.st.heap == st.heap && s.st.db == st.db
      && s.st.cache == st.cache - {id}
      && !WF(s.st)
      && (GetEntry(s.st, ById(id)).res.Ok? ==> GetEntry(s.st, ById(id)).res.value != r)
  {
    var s := SetId(st, r, newId);
    assert st.heap[r].id !in s.st.cache;
  }

  /** A successful `id` change keeps the identity map and every loaded view in step with the server. */
  lemma SetIdKeepsInvariants(st: State, r: Ref, newId: int)
    requires WF(st) && Synced(st) && r in st.heap && SetId(st, r, newId).res.Ok?
    ensures WF(SetId(st, r, newId).st) && Synced(SetId(st, r, newId).st)
  {
    var e := st.heap[r];
    SetIdEffect(st, r, newId);
    RenamedIds(st, r, newId);
    SetIdKeepsWF(st, r, newId);
    SetIdKeepsSynced(st, r, newId);
  }

  /** Only the changed entry carries the old id, and no connected entry carries the new one. */
  lemma RenamedIds(st: State, r: Ref, newId: int)
    requires WF(st) && Synced(st) && r in st.heap && st.heap[r].attached
    requires DbChangeId(st.db, st.heap[r].id, newId).Some?
    ensures forall q :: q in st.heap && st.heap[q].attached && q != r ==>
      st.heap[q].id != st.heap[r].id && st.heap[q].id != newId && st.heap[q].id in st.db.names
  {
    forall q | q in st.heap && st.heap[q].attached && q != r
      ensures st.heap[q].id != st.heap[r].id && st.heap[q].id != newId && st.heap[q].id in st.db.names
    {
      Identity(st, q, r);
    }
  }

  lemma SetIdKeepsWF(st: State, r: Ref, newId: int)
    requires WF(st) && r in st.heap && st.heap[r].attached && SetId(st, r, newId).res.Ok?
    requires DbChangeId(st.db, st.heap[r].id, newId).Some?
    requires SetId(st, r, newId).st.heap == st.heap[r := st.heap[r].(id := newId)]
    requires SetId(st, r, newId).st.cache == (st.cache - {st.heap[r].id})[newId := r]
    requires forall q :: q in st.heap && st.heap[q].attached && q != r ==>
      st.heap[q].id != st.heap[r].id && st.heap[q].id != newId
    ensures WF(SetId(st, r, newId).st)
  {
  }

  lemma SetIdKeepsSynced(st: State, r: Ref, newId: int)
    requires WF(st) && Synced(st) && r in st.heap && st.heap[r].attached && SetId(st, r, newId).res.Ok?
    requires DbChangeId(st.db, st.heap[r].id, newId).Some?
    requires SetId(st, r, newId).st.db == DbChangeId(st.db, st.heap[r].id, newId).value
    requires SetId(st, r, newId).st.heap == st.heap[r := st.heap[r].(id := newId)]
    requires SetId(st, r, newId).st.cache == (st.cache - {st.heap[r].id})[newId := r]
    requires forall q :: q in st.heap && st.heap[q].attached && q != r ==>
      st.heap[q].id != st.heap[r].id && st.heap[q].id != newId && st.heap[q].id in st.db.names
    ensures Synced(SetId(st, r, newId).st)
  {
    var s := SetId(st, r, newId).st;
    var id := st.heap[r].id;
    ChangeIdKeepsDbWF(st.db, id, newId);
    forall q | q in s.heap && s.heap[q].attached && s.heap[q].view.Loaded?
      ensures IdsOf(s, s.heap[q].view.elems) == Related(s.db, s.heap[q].id)
    {
      var v := st.heap[q].view.elems;
      assert forall y :: y in v ==> y in ElemsOf(st.heap[q]);
      IdsOfRenamed(st, s, v, id, newId);
      RelatedRenamed(st.db, id, newId, st.heap[q].id);
    }
  }

  /** The ids of a set of entries after each id was renamed. */
  lemma IdsOfRenamed(st: State, s: State, v: set<Ref>, id: int, newId: int)
    requires forall y :: y in v ==> y in st.heap && y in s.heap && s.heap[y].id == Renamed(st.heap[y].id, id, newId)
    ensures IdsOf(s, v) == set i | i in IdsOf(st, v) :: Renamed(i, id, newId)
  {
    forall i | i in IdsOf(s, v) ensures i in set j | j in IdsOf(st, v) :: Renamed(j, id, newId) {
      var y :| y in v && y in s.heap && s.heap[y].id == i;
      assert st.heap[y].id in IdsOf(st, v);
    }
    forall j | j in IdsOf(st, v) ensures Renamed(j, id, newId) in IdsOf(s, v) {
      var y :| y in v && y in st.heap && st.heap[y].id == j;
      assert s.heap[y].id in IdsOf(s, v);
    }
  }

  /**
   The `name` setter: a detached entry fails with nothing changed; a refused
   `_ChangeEntry` changes nothing but the log; a success renames the entry on the server
   and locally, and nothing else changes.
   */
  lemma SetNameEffect(st: State, r: Ref, newName: string)
    requires Sound(st) && r in st.heap
    ensures var s := SetName(st, r, newName);
      var e := st.heap[r];
      && (!e.attached ==> s == Step(Err(Detached), st))
      && (e.attached && s.res.Err? ==> s.st == Issue(st, ChangeNameCall(e.id, newName)))
      && (s.res.Ok? ==> e.attached && DbChangeName(st.db, e.id, newName).Some?)
      && (s.res.Ok? ==>
            && s.st.db == DbChangeName(st.db, e.id, newName).value
            && s.st.heap == st.heap[r := e.(name := newName)]
            && s.st.cache == st.cache)
  {
  }

  /** Renaming keeps both invariants. */
  lemma SetNameKeepsInvariants(st: State, r: Ref, newName: string)
    requires WF(st) && Synced(st) && r in st.heap
    ensures WF(SetName(st, r, newName).st) && Synced(SetName(st, r, newName).st)
  {
    var s := SetName(st, r, newName);
    var e := st.heap[r];
    if e.attached {
      if s.res.Err? {
        IssueGrown(st, ChangeNameCall(e.id, newName));
        GrownKeepsInvariants(st, s.st);
      } else {
        ChangeNameKeepsDbWF(st.db, e.id, newName);
        RelabelKeepsInvariants(st, s.st);
      }
    }
  }

  /** The setters of `flags`, `ngroups` and `nusers` keep both invariants. */
  lemma SetFieldKeepsInvariants(st: State, r: Ref, field: Field, value: int)
    requires WF(st) && Synced(st) && r in st.heap
    ensures WF(SetField(st, r, field, value).st) && Synced(SetField(st, r, field, value).st)
  {
    var s := SetField(st, r, field, value);
    var e := st.heap[r];
    if e.attached {
      if s.res.Err? {
        IssueGrown(st, SetFieldsCall(e.id, field, value));
        GrownKeepsInvariants(st, s.st);
      } else {
        SetFieldsKeepsDbWF(st.db, e.id, field, value);
        RelabelKeepsInvariants(st, s.st);
      }
    }
  }

  /**
   Changing names, attributes or the server's names and records, but no id, connection,
   view, cache slot or membership pair, keeps both invariants.
   */
  lemma RelabelKeepsInvariants(st: State, s: State)
    requires WF(st) && Synced(st) && DbWF(s.db)
    requires s.cache == st.cache && s.next == st.next && s.heap.Keys == st.heap.Keys
    requires forall r :: r in st.heap ==>
      && s.heap[r].id == st.heap[r].id && s.heap[r].attached == st.heap[r].attached
      && s.heap[r].kind == st.heap[r].kind && s.heap[r].view == st.heap[r].view
    requires s.db.names.Keys == st.db.names.Keys && s.db.edges == st.db.edges
    ensures WF(s) && Synced(s)
  {
    assert SameShape(st, s);
    SameShapeKeeps(st, s);
    assert ViewsAttached(s) by {
      assert forall q :: q in st.heap ==> ElemsOf(s.heap[q]) == ElemsOf(st.heap[q]);
    }
    RelabelKeepsViews(st, s);
  }

  lemma RelabelKeepsViews(st: State, s: State)
    requires WF(st) && Synced(st)
    requires s.heap.Keys == st.heap.Keys
    requires forall r :: r in st.heap ==>
      && s.heap[r].id == st.heap[r].id && s.heap[r].attached == st.heap[r].attached && s.heap[r].view == st.heap[r].view
    requires s.db.names.Keys == st.db.names.Keys && s.db.edges == st.db.edges
    ensures forall q :: q in s.heap && s.heap[q].attached && s.heap[q].view.Loaded? ==>
      IdsOf(s, s.heap[q].view.elems) == Related(s.db, s.heap[q].id)
  {
    forall q | q in s.heap && s.heap[q].attached && s.heap[q].view.Loaded?
      ensures IdsOf(s, s.heap[q].view.elems) == Related(s.db, s.heap[q].id)
    {
      var v := st.heap[q].view.elems;
      assert forall y :: y in v ==> y in ElemsOf(st.heap[q]);
      IdsOfKept(st, s, v);
    }
  }

  lemma WithAttrsKeepsInvariants(st: State, r: Ref, a: Attrs)
    requires WF(st) && Synced(st) && r in st.heap
    ensures WF(WithAttrs(st, r, a)) && Synced(WithAttrs(st, r, a))
  {
    RelabelKeepsInvariants(st, WithAttrs(st, r, a));
  }

  lemma FetchEntriesKeepsInvariants(st: State, r: Ref, owner: int, creator: int)
    requires WF(st) && Synced(st) && r in st.heap
    ensures WF(FetchEntries(st, r, owner, creator).st) && Synced(FetchEntries(st, r, owner, creator).st)
  {
    var g1 := GetEntry(st, ById(owner));
    GetEntryKeepsInvariants(st, ById(owner));
    if g1.res.Ok? {
      var st2 := WithAttrs(g1.st, r, g1.st.heap[r].attrs.(owner := Some(g1.res.value)));
      WithAttrsKeepsInvariants(g1.st, r, g1.st.heap[r].attrs.(owner := Some(g1.res.value)));
      var g2 := GetEntry(st2, ById(creator));
      GetEntryKeepsInvariants(st2, ById(creator));
      if g2.res.Ok? {
        WithAttrsKeepsInvariants(g2.st, r, g2.st.heap[r].attrs.(creator := Some(g2.res.value)));
      }
    }
  }

  /** Loading an entry keeps both invariants, whether it succeeds or stops half way. */
  lemma FetchEntryKeepsInvariants(st: State, r: Ref)
    requires WF(st) && Synced(st) && r in st.heap
    ensures WF(FetchEntry(st, r).st) && Synced(FetchEntry(st, r).st)
  {
    if st.heap[r].attached {
      var q := ListEntry(st, st.heap[r].id);
      IssueGrown(st, ListEntryCall(st.heap[r].id));
      GrownKeepsInvariants(st, q.st);
      if q.res.Ok? {
        var info := q.res.value.1;
        var e := q.st.heap[r];
        var a := e.attrs.(count := Some(info.count), flags := Some(info.flags),
                          ngroups := Some(info.ngroups), nusers := Some(info.nusers));
        var st1 := q.st.(heap := q.st.heap[r := e.(name := q.res.value.0, attrs := a)]);
        RelabelKeepsInvariants(q.st, st1);
        FetchEntriesKeepsInvariants(st1, r, info.owner, info.creator);
      }
    }
  }

  /** The getters keep both invariants. */
  lemma ReadAttrKeepsInvariants(st: State, r: Ref, f: Attr)
    requires WF(st) && Synced(st) && r in st.heap
    ensures WF(ReadAttr(st, r, f).st) && Synced(ReadAttr(st, r, f).st)
  {
    assert ReadAttr(st, r, f).st == LoadEntry(st, r).st;
    if !FullyLoaded(st.heap[r].attrs) {
      FetchEntryKeepsInvariants(st, r);
    }
  }

  /**
   After `expire` an entry whose attributes were all loaded still answers every getter
   from them with no RPC; any other entry fails, since loading needs the connection.
   */
  lemma ExpireThenRead(st: State, r: Ref, f: Attr)
    requires WF(st) && r in st.heap
    ensures var s := Expire(st);
      && (FullyLoaded(st.heap[r].attrs) ==> ReadAttr(s, r, f) == Step(Ok(AttrOf(st.heap[r].attrs, f).value), s))
      && (!FullyLoaded(st.heap[r].attrs) ==> ReadAttr(s, r, f) == Step(Err(Detached), s))
  {
    ExpireDetachesAll(st);
  }
}
