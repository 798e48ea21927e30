/**
 The client side of afs/pts.py: one `PTS` connection with its identity cache of
 `PTEntry` objects, each entry's lazily loaded attributes, and its `PTRelationSet` view
 (`members` for a group, `groups` otherwise).

 Python objects are modelled as references into a heap; an entry whose `_pts` attribute
 `expire` deleted is `attached == false`. Every operation takes the state and returns the
 outcome with the new state; an exception is an `Err`, and whatever the operation changed
 before raising stays changed, as in Python. Every RPC is appended to `log`; a call in
 `refused` fails (a permission error or a lost connection), as does one the server
 refuses.
 */
module PtsCache {
  import opened Base
  import opened PtsRemote

  /** The identity of a Python object. */
  type Ref = nat

  /** A `PTRelationSet`: `_set` is absent until first needed. */
  datatype View = Unloaded | Loaded(elems: set<Ref>)

  /** Which view an entry has: `members` if its id was negative at creation, else `groups`. */
  datatype Kind = MembersView | GroupsView

  function KindFor(id: int): Kind
  {
    if id < 0 then MembersView else GroupsView
  }

  /** The lazily loaded attributes; `None` is an attribute never assigned. */
  datatype Attrs = Attrs(
    count: Option<int>, flags: Option<int>, ngroups: Option<int>, nusers: Option<int>,
    owner: Option<Ref>, creator: Option<Ref>)

  const NoAttrs: Attrs := Attrs(None, None, None, None, None, None)

  datatype Entry = Entry(id: int, name: string, attached: bool, kind: Kind, view: View, attrs: Attrs)

  /** What `getEntry` accepts: an entry object, a name, or an id. */
  datatype Ident = ByRef(ref: Ref) | ByName(name: string) | ById(id: int)

  datatype PtsError =
    | MissingIdentifier  // TypeError: neither an id nor a name
    | ForeignEntry       // an entry object of another connection, or detached by `expire`
    | Detached           // AttributeError: `_pts` was deleted by `expire`
    | RpcFailed(call: Rpc)
    | GroupIntoGroup     // TypeError from `add`
    | UserIntoUser       // TypeError from `add`
    | MissingView        // AttributeError: the other entry has no view of the needed kind
    | NotAMember         // KeyError from `remove`
    | UncachedId         // KeyError from the id setter's `del _cache[...]`
    | MissingAttribute   // AttributeError: reading an attribute never assigned

  datatype State = State(
    heap: map<Ref, Entry>,
    cache: map<int, Ref>,  // `PTS._cache`
    next: Ref,             // the next fresh object
    db: Db,
    refused: set<Rpc>,
    log: seq<Rpc>)

  datatype Step<T> = Step(res: Result<T, PtsError>, st: State)

  /**
   Holds in every reachable state: objects are allocated below `next`, and the cache maps
   each id to a live entry carrying that id.
   */
  predicate Sound(st: State)
  {
    && (forall r :: r in st.heap ==> r < st.next)
    && (forall i :: i in st.cache ==>
          st.cache[i] in st.heap && st.heap[st.cache[i]].attached && st.heap[st.cache[i]].id == i)
  }

  /** `st2` only adds to `st`: existing objects, cache slots, server and log are kept. */
  predicate Keeps(st: State, st2: State)
  {
    && st2.db == st.db && st2.refused == st.refused && st.next <= st2.next
    && (forall r :: r in st.heap ==> r in st2.heap && st2.heap[r] == st.heap[r])
    && (forall i :: i in st.cache ==> i in st2.cache && st2.cache[i] == st.cache[i])
    && |st.log| <= |st2.log| && st2.log[..|st.log|] == st.log
  }

  lemma KeepsTrans(a: State, b: State, c: State)
    requires Keeps(a, b) && Keeps(b, c)
    ensures Keeps(a, c)
  {
    assert c.log[..|a.log|] == c.log[..|b.log|][..|a.log|];
  }

  function Fail<A, B>(s: Step<A>): Step<B>
    requires s.res.Err?
  {
    Step(Err(s.res.error), s.st)
  }

  // ---------------------------------------------------------------- RPCs

  function Issue(st: State, call: Rpc): State
  {
    st.(log := st.log + [call])
  }

  function Query<T>(st: State, call: Rpc, reply: Option<T>): Step<T>
  {
    if call in st.refused || reply.None? then Step(Err(RpcFailed(call)), Issue(st, call))
    else Step(Ok(reply.value), Issue(st, call))
  }

  function Update(st: State, call: Rpc, db: Option<Db>): Step<()>
  {
    if call in st.refused || db.None? then Step(Err(RpcFailed(call)), Issue(st, call))
    else Step(Ok(()), Issue(st, call).(db := db.value))
  }

  function NameToId(st: State, name: string): Step<int>
  {
    Query(st, NameToIdCall(name), DbNameToId(st.db, name))
  }

  function IdToName(st: State, id: int): Step<string>
  {
    Query(st, IdToNameCall(id), DbIdToName(st.db, id))
  }

  function ListEntry(st: State, id: int): Step<(string, Info)>
  {
    Query(st, ListEntryCall(id), DbListEntry(st.db, id))
  }

  function ListMembers(st: State, id: int): Step<set<int>>
  {
    Query(st, ListMembersCall(id), DbListMembers(st.db, id))
  }

  function IsAMemberOf(st: State, user: int, group: int): Step<bool>
  {
    Query(st, IsAMemberOfCall(user, group), DbIsAMemberOf(st.db, user, group))
  }

  function AddToGroup(st: State, user: int, group: int): Step<()>
  {
    Update(st, AddToGroupCall(user, group), DbAddToGroup(st.db, user, group))
  }

  function RemoveFromGroup(st: State, user: int, group: int): Step<()>
  {
    Update(st, RemoveFromGroupCall(user, group), DbRemoveFromGroup(st.db, user, group))
  }

  function ChangeId(st: State, id: int, newId: int): Step<()>
  {
    Update(st, ChangeIdCall(id, newId), DbChangeId(st.db, id, newId))
  }

  function ChangeName(st: State, id: int, newName: string): Step<()>
  {
    Update(st, ChangeNameCall(id, newName), DbChangeName(st.db, id, newName))
  }

  function SetFields(st: State, id: int, field: Field, value: int): Step<()>
  {
    Update(st, SetFieldsCall(id, field, value), DbSetFields(st.db, id, field, value))
  }

  // ---------------------------------------------------------------- entries

  /** A new attached entry for `id`, entered in the cache. */
  function Alloc(st: State, id: int, name: string): Step<Ref>
  {
    var r := st.next;
    Step(Ok(r), st.(heap := st.heap[r := Entry(id, name, true, KindFor(id), Unloaded, NoAttrs)],
                    cache := st.cache[id := r],
                    next := st.next + 1))
  }

  /**
   `PTEntry.__new__`: with neither id nor name, TypeError; without an id, the name is
   resolved by `_NameToId`. A cached id returns the cached entry; otherwise the name, if
   not given, is fetched by `_IdToName` and a new entry is created and cached.
   */
  function NewEntry(st: State, id: Option<int>, name: Option<string>): (s: Step<Ref>)
    requires Sound(st)
    ensures Sound(s.st) && Keeps(st, s.st)
    ensures s.res.Ok? ==> s.res.value in s.st.heap && s.st.heap[s.res.value].attached
    ensures s.res.Ok? && id.Some? ==> s.st.heap[s.res.value].id == id.value
  {
    if id.None? && name.None? then Step(Err(MissingIdentifier), st)
    else
      var s1 := if id.Some? then Step(Ok(id.value), st) else NameToId(st, name.value);
      if s1.res.Err? then Fail(s1)
      else
        var i := s1.res.value;
        if i in s1.st.cache then Step(Ok(s1.st.cache[i]), s1.st)
        else
          var s2 := if name.Some? then Step(Ok(name.value), s1.st) else IdToName(s1.st, i);
          if s2.res.Err? then Fail(s2)
          else Alloc(s2.st, i, s2.res.value)
  }

  /**
   `PTS.getEntry`: an entry object is returned as it is if it belongs to this connection
   (one of another connection, or one detached by `expire`, raises); a name or an id goes
   through `PTEntry.__new__`.
   */
  function GetEntry(st: State, ident: Ident): (s: Step<Ref>)
    requires Sound(st)
    ensures Sound(s.st) && Keeps(st, s.st)
    ensures s.res.Ok? ==> s.res.value in s.st.heap && s.st.heap[s.res.value].attached
    ensures s.res.Ok? && ident.ById? ==> s.st.heap[s.res.value].id == ident.id
    ensures s.res.Ok? && ident.ByRef? ==> s.res.value == ident.ref && s.st == st
  {
    match ident
    case ByRef(r) =>
      if r in st.heap && st.heap[r].attached then Step(Ok(r), st) else Step(Err(ForeignEntry), st)
    case ByName(n) => NewEntry(st, None, Some(n))
    case ById(i) => NewEntry(st, Some(i), None)
  }

  // ---------------------------------------------------------------- invariants

  /** The ids of the entries in `s`. */
  function IdsOf(st: State, s: set<Ref>): set<int>
  {
    set x | x in s && x in st.heap :: st.heap[x].id
  }

  lemma IdsOfAdd(st: State, s: set<Ref>, x: Ref)
    requires x in st.heap
    ensures IdsOf(st, s + {x}) == IdsOf(st, s) + {st.heap[x].id}
  {
  }

  lemma IdsOfHas(st: State, s: set<Ref>, x: Ref)
    ensures x in s && x in st.heap ==> st.heap[x].id in IdsOf(st, s)
  {
  }

  lemma IdsOfKept(st: State, st2: State, s: set<Ref>)
    requires s <= st.heap.Keys
    requires forall x :: x in s ==> x in st2.heap && st2.heap[x].id == st.heap[x].id
    ensures IdsOf(st2, s) == IdsOf(st, s)
  {
  }

  /** The loaded view of an entry, empty when unloaded. */
  function ElemsOf(e: Entry): set<Ref>
  {
    if e.view.Loaded? then e.view.elems else {}
  }

  /**
   The identity map: every attached entry is the cached entry of its id, has the view its
   id's sign calls for, and a loaded view of it holds attached entries only.
   */
  predicate WF(st: State)
  {
    Sound(st) && AllCached(st) && KindsMatch(st) && ViewsAttached(st)
  }

  predicate AllCached(st: State)
  {
    forall r :: r in st.heap && st.heap[r].attached ==> st.heap[r].id in st.cache && st.cache[st.heap[r].id] == r
  }

  predicate KindsMatch(st: State)
  {
    forall r :: r in st.heap && st.heap[r].attached ==> st.heap[r].kind == KindFor(st.heap[r].id)
  }

  predicate ViewsAttached(st: State)
  {
    forall r, x :: r in st.heap && st.heap[r].attached && x in ElemsOf(st.heap[r]) ==> x in st.heap && st.heap[x].attached
  }

  /** Entries with the same ids, kinds and connections, and the same cache: only views may differ. */
  predicate SameShape(st: State, st2: State)
  {
    && st2.cache == st.cache && st2.next == st.next && st2.heap.Keys == st.heap.Keys
    && (forall r :: r in st.heap ==>
          st2.heap[r].id == st.heap[r].id && st2.heap[r].attached == st.heap[r].attached
          && st2.heap[r].kind == st.heap[r].kind)
  }

  lemma SameShapeKeeps(st: State, st2: State)
    requires SameShape(st, st2) && Sound(st) && AllCached(st) && KindsMatch(st)
    ensures Sound(st2) && AllCached(st2) && KindsMatch(st2)
  {
  }

  /**
   The cache agrees with the server: the server is well formed, every cached id exists
   there, and every loaded view of an attached entry holds exactly the entries the server
   relates to it.
   */
  predicate Synced(st: State)
  {
    && DbWF(st.db)
    && (forall i :: i in st.cache ==> i in st.db.names)
    && (forall r :: r in st.heap && st.heap[r].attached && st.heap[r].view.Loaded? ==>
          IdsOf(st, st.heap[r].view.elems) == Related(st.db, st.heap[r].id))
  }

  /** Two attached entries with the same id are the same object. */
  lemma Identity(st: State, a: Ref, b: Ref)
    requires WF(st) && a in st.heap && b in st.heap && st.heap[a].attached && st.heap[b].attached
    ensures st.heap[a].id == st.heap[b].id <==> a == b
  {
  }

  /** In a loaded view of attached entries, an attached entry is present iff its id is. */
  lemma InViewIffIdListed(st: State, r: Ref, x: Ref)
    requires WF(st) && r in st.heap && st.heap[r].attached && st.heap[r].view.Loaded?
    requires x in st.heap && st.heap[x].attached
    ensures x in st.heap[r].view.elems <==> st.heap[x].id in IdsOf(st, st.heap[r].view.elems)
  {
    var s := st.heap[r].view.elems;
    if st.heap[x].id in IdsOf(st, s) {
      var y :| y in s && y in st.heap && st.heap[y].id == st.heap[x].id;
      assert y in ElemsOf(st.heap[r]);
      Identity(st, x, y);
    }
  }

  /**
   `st2` only adds new attached, cached, unloaded entries to `st` (and cache slots for them,
   for ids the server knows).
   */
  predicate Grown(st: State, st2: State)
  {
    && Keeps(st, st2) && Sound(st2)
    && (forall r :: r in st2.heap && r !in st.heap ==>
          && st2.heap[r].attached && st2.heap[r].view == Unloaded
          && st2.heap[r].kind == KindFor(st2.heap[r].id)
          && st2.heap[r].id in st2.cache && st2.cache[st2.heap[r].id] == r)
    && (forall i :: i in st2.cache && i !in st.cache ==> i in st.db.names)
  }

  lemma GrownTrans(a: State, b: State, c: State)
    requires Grown(a, b) && Grown(b, c)
    ensures Grown(a, c)
  {
    KeepsTrans(a, b, c);
  }

  lemma GrownKeepsWF(st: State, st2: State)
    requires WF(st) && Grown(st, st2)
    ensures WF(st2)
  {
  }

  lemma GrownKeepsSynced(st: State, st2: State)
    requires WF(st) && Synced(st) && Grown(st, st2)
    ensures Synced(st2)
  {
    forall r | r in st2.heap && st2.heap[r].attached && st2.heap[r].view.Loaded?
      ensures IdsOf(st2, st2.heap[r].view.elems) == Related(st2.db, st2.heap[r].id)
    {
      assert r in st.heap;
      var s := st.heap[r].view.elems;
      assert forall x :: x in s ==> x in ElemsOf(st.heap[r]);
      IdsOfKept(st, st2, s);
    }
  }

  lemma GrownKeepsInvariants(st: State, st2: State)
    requires WF(st) && Synced(st) && Grown(st, st2)
    ensures WF(st2) && Synced(st2)
  {
    GrownKeepsWF(st, st2);
    GrownKeepsSynced(st, st2);
  }

  /** An RPC that does not change the server only grows the log. */
  lemma IssueGrown(st: State, call: Rpc)
    requires Sound(st)
    ensures Grown(st, Issue(st, call))
  {
  }

  /** `getEntry` only adds entries: whatever it returns, the invariants survive. */
  lemma GetEntryGrown(st: State, ident: Ident)
    requires Sound(st) && DbWF(st.db)
    ensures Grown(st, GetEntry(st, ident).st)
  {
  }

  lemma GetEntryKeepsInvariants(st: State, ident: Ident)
    requires WF(st) && Synced(st)
    ensures WF(GetEntry(st, ident).st) && Synced(GetEntry(st, ident).st)
  {
    GetEntryGrown(st, ident);
    GrownKeepsWF(st, GetEntry(st, ident).st);
    GrownKeepsSynced(st, GetEntry(st, ident).st);
  }

  /** A cached id is answered from the cache: the same object, no RPC, nothing changes. */
  lemma GetEntryHit(st: State, id: int)
    requires Sound(st) && id in st.cache
    ensures GetEntry(st, ById(id)) == Step(Ok(st.cache[id]), st)
  {
  }

  /**
   An uncached id costs one `_IdToName`; on success a new entry is created with the
   server's name, a `members` view for a negative id and a `groups` view otherwise, and it
   takes the id's cache slot. On failure no entry is created.
   */
  lemma GetEntryMiss(st: State, id: int)
    requires Sound(st) && id !in st.cache
    ensures var s := GetEntry(st, ById(id));
      && s.st.log == st.log + [IdToNameCall(id)]
      && (s.res.Ok? <==> IdToNameCall(id) !in st.refused && id in st.db.names)
      && (s.res.Ok? ==>
            && s.res.value == st.next && st.next !in st.heap
            && s.st.heap == st.heap[st.next := Entry(id, st.db.names[id], true, KindFor(id), Unloaded, NoAttrs)]
            && s.st.cache == st.cache[id := st.next])
      && (s.res.Err? ==> s.st.heap == st.heap && s.st.cache == st.cache)
  {
  }

  /**
   A name is always resolved by `_NameToId` first; the entry returned carries the id the
   server gave, is the cached one if that id is cached, and otherwise keeps the given name
   without an `_IdToName`.
   */
  lemma GetEntryByName(st: State, name: string)
    requires Sound(st)
    ensures var s := GetEntry(st, ByName(name));
      && s.st.log == st.log + [NameToIdCall(name)]
      && (s.res.Ok? <==> NameToIdCall(name) !in st.refused && name in st.db.ids)
      && (s.res.Ok? ==> s.st.heap[s.res.value].id == st.db.ids[name])
      && (s.res.Ok? && st.db.ids[name] in st.cache ==> s == Step(Ok(st.cache[st.db.ids[name]]), Issue(st, NameToIdCall(name))))
      && (s.res.Ok? && st.db.ids[name] !in st.cache ==> s.st.heap[s.res.value].name == name)
  {
  }

  /** Asking twice for the same id yields the same object, the second time without an RPC. */
  lemma GetEntryTwice(st: State, id: int)
    requires Sound(st)
    ensures var s := GetEntry(st, ById(id));
      s.res.Ok? ==> GetEntry(s.st, ById(id)) == Step(Ok(s.res.value), s.st)
  {
  }

  /** An entry object of this connection comes back as itself. */
  lemma GetEntryOfEntry(st: State, r: Ref)
    requires Sound(st) && r in st.heap && st.heap[r].attached
    ensures GetEntry(st, ByRef(r)) == Step(Ok(r), st)
  {
  }

  /** `PTS.expire`: every cached entry loses its connection and the cache is emptied. */
  function Expire(st: State): (s: State)
    requires Sound(st)
    ensures Sound(s)
  {
    st.(heap := map r | r in st.heap :: if r in st.cache.Values then st.heap[r].(attached := false) else st.heap[r],
        cache := map[])
  }

  /**
   After `expire` the cache is empty and every entry is detached; ids, names, views and
   attributes are kept, and no RPC is issued.
   */
  lemma ExpireDetachesAll(st: State)
    requires WF(st)
    ensures var s := Expire(st);
      && s.cache == map[] && s.heap.Keys == st.heap.Keys
      && (forall r :: r in s.heap ==> s.heap[r] == st.heap[r].(attached := false))
      && s.db == st.db && s.log == st.log && s.next == st.next
  {
    var s := Expire(st);
    forall r | r in s.heap ensures s.heap[r] == st.heap[r].(attached := false) {
      if st.heap[r].attached {
        assert st.cache[st.heap[r].id] == r;
      }
    }
  }

  /** A detached entry is refused by `getEntry`, and asking for an id builds a new object. */
  lemma ExpireThenGetEntry(st: State, r: Ref, id: int)
    requires WF(st) && r in st.heap
    ensures GetEntry(Expire(st), ByRef(r)).res == Err(ForeignEntry)
    ensures var s := GetEntry(Expire(st), ById(id)); s.res.Ok? ==> s.res.value !in st.heap
  {
    ExpireDetachesAll(st);
  }

  lemma ExpireKeepsInvariants(st: State)
    requires WF(st) && Synced(st)
    ensures WF(Expire(st)) && Synced(Expire(st))
  {
    ExpireDetachesAll(st);
  }
}
