/**
 The protection server as the client sees it: an id/name directory, a per-id entry
 record and a set of (user id, group id) membership pairs. afs/pts.py only reaches
 it through RPC primitives; each primitive is modelled here as an operation on this
 value that either succeeds or fails.

 Users have positive ids and groups negative ids; 0 is not a valid id. The server is
 assumed to refuse an id change that reuses an id in use, turns a user into a group or
 back, or targets 0.
 */
module PtsRemote {
  import opened Base

  /** The per-entry record `_ListEntry` returns besides the id and the name. */
  datatype Info = Info(count: int, flags: int, ngroups: int, nusers: int, owner: int, creator: int)

  /** The three fields `_SetFields` can write: `access=`, `groups=` and `users=`. */
  datatype Field = Access | Groups | Users

  datatype Db = Db(
    names: map<int, string>,  // id to name
    ids: map<string, int>,    // name to id
    info: map<int, Info>,
    edges: set<(int, int)>    // (user id, group id): the user is a member of the group
  )

  /** Every RPC the cache issues, with its arguments. */
  datatype Rpc =
    | NameToIdCall(name: string)
    | IdToNameCall(id: int)
    | ListEntryCall(id: int)
    | ListMembersCall(id: int)
    | IsAMemberOfCall(user: int, group: int)
    | AddToGroupCall(user: int, group: int)
    | RemoveFromGroupCall(user: int, group: int)
    | ChangeIdCall(id: int, newId: int)
    | ChangeNameCall(id: int, newName: string)
    | SetFieldsCall(id: int, field: Field, value: int)

  /** The server state every operation keeps. */
  predicate DbWF(db: Db)
  {
    && 0 !in db.names
    && db.info.Keys == db.names.Keys
    && (forall i :: i in db.names ==> db.names[i] in db.ids && db.ids[db.names[i]] == i)
    && (forall n :: n in db.ids ==> db.ids[n] in db.names && db.names[db.ids[n]] == n)
    && (forall e :: e in db.edges ==> e.0 > 0 && e.1 < 0 && e.0 in db.names && e.1 in db.names)
  }

  /**
   What `_ListMembers(id)` returns: for a group (negative id) its member users, for
   anything else the groups it belongs to.
   */
  function Related(db: Db, id: int): (r: set<int>)
    ensures forall x :: x in r <==> (if id < 0 then (x, id) in db.edges else (id, x) in db.edges)
  {
    if id < 0 then (set e | e in db.edges && e.1 == id :: e.0)
    else (set e | e in db.edges && e.0 == id :: e.1)
  }

  function DbNameToId(db: Db, name: string): Option<int>
  {
    if name in db.ids then Some(db.ids[name]) else None
  }

  function DbIdToName(db: Db, id: int): Option<string>
  {
    if id in db.names then Some(db.names[id]) else None
  }

  /** `_ListEntry(id)`: the entry's current name and record. */
  function DbListEntry(db: Db, id: int): Option<(string, Info)>
  {
    if id in db.names && id in db.info then Some((db.names[id], db.info[id])) else None
  }

  function DbListMembers(db: Db, id: int): Option<set<int>>
  {
    if id in db.names then Some(Related(db, id)) else None
  }

  function DbIsAMemberOf(db: Db, user: int, group: int): Option<bool>
  {
    if user in db.names && group in db.names then Some((user, group) in db.edges) else None
  }

  function DbAddToGroup(db: Db, user: int, group: int): (r: Option<Db>)
    ensures r.Some? ==> r.value.edges == db.edges + {(user, group)}
    ensures r.Some? ==> r.value.names == db.names && r.value.ids == db.ids && r.value.info == db.info
  {
    if user in db.names && group in db.names then Some(db.(edges := db.edges + {(user, group)})) else None
  }

  function DbRemoveFromGroup(db: Db, user: int, group: int): (r: Option<Db>)
    ensures r.Some? ==> r.value.edges == db.edges - {(user, group)}
    ensures r.Some? ==> r.value.names == db.names && r.value.ids == db.ids && r.value.info == db.info
  {
    if user in db.names && group in db.names then Some(db.(edges := db.edges - {(user, group)})) else None
  }

  /** `id` renamed to `newId`, every other id unchanged. */
  function Renamed(x: int, id: int, newId: int): int
  {
    if x == id then newId else x
  }

  function DbChangeId(db: Db, id: int, newId: int): (r: Option<Db>)
    ensures r.Some? ==> id in db.names && newId != 0 && (newId < 0 <==> id < 0)
    ensures r.Some? ==> newId == id || newId !in db.names
  {
    if id !in db.names || id !in db.info || newId == 0 || (newId < 0) != (id < 0) || (newId != id && newId in db.names) then None
    else
      var name := db.names[id];
      Some(Db(
        (map x | x in db.names && x != id :: db.names[x])[newId := name],
        db.ids[name := newId],
        (map x | x in db.info && x != id :: db.info[x])[newId := db.info[id]],
        set e | e in db.edges :: (Renamed(e.0, id, newId), Renamed(e.1, id, newId))))
  }

  function DbChangeName(db: Db, id: int, newName: string): (r: Option<Db>)
    ensures r.Some? ==> r.value.edges == db.edges && r.value.info == db.info
    ensures r.Some? ==> r.value.names == db.names[id := newName]
  {
    if id !in db.names || (newName in db.ids && db.ids[newName] != id) then None
    else
      var prev := db.names[id];
      Some(db.(names := db.names[id := newName],
               ids := (map n | n in db.ids && n != prev :: db.ids[n])[newName := id]))
  }

  function SetInfoField(i: Info, field: Field, value: int): Info
  {
    match field
    case Access => i.(flags := value)
    case Groups => i.(ngroups := value)
    case Users => i.(nusers := value)
  }

  function DbSetFields(db: Db, id: int, field: Field, value: int): (r: Option<Db>)
    ensures r.Some? ==> r.value.edges == db.edges && r.value.names == db.names && r.value.ids == db.ids
  {
    if id in db.info then Some(db.(info := db.info[id := SetInfoField(db.info[id], field, value)])) else None
  }

  /** Adding a (user, group) pair with a positive user and a negative group keeps the server well formed. */
  lemma AddToGroupKeepsDbWF(db: Db, user: int, group: int)
    requires DbWF(db) && user > 0 && group < 0
    requires DbAddToGroup(db, user, group).Some?
    ensures DbWF(DbAddToGroup(db, user, group).value)
  {
  }

  /** Without the client's kind check the server state could gain a group-in-group pair. */
  lemma AddToGroupUnchecked(db: Db, user: int, group: int)
    requires DbWF(db) && user < 0 && group < 0
    requires DbAddToGroup(db, user, group).Some?
    ensures !DbWF(DbAddToGroup(db, user, group).value)
  {
    assert (user, group) in DbAddToGroup(db, user, group).value.edges;
  }

  lemma RemoveFromGroupKeepsDbWF(db: Db, user: int, group: int)
    requires DbWF(db) && DbRemoveFromGroup(db, user, group).Some?
    ensures DbWF(DbRemoveFromGroup(db, user, group).value)
  {
  }

  lemma SetFieldsKeepsDbWF(db: Db, id: int, field: Field, value: int)
    requires DbWF(db) && DbSetFields(db, id, field, value).Some?
    ensures DbWF(DbSetFields(db, id, field, value).value)
  {
  }

  /** An accepted id change keeps the server well formed: the new id has the old one's sign and was free. */
  lemma ChangeIdKeepsDbWF(db: Db, id: int, newId: int)
    requires DbWF(db) && DbChangeId(db, id, newId).Some?
    ensures DbWF(DbChangeId(db, id, newId).value)
  {
    var d := DbChangeId(db, id, newId).value;
    var name := db.names[id];
    forall i | i in d.names ensures d.names[i] in d.ids && d.ids[d.names[i]] == i {
      if i != newId {
        assert db.ids[db.names[i]] == i;
      }
    }
    forall n | n in d.ids ensures d.ids[n] in d.names && d.names[d.ids[n]] == n {
      if n != name {
        assert db.names[db.ids[n]] == n;
      }
    }
    forall e | e in d.edges ensures e.0 > 0 && e.1 < 0 && e.0 in d.names && e.1 in d.names {
      var e0 :| e0 in db.edges && e == (Renamed(e0.0, id, newId), Renamed(e0.1, id, newId));
    }
  }

  /** An accepted rename keeps the server well formed: the new name was free or already this entry's. */
  lemma ChangeNameKeepsDbWF(db: Db, id: int, newName: string)
    requires DbWF(db) && DbChangeName(db, id, newName).Some?
    ensures DbWF(DbChangeName(db, id, newName).value)
  {
    var d := DbChangeName(db, id, newName).value;
    var prev := db.names[id];
    forall i | i in d.names ensures d.names[i] in d.ids && d.ids[d.names[i]] == i {
      if i != id {
        assert db.ids[db.names[i]] == i;
      }
    }
    forall n | n in d.ids ensures d.ids[n] in d.names && d.names[d.ids[n]] == n {
      if n != newName {
        assert db.names[db.ids[n]] == n;
      }
    }
  }

  /**
   After an accepted id change, what the server relates to an entry is what it related
   before, with the old id replaced by the new one, seen from the entry's own new id.
   */
  lemma RelatedRenamed(db: Db, id: int, newId: int, x: int)
    requires DbWF(db) && DbChangeId(db, id, newId).Some? && x in db.names
    ensures Related(DbChangeId(db, id, newId).value, Renamed(x, id, newId))
      == set y | y in Related(db, x) :: Renamed(y, id, newId)
  {
    var d := DbChangeId(db, id, newId).value;
    var x2 := Renamed(x, id, newId);
    forall y | y in Related(d, x2) ensures y in set z | z in Related(db, x) :: Renamed(z, id, newId) {
      var e := if x2 < 0 then (y, x2) else (x2, y);
      var e0 :| e0 in db.edges && e == (Renamed(e0.0, id, newId), Renamed(e0.1, id, newId));
      RenamedInjective(db, id, newId, x, if x2 < 0 then e0.1 else e0.0);
      assert (if x < 0 then e0.0 else e0.1) in Related(db, x);
    }
    forall y | y in Related(db, x) ensures Renamed(y, id, newId) in Related(d, x2) {
      var e0 := if x < 0 then (y, x) else (x, y);
      assert (Renamed(e0.0, id, newId), Renamed(e0.1, id, newId)) in d.edges;
    }
  }

  /** Renaming is one-to-one on the ids in use. */
  lemma RenamedInjective(db: Db, id: int, newId: int, a: int, b: int)
    requires DbChangeId(db, id, newId).Some? && a in db.names && b in db.names
    ensures Renamed(a, id, newId) == Renamed(b, id, newId) <==> a == b
  {
  }
}
