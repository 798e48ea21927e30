/**
 `PTRelationSet` of afs/pts.py: the `members` view of a group or the `groups` view of a
 user, a write-through set over the server's membership pairs. Membership is checked
 without loading the view; `add`, `discard` and `remove` change the server first and then
 the loaded views on both sides.
 */
module PtsRelations {
  import opened Base
  import opened PtsRemote
  import opened PtsCache

  /** `_add`/`_discard` of the view of `owner`: only a loaded view changes. */
  function Mirror(st: State, owner: Ref, elt: Ref, adding: bool): (st2: State)
    requires owner in st.heap
    ensures st2.heap.Keys == st.heap.Keys && st2.cache == st.cache && st2.next == st.next
    ensures forall r :: r in st.heap ==> st2.heap[r].id == st.heap[r].id && st2.heap[r].attached == st.heap[r].attached
    ensures ViewsOnly(st, st2)
  {
    var e := st.heap[owner];
    st.(heap := st.heap[owner := e.(view := Toggle(e.view, elt, adding))])
  }

  /**
   Every entry of `st` is still there with its id and connection, and an unloaded view
   has stayed unloaded.
   */
  predicate ViewsOnly(st: State, st2: State)
  {
    forall r :: r in st.heap ==>
      && r in st2.heap && st2.heap[r].id == st.heap[r].id && st2.heap[r].attached == st.heap[r].attached
      && (st.heap[r].view.Unloaded? ==> st2.heap[r].view.Unloaded?)
  }

  /** A view with `elt` added or removed; an unloaded view stays unloaded. */
  function Toggle(v: View, elt: Ref, adding: bool): View
  {
    match v
    case Unloaded => Unloaded
    case Loaded(s) => Loaded(if adding then s + {elt} else s - {elt})
  }

  /** The (user, group) pair relating the owner of a view to another entry. */
  function Pair(ownerId: int, otherId: int): (int, int)
  {
    if ownerId < 0 then (otherId, ownerId) else (ownerId, otherId)
  }

  /** The kind of view the other side of a pair must have: `groups` for a user of a group. */
  function OtherKind(ownerId: int): Kind
  {
    if ownerId < 0 then GroupsView else MembersView
  }

  /**
   `PTRelationSet.__contains__` on the view of `o`: a loaded view answers from the set,
   an unloaded one asks `_IsAMemberOf` with the user first and the group second; the set
   is never loaded here.
   */
  function Contains(st: State, o: Ref, ident: Ident): (s: Step<bool>)
    requires Sound(st) && o in st.heap
    ensures Sound(s.st) && Keeps(st, s.st)
  {
    if !st.heap[o].attached then Step(Err(Detached), st)
    else
      var g := GetEntry(st, ident);
      if g.res.Err? then Fail(g)
      else
        var x := g.res.value;
        var e := g.st.heap[o];
        if e.view.Loaded? then Step(Ok(x in e.view.elems), g.st)
        else
          var p := Pair(e.id, g.st.heap[x].id);
          IsAMemberOf(g.st, p.0, p.1)
  }

  /**
   `PTRelationSet.add`: nothing happens for a present element; a group added to a group
   or a user added to a user raises TypeError; otherwise `_AddToGroup`, then the element's
   own view and this view record the pair if they are loaded.
   */
  function Add(st: State, o: Ref, ident: Ident): (s: Step<()>)
    requires Sound(st) && o in st.heap
    ensures Sound(s.st)
  {
    if !st.heap[o].attached then Step(Err(Detached), st)
    else
      var g := GetEntry(st, ident);
      if g.res.Err? then Fail(g)
      else AddFound(g.st, o, g.res.value)
  }

  /** `add` once the element is an entry: the membership test, then `Link` if it is absent. */
  function AddFound(st: State, o: Ref, x: Ref): (s: Step<()>)
    requires Sound(st) && o in st.heap && x in st.heap && st.heap[x].attached
    ensures Sound(s.st)
  {
    var c := Contains(st, o, ByRef(x));
    if c.res.Err? then Fail(c)
    else if c.res.value then Step(Ok(()), c.st)
    else Link(c.st, o, x)
  }

  /** The part of `add` after the membership test found the element absent. */
  function Link(st: State, o: Ref, x: Ref): (s: Step<()>)
    requires Sound(st) && o in st.heap && x in st.heap
    ensures Sound(s.st)
    ensures ViewsOnly(st, s.st)
  {
    var e := st.heap[o];
    var ex := st.heap[x];
    if e.id < 0 && ex.id < 0 then Step(Err(GroupIntoGroup), st)
    else if e.id >= 0 && ex.id > 0 then Step(Err(UserIntoUser), st)
    else
      var p := Pair(e.id, ex.id);
      var u := AddToGroup(st, p.0, p.1);
      if u.res.Err? then Fail(u)
      else if ex.kind != OtherKind(e.id) then Step(Err(MissingView), u.st)
      else Step(Ok(()), Mirror(Mirror(u.st, x, o, true), o, x, true))
  }

  /**
   `PTRelationSet.discard`: nothing happens for an absent element; otherwise
   `_RemoveFromGroup`, then both views forget the pair if they are loaded.
   */
  function Discard(st: State, o: Ref, ident: Ident): (s: Step<()>)
    requires Sound(st) && o in st.heap
    ensures Sound(s.st)
  {
    if !st.heap[o].attached then Step(Err(Detached), st)
    else
      var g := GetEntry(st, ident);
      if g.res.Err? then Fail(g)
      else DiscardFound(g.st, o, g.res.value)
  }

  /** `discard` once the element is an entry: the membership test, then `Unlink` if it is present. */
  function DiscardFound(st: State, o: Ref, x: Ref): (s: Step<()>)
    requires Sound(st) && o in st.heap && x in st.heap && st.heap[x].attached
    ensures Sound(s.st)
  {
    var c := Contains(st, o, ByRef(x));
    if c.res.Err? then Fail(c)
    else if !c.res.value then Step(Ok(()), c.st)
    else Unlink(c.st, o, x)
  }

  /** The part of `discard` after the membership test found the element present. */
  function Unlink(st: State, o: Ref, x: Ref): (s: Step<()>)
    requires Sound(st) && o in st.heap && x in st.heap
    ensures Sound(s.st)
    ensures ViewsOnly(st, s.st)
  {
    var e := st.heap[o];
    var ex := st.heap[x];
    var p := Pair(e.id, ex.id);
    var u := RemoveFromGroup(st, p.0, p.1);
    if u.res.Err? then Fail(u)
    else if ex.kind != OtherKind(e.id) then Step(Err(MissingView), u.st)
    else Step(Ok(()), Mirror(Mirror(u.st, x, o, false), o, x, false))
  }

  /** `PTRelationSet.remove`: KeyError for an absent element, otherwise `discard`. */
  function Remove(st: State, o: Ref, ident: Ident): (s: Step<()>)
    requires Sound(st) && o in st.heap
    ensures Sound(s.st)
  {
    var c := Contains(st, o, ident);
    if c.res.Err? then Fail(c)
    else if !c.res.value then Step(Err(NotAMember), c.st)
    else Discard(c.st, o, ident)
  }

  /** `order` lists each element of `ids` exactly once. */
  predicate Enumerates(order: seq<int>, ids: set<int>)
  {
    && (forall k :: 0 <= k < |order| ==> order[k] in ids)
    && (forall x :: x in ids ==> x in order)
    && (forall j, k :: 0 <= j < k < |order| ==> order[j] != order[k])
  }

  /** The ids among the first `n` of `order`. */
  function Listed(order: seq<int>, n: nat): set<int>
    requires n <= |order|
  {
    set k | 0 <= k < n :: order[k]
  }

  lemma ListedStep(order: seq<int>, n: nat)
    requires n < |order|
    requires forall j, k :: 0 <= j < k < |order| ==> order[j] != order[k]
    ensures Listed(order, n + 1) == Listed(order, n) + {order[n]}
    ensures order[n] !in Listed(order, n)
  {
  }

  lemma ListedAll(order: seq<int>, ids: set<int>)
    requires Enumerates(order, ids)
    ensures Listed(order, |order|) == ids
  {
    forall x | x in ids ensures x in Listed(order, |order|) {
      var k :| 0 <= k < |order| && order[k] == x;
    }
  }

  /**
   The comprehension of `_loadSet`: `getEntry` of every id, in the order the server
   listed them, stopping at the first failure. The entries found carry exactly the
   given ids, one entry per id.
   */
  method Resolve(st: State, order: seq<int>) returns (s: Step<set<Ref>>)
    requires Sound(st)
    requires forall j, k :: 0 <= j < k < |order| ==> order[j] != order[k]
    ensures Sound(s.st) && Keeps(st, s.st)
    ensures s.res.Ok? ==> s.res.value <= s.st.heap.Keys
    ensures s.res.Ok? ==> IdsOf(s.st, s.res.value) == Listed(order, |order|)
    ensures s.res.Ok? ==> |s.res.value| == |Listed(order, |order|)|
    ensures s.res.Ok? ==> forall x :: x in s.res.value ==> s.st.heap[x].attached
    ensures DbWF(st.db) ==> Grown(st, s.st)
  {
    var cur := st;
    var acc: set<Ref> := {};
    for n := 0 to |order|
      invariant Sound(cur) && Keeps(st, cur)
      invariant acc <= cur.heap.Keys
      invariant IdsOf(cur, acc) == Listed(order, n)
      invariant |acc| == |Listed(order, n)|
      invariant forall x :: x in acc ==> cur.heap[x].attached
      invariant DbWF(st.db) ==> Grown(st, cur)
    {
      var g := GetEntry(cur, ById(order[n]));
      KeepsTrans(st, cur, g.st);
      if DbWF(st.db) {
        GetEntryGrown(cur, ById(order[n]));
        GrownTrans(st, cur, g.st);
      }
      if g.res.Err? {
        return Fail(g);
      }
      ResolveStep(cur, g.st, acc, g.res.value, order, n);
      acc := acc + {g.res.value};
      cur := g.st;
    }
    return Step(Ok(acc), cur);
  }

  /** One lookup of `Resolve`: the new entry carries the next id, so it is not among those found before. */
  lemma ResolveStep(cur: State, next: State, acc: set<Ref>, x: Ref, order: seq<int>, n: nat)
    requires n < |order|
    requires forall j, k :: 0 <= j < k < |order| ==> order[j] != order[k]
    requires acc <= cur.heap.Keys
    requires forall r :: r in cur.heap ==> r in next.heap && next.heap[r] == cur.heap[r]
    requires x in next.heap && next.heap[x].id == order[n]
    requires IdsOf(cur, acc) == Listed(order, n) && |acc| == |Listed(order, n)|
    ensures acc + {x} <= next.heap.Keys
    ensures IdsOf(next, acc + {x}) == Listed(order, n + 1)
    ensures |acc + {x}| == |Listed(order, n + 1)|
  {
    ListedStep(order, n);
    IdsOfKept(cur, next, acc);
    IdsOfAdd(next, acc, x);
    IdsOfHas(next, acc, x);
    CountStep(acc, x, Listed(order, n), order[n]);
  }

  lemma CountStep<T, U>(a: set<T>, x: T, b: set<U>, y: U)
    requires x !in a && y !in b && |a| == |b|
    ensures |a + {x}| == |b + {y}|
  {
  }

  /**
   `PTRelationSet._loadSet`: an unloaded view of an attached entry asks `_ListMembers`
   and fills itself with `getEntry` of every id returned, in the server's `order`. If one
   lookup fails the view stays unloaded, but the entries created before it stay cached.
   */
  method LoadSet(st: State, o: Ref, order: seq<int>) returns (s: Step<()>)
    requires Sound(st) && o in st.heap
    requires Enumerates(order, Related(st.db, st.heap[o].id))
    ensures Sound(s.st) && o in s.st.heap
    ensures st.heap[o].view.Loaded? ==> s == Step(Ok(()), st)
    ensures s.res.Ok? ==> s.st.heap[o].view.Loaded?
    ensures s.res.Ok? && st.heap[o].view.Unloaded? ==>
      && s.st.heap[o] == st.heap[o].(view := s.st.heap[o].view)
      && IdsOf(s.st, s.st.heap[o].view.elems) == Related(st.db, st.heap[o].id)
      && |s.st.heap[o].view.elems| == |Related(st.db, st.heap[o].id)|
      && s.st.db == st.db
    ensures WF(st) && Synced(st) ==> WF(s.st) && Synced(s.st)
  {
    if st.heap[o].view.Loaded? {
      return Step(Ok(()), st);
    }
    if !st.heap[o].attached {
      return Step(Err(Detached), st);
    }
    var q := ListMembers(st, st.heap[o].id);
    IssueGrown(st, ListMembersCall(st.heap[o].id));
    if q.res.Err? {
      if WF(st) && Synced(st) {
        GrownKeepsInvariants(st, q.st);
      }
      return Fail(q);
    }
    var g := Resolve(q.st, order);
    ListedAll(order, q.res.value);
    if WF(st) && Synced(st) {
      GrownTrans(st, q.st, g.st);
    }
    if g.res.Err? {
      if WF(st) && Synced(st) {
        GrownKeepsInvariants(st, g.st);
      }
      return Fail(g);
    }
    var acc := g.res.value;
    s := Step(Ok(()), Fill(g.st, o, acc));
    IdsOfKept(g.st, s.st, acc);
    if WF(st) && Synced(st) {
      LoadKeepsInvariants(st, g.st, o, acc);
    }
  }

  lemma LoadKeepsInvariants(st: State, st2: State, o: Ref, acc: set<Ref>)
    requires WF(st) && Synced(st) && Grown(st, st2) && o in st.heap
    requires acc <= st2.heap.Keys && forall x :: x in acc ==> st2.heap[x].attached
    requires IdsOf(st2, acc) == Related(st.db, st.heap[o].id)
    ensures WF(Fill(st2, o, acc)) && Synced(Fill(st2, o, acc))
  {
    GrownKeepsInvariants(st, st2);
    FillKeepsWF(st2, o, acc);
    FillKeepsSynced(st2, o, acc);
  }

  /** The view of `o` loaded with `elems`. */
  function Fill(st: State, o: Ref, elems: set<Ref>): State
    requires o in st.heap
  {
    st.(heap := st.heap[o := st.heap[o].(view := Loaded(elems))])
  }

  lemma FillKeepsWF(st: State, o: Ref, acc: set<Ref>)
    requires WF(st) && o in st.heap
    requires acc <= st.heap.Keys && forall x :: x in acc ==> st.heap[x].attached
    ensures WF(Fill(st, o, acc))
  {
  }

  /** Loading a view with entries carrying exactly the related ids keeps the cache in step with the server. */
  lemma FillKeepsSynced(st: State, o: Ref, acc: set<Ref>)
    requires WF(st) && Synced(st) && o in st.heap
    requires acc <= st.heap.Keys
    requires IdsOf(st, acc) == Related(st.db, st.heap[o].id)
    ensures Synced(Fill(st, o, acc))
  {
    var s := Fill(st, o, acc);
    IdsOfKept(st, s, acc);
    forall r | r in s.heap && s.heap[r].attached && s.heap[r].view.Loaded?
      ensures IdsOf(s, s.heap[r].view.elems) == Related(s.db, s.heap[r].id)
    {
      if r != o {
        var v := st.heap[r].view.elems;
        assert forall x :: x in v ==> x in ElemsOf(st.heap[r]);
        IdsOfKept(st, s, v);
      }
    }
  }

  /** `PTRelationSet.__len__`: load the view, then count it. */
  method Len(st: State, o: Ref, order: seq<int>) returns (s: Step<nat>)
    requires Sound(st) && o in st.heap
    requires Enumerates(order, Related(st.db, st.heap[o].id))
    ensures Sound(s.st)
    ensures st.heap[o].view.Loaded? ==> s == Step(Ok(|st.heap[o].view.elems|), st)
    ensures st.heap[o].view.Unloaded? && s.res.Ok? ==> s.res.value == |Related(st.db, st.heap[o].id)|
  {
    var l := LoadSet(st, o, order);
    if l.res.Err? {
      return Fail(l);
    }
    return Step(Ok(|l.st.heap[o].view.elems|), l.st);
  }


  // ---------------------------------------------------------------- properties

  /** A loaded view answers membership from its set, with no RPC and no change. */
  lemma ContainsLoaded(st: State, o: Ref, x: Ref)
    requires Sound(st) && o in st.heap && st.heap[o].attached && st.heap[o].view.Loaded?
    requires x in st.heap && st.heap[x].attached
    ensures Contains(st, o, ByRef(x)) == Step(Ok(x in st.heap[o].view.elems), st)
  {
  }

  /**
   An unloaded view asks `_IsAMemberOf` once, user first and group second, and stays
   unloaded; the answer is the server's.
   */
  lemma ContainsUnloaded(st: State, o: Ref, x: Ref)
    requires Sound(st) && o in st.heap && st.heap[o].attached && st.heap[o].view.Unloaded?
    requires x in st.heap && st.heap[x].attached
    ensures var p := Pair(st.heap[o].id, st.heap[x].id);
      var s := Contains(st, o, ByRef(x));
      && s.st == Issue(st, IsAMemberOfCall(p.0, p.1))
      && (s.res.Ok? <==> IsAMemberOfCall(p.0, p.1) !in st.refused && p.0 in st.db.names && p.1 in st.db.names)
      && (s.res.Ok? ==> s.res.value == (p in st.db.edges))
  {
  }

  /** `Related` seen from one side: the pair of an entry with the owner of a view. */
  lemma RelatedPair(db: Db, ownerId: int, otherId: int)
    ensures otherId in Related(db, ownerId) <==> Pair(ownerId, otherId) in db.edges
  {
  }

  /**
   Both ways of answering membership agree: whether the view is loaded or not, a
   successful test answers whether the server holds the pair.
   */
  lemma ContainsAgrees(st: State, o: Ref, ident: Ident)
    requires WF(st) && Synced(st) && o in st.heap && st.heap[o].attached
    ensures var s := Contains(st, o, ident);
      s.res.Ok? ==>
        var g := GetEntry(st, ident);
        s.res.value == (Pair(st.heap[o].id, g.st.heap[g.res.value].id) in st.db.edges)
  {
    var g := GetEntry(st, ident);
    GetEntryKeepsInvariants(st, ident);
    if g.res.Ok? && st.heap[o].view.Loaded? {
      var x := g.res.value;
      InViewIffIdListed(g.st, o, x);
      RelatedPair(st.db, st.heap[o].id, g.st.heap[x].id);
    }
  }

  /** `__contains__` adds entries at most; it never loads a view or changes the server. */
  lemma ContainsGrown(st: State, o: Ref, ident: Ident)
    requires Sound(st) && DbWF(st.db) && o in st.heap
    ensures Grown(st, Contains(st, o, ident).st)
  {
    if st.heap[o].attached {
      var g := GetEntry(st, ident);
      GetEntryGrown(st, ident);
      if g.res.Ok? && g.st.heap[o].view.Unloaded? {
        var p := Pair(g.st.heap[o].id, g.st.heap[g.res.value].id);
        assert Contains(st, o, ident).st == Issue(g.st, IsAMemberOfCall(p.0, p.1));
        IssueGrown(g.st, IsAMemberOfCall(p.0, p.1));
        GrownTrans(st, g.st, Issue(g.st, IsAMemberOfCall(p.0, p.1)));
      } else {
        assert Contains(st, o, ident).st == g.st;
      }
    }
  }

  /** How one pair added to or removed from the server changes what it relates to an id. */
  lemma RelatedAfter(db: Db, db2: Db, p: (int, int), id: int, adding: bool)
    requires p.0 > 0 && p.1 < 0
    requires db2.edges == if adding then db.edges + {p} else db.edges - {p}
    ensures id == p.1 ==> Related(db2, id) == (if adding then Related(db, id) + {p.0} else Related(db, id) - {p.0})
    ensures id == p.0 ==> Related(db2, id) == (if adding then Related(db, id) + {p.1} else Related(db, id) - {p.1})
    ensures id != p.0 && id != p.1 ==> Related(db2, id) == Related(db, id)
  {
  }

  /** Removing an attached entry from a set of attached entries removes exactly its id. */
  lemma IdsOfRemove(st: State, s: set<Ref>, x: Ref)
    requires WF(st) && x in st.heap && st.heap[x].attached
    requires forall y :: y in s ==> y in st.heap && st.heap[y].attached
    ensures IdsOf(st, s - {x}) == IdsOf(st, s) - {st.heap[x].id}
  {
    forall y | y in s && y != x ensures st.heap[y].id != st.heap[x].id {
      Identity(st, x, y);
    }
  }

  /** What `add` or `discard` does to the heap: the two views change, nothing else does. */
  lemma MirrorShape(st: State, o: Ref, x: Ref, adding: bool)
    requires o in st.heap && x in st.heap && o != x
    ensures var s := Mirror(Mirror(st, x, o, adding), o, x, adding);
      && s.db == st.db && s.heap.Keys == st.heap.Keys
      && (forall r :: r in st.heap && r != o && r != x ==> s.heap[r] == st.heap[r])
      && s.heap[o] == st.heap[o].(view := Toggle(st.heap[o].view, x, adding))
      && s.heap[x] == st.heap[x].(view := Toggle(st.heap[x].view, o, adding))
  {
  }

  /**
   One side of `add`/`discard`: a loaded view that tracked the server still does after
   the server and the view gained (or lost) the same other entry.
   */
  lemma ToggledViewSynced(st: State, s: State, r: Ref, other: Ref, adding: bool)
    requires WF(st) && r in st.heap && st.heap[r].attached && st.heap[r].view.Loaded?
    requires other in st.heap && st.heap[other].attached
    requires IdsOf(st, st.heap[r].view.elems) == Related(st.db, st.heap[r].id)
    requires forall y :: y in st.heap ==> y in s.heap && s.heap[y].id == st.heap[y].id
    requires r in s.heap && s.heap[r].view == Toggle(st.heap[r].view, other, adding)
    requires Related(s.db, st.heap[r].id)
      == if adding then Related(st.db, st.heap[r].id) + {st.heap[other].id}
         else Related(st.db, st.heap[r].id) - {st.heap[other].id}
    ensures IdsOf(s, s.heap[r].view.elems) == Related(s.db, st.heap[r].id)
  {
    var v := st.heap[r].view.elems;
    assert forall y :: y in v ==> y in ElemsOf(st.heap[r]);
    if adding {
      IdsOfKept(st, s, v + {other});
      IdsOfAdd(st, v, other);
    } else {
      IdsOfKept(st, s, v - {other});
      IdsOfRemove(st, v, other);
    }
  }

  /**
   After the server gained (or lost) the pair of `o` and `x`, recording it in (or
   removing it from) both loaded views keeps every loaded view equal to what the server
   relates to its entry.
   */
  lemma MirrorPairSynced(st: State, st1: State, o: Ref, x: Ref, adding: bool)
    requires WF(st) && Synced(st)
    requires o in st.heap && st.heap[o].attached && x in st.heap && st.heap[x].attached
    requires var p := Pair(st.heap[o].id, st.heap[x].id); p.0 > 0 && p.1 < 0
    requires st1.heap == st.heap && st1.cache == st.cache && DbWF(st1.db) && st1.db.names == st.db.names
    requires var p := Pair(st.heap[o].id, st.heap[x].id);
      st1.db.edges == if adding then st.db.edges + {p} else st.db.edges - {p}
    ensures Synced(Mirror(Mirror(st1, x, o, adding), o, x, adding))
  {
    var p := Pair(st.heap[o].id, st.heap[x].id);
    var s := Mirror(Mirror(st1, x, o, adding), o, x, adding);
    MirrorShape(st1, o, x, adding);
    forall r | r in s.heap && s.heap[r].attached && s.heap[r].view.Loaded?
      ensures IdsOf(s, s.heap[r].view.elems) == Related(s.db, s.heap[r].id)
    {
      RelatedAfter(st.db, s.db, p, st.heap[r].id, adding);
      if r == o {
        ToggledViewSynced(st, s, o, x, adding);
      } else if r == x {
        ToggledViewSynced(st, s, x, o, adding);
      } else {
        Identity(st, r, o);
        Identity(st, r, x);
        var v := st.heap[r].view.elems;
        assert forall y :: y in v ==> y in ElemsOf(st.heap[r]);
        IdsOfKept(st, s, v);
      }
    }
  }

  lemma MirrorPairWF(st: State, o: Ref, x: Ref, adding: bool)
    requires WF(st) && o in st.heap && st.heap[o].attached && x in st.heap && st.heap[x].attached && o != x
    ensures WF(Mirror(Mirror(st, x, o, adding), o, x, adding))
  {
    var s := Mirror(Mirror(st, x, o, adding), o, x, adding);
    MirrorShape(st, o, x, adding);
    assert SameShape(st, s);
    SameShapeKeeps(st, s);
    forall r, y | r in s.heap && s.heap[r].attached && y in ElemsOf(s.heap[r])
      ensures y in s.heap && s.heap[y].attached
    {
      if r != o && r != x {
        assert y in ElemsOf(st.heap[r]);
      } else if y != o && y != x {
        assert y in ElemsOf(st.heap[r]);
      }
    }
  }

  /** A server change the views record on both sides keeps both invariants. */
  lemma MirroredKeepsInvariants(st: State, st1: State, o: Ref, x: Ref, adding: bool)
    requires WF(st) && Synced(st)
    requires o in st.heap && st.heap[o].attached && x in st.heap && st.heap[x].attached
    requires var p := Pair(st.heap[o].id, st.heap[x].id); p.0 > 0 && p.1 < 0
    requires st1.heap == st.heap && st1.cache == st.cache && st1.next == st.next
    requires DbWF(st1.db) && st1.db.names == st.db.names
    requires var p := Pair(st.heap[o].id, st.heap[x].id);
      st1.db.edges == if adding then st.db.edges + {p} else st.db.edges - {p}
    ensures WF(Mirror(Mirror(st1, x, o, adding), o, x, adding))
    ensures Synced(Mirror(Mirror(st1, x, o, adding), o, x, adding))
  {
    assert o != x;
    assert WF(st1) by {
      assert SameShape(st, st1);
      SameShapeKeeps(st, st1);
    }
    MirrorPairWF(st1, o, x, adding);
    MirrorPairSynced(st, st1, o, x, adding);
  }

  /** A refused server change only grows the log. */
  lemma RefusedKeepsInvariants(st: State, call: Rpc, db: Option<Db>)
    requires WF(st) && Synced(st) && Update(st, call, db).res.Err?
    ensures WF(Update(st, call, db).st) && Synced(Update(st, call, db).st)
  {
    IssueGrown(st, call);
    GrownKeepsInvariants(st, Issue(st, call));
  }

  /**
   The second half of `add` keeps the identity map and keeps every loaded view in step
   with the server, whichever way it ends: the kind checks stop it before any change, and
   a refused `_AddToGroup` changes nothing.
   */
  lemma LinkKeepsInvariants(st: State, o: Ref, x: Ref)
    requires WF(st) && Synced(st)
    requires o in st.heap && st.heap[o].attached && x in st.heap && st.heap[x].attached
    ensures WF(Link(st, o, x).st) && Synced(Link(st, o, x).st)
  {
    var e := st.heap[o];
    var ex := st.heap[x];
    if !(e.id < 0 && ex.id < 0) && !(e.id >= 0 && ex.id > 0) {
      var p := Pair(e.id, ex.id);
      var u := AddToGroup(st, p.0, p.1);
      if u.res.Err? {
        RefusedKeepsInvariants(st, AddToGroupCall(p.0, p.1), DbAddToGroup(st.db, p.0, p.1));
      } else {
        assert ex.kind == OtherKind(e.id);
        AddToGroupKeepsDbWF(st.db, p.0, p.1);
        MirroredKeepsInvariants(st, u.st, o, x, true);
      }
    }
  }

  /** The second half of `discard` keeps both invariants, however it ends. */
  lemma UnlinkKeepsInvariants(st: State, o: Ref, x: Ref)
    requires WF(st) && Synced(st)
    requires o in st.heap && st.heap[o].attached && x in st.heap && st.heap[x].attached
    ensures WF(Unlink(st, o, x).st) && Synced(Unlink(st, o, x).st)
  {
    var e := st.heap[o];
    var ex := st.heap[x];
    var p := Pair(e.id, ex.id);
    var u := RemoveFromGroup(st, p.0, p.1);
    if u.res.Err? {
      RefusedKeepsInvariants(st, RemoveFromGroupCall(p.0, p.1), DbRemoveFromGroup(st.db, p.0, p.1));
    } else if p.0 > 0 && p.1 < 0 {
      assert ex.kind == OtherKind(e.id);
      RemoveFromGroupKeepsDbWF(st.db, p.0, p.1);
      MirroredKeepsInvariants(st, u.st, o, x, false);
    } else {
      assert e.id != 0 && ex.kind == KindFor(ex.id) && ex.kind != OtherKind(e.id);
      UnrelatedRemoveKeepsInvariants(st, p);
    }
  }

  /** Removing a pair the server cannot hold (not a user and a group) changes nothing it relates. */
  lemma UnrelatedRemoveKeepsInvariants(st: State, p: (int, int))
    requires WF(st) && Synced(st) && !(p.0 > 0 && p.1 < 0)
    requires RemoveFromGroup(st, p.0, p.1).res.Ok?
    ensures WF(RemoveFromGroup(st, p.0, p.1).st) && Synced(RemoveFromGroup(st, p.0, p.1).st)
  {
    var u := RemoveFromGroup(st, p.0, p.1);
    assert p !in st.db.edges;
    assert u.st.db == st.db;
    IssueGrown(st, RemoveFromGroupCall(p.0, p.1));
    GrownKeepsInvariants(st, u.st);
  }

  /**
   What the second half of `add` does to the server: on success exactly the pair of the
   two entries is added; on failure nothing changes. A group into a group and a user into
   a user are refused before any RPC.
   */
  lemma LinkEffect(st: State, o: Ref, x: Ref)
    requires WF(st) && Synced(st)
    requires o in st.heap && st.heap[o].attached && x in st.heap && st.heap[x].attached
    ensures var s := Link(st, o, x);
      var p := Pair(st.heap[o].id, st.heap[x].id);
      && (s.res.Ok? ==> p.0 > 0 && p.1 < 0 && s.st.db.edges == st.db.edges + {p} && s.st.db.names == st.db.names)
      && (s.res.Err? ==> s.st.db == st.db)
      && (s.res == Err(GroupIntoGroup) <==> st.heap[o].id < 0 && st.heap[x].id < 0)
      && (s.res == Err(UserIntoUser) <==> st.heap[o].id > 0 && st.heap[x].id > 0)
      && (s.res == Err(GroupIntoGroup) || s.res == Err(UserIntoUser) ==> s.st == st)
  {
    var e := st.heap[o];
    var ex := st.heap[x];
    assert e.id in st.cache && ex.id in st.cache;
    assert e.id != 0 && ex.id != 0 && ex.kind == KindFor(ex.id);
  }

  /** What the second half of `discard` does to the server: exactly the pair goes, or nothing changes. */
  lemma UnlinkEffect(st: State, o: Ref, x: Ref)
    requires WF(st) && Synced(st)
    requires o in st.heap && st.heap[o].attached && x in st.heap && st.heap[x].attached
    ensures var s := Unlink(st, o, x);
      var p := Pair(st.heap[o].id, st.heap[x].id);
      && (s.res.Ok? ==> s.st.db.edges == st.db.edges - {p} && s.st.db.names == st.db.names)
      && (s.res.Err? ==> s.st.db == st.db)
  {
    var e := st.heap[o];
    var ex := st.heap[x];
    var p := Pair(e.id, ex.id);
    assert e.id in st.cache && ex.id in st.cache;
    assert e.id != 0 && ex.id != 0 && ex.kind == KindFor(ex.id);
    if !(p.0 > 0 && p.1 < 0) && RemoveFromGroup(st, p.0, p.1).res.Ok? {
      assert p !in st.db.edges;
      assert RemoveFromGroup(st, p.0, p.1).st.db == st.db;
    }
  }

  /** `add` keeps the identity map and keeps every loaded view in step with the server. */
  lemma AddKeepsInvariants(st: State, o: Ref, ident: Ident)
    requires WF(st) && Synced(st) && o in st.heap
    ensures WF(Add(st, o, ident).st) && Synced(Add(st, o, ident).st)
  {
    if st.heap[o].attached {
      GetEntryKeepsInvariants(st, ident);
      var g := GetEntry(st, ident);
      if g.res.Ok? {
        AddFoundKeepsInvariants(g.st, o, g.res.value);
      }
    }
  }

  lemma AddFoundKeepsInvariants(st: State, o: Ref, x: Ref)
    requires WF(st) && Synced(st) && o in st.heap && st.heap[o].attached && x in st.heap && st.heap[x].attached
    ensures WF(AddFound(st, o, x).st) && Synced(AddFound(st, o, x).st)
  {
    var c := Contains(st, o, ByRef(x));
    ContainsGrown(st, o, ByRef(x));
    GrownKeepsInvariants(st, c.st);
    if c.res.Ok? && !c.res.value {
      LinkKeepsInvariants(c.st, o, x);
    }
  }

  /** `discard` keeps both invariants. */
  lemma DiscardKeepsInvariants(st: State, o: Ref, ident: Ident)
    requires WF(st) && Synced(st) && o in st.heap
    ensures WF(Discard(st, o, ident).st) && Synced(Discard(st, o, ident).st)
  {
    if st.heap[o].attached {
      GetEntryKeepsInvariants(st, ident);
      var g := GetEntry(st, ident);
      if g.res.Ok? {
        DiscardFoundKeepsInvariants(g.st, o, g.res.value);
      }
    }
  }

  lemma DiscardFoundKeepsInvariants(st: State, o: Ref, x: Ref)
    requires WF(st) && Synced(st) && o in st.heap && st.heap[o].attached && x in st.heap && st.heap[x].attached
    ensures WF(DiscardFound(st, o, x).st) && Synced(DiscardFound(st, o, x).st)
  {
    var c := Contains(st, o, ByRef(x));
    ContainsGrown(st, o, ByRef(x));
    GrownKeepsInvariants(st, c.st);
    if c.res.Ok? && c.res.value {
      UnlinkKeepsInvariants(c.st, o, x);
    }
  }

  /** `remove` keeps both invariants. */
  lemma RemoveKeepsInvariants(st: State, o: Ref, ident: Ident)
    requires WF(st) && Synced(st) && o in st.heap
    ensures WF(Remove(st, o, ident).st) && Synced(Remove(st, o, ident).st)
  {
    var c := Contains(st, o, ident);
    ContainsGrown(st, o, ident);
    GrownKeepsInvariants(st, c.st);
    if c.res.Ok? && c.res.value {
      DiscardKeepsInvariants(c.st, o, ident);
    }
  }

  /**
   `add` on the server: when it succeeds the server holds the pair of the two entries,
   which is always a user and a group, and no other pair changed; when it fails the server
   is as before.
   */
  lemma AddEffect(st: State, o: Ref, ident: Ident)
    requires WF(st) && Synced(st) && o in st.heap && st.heap[o].attached
    ensures var s := Add(st, o, ident);
      var g := GetEntry(st, ident);
      && (s.res.Ok? ==> g.res.Ok?)
      && (s.res.Ok? ==>
            var p := Pair(st.heap[o].id, g.st.heap[g.res.value].id);
            p.0 > 0 && p.1 < 0 && s.st.db.edges == st.db.edges + {p} && s.st.db.names == st.db.names)
      && (s.res.Err? ==> s.st.db == st.db)
  {
    GetEntryKeepsInvariants(st, ident);
    var g := GetEntry(st, ident);
    if g.res.Ok? {
      AddFoundEffect(g.st, o, g.res.value);
    }
  }

  lemma AddFoundEffect(st: State, o: Ref, x: Ref)
    requires WF(st) && Synced(st) && o in st.heap && st.heap[o].attached && x in st.heap && st.heap[x].attached
    ensures var s := AddFound(st, o, x);
      var p := Pair(st.heap[o].id, st.heap[x].id);
      && (s.res.Ok? ==> p.0 > 0 && p.1 < 0 && s.st.db.edges == st.db.edges + {p} && s.st.db.names == st.db.names)
      && (s.res.Err? ==> s.st.db == st.db)
  {
    var c := Contains(st, o, ByRef(x));
    ContainsAgrees(st, o, ByRef(x));
    GetEntryOfEntry(st, x);
    ContainsGrown(st, o, ByRef(x));
    if c.res.Ok? && !c.res.value {
      GrownKeepsInvariants(st, c.st);
      LinkEffect(c.st, o, x);
    }
  }

  /** `discard` on the server: on success exactly the pair of the two entries is gone; on failure nothing changed. */
  lemma DiscardEffect(st: State, o: Ref, ident: Ident)
    requires WF(st) && Synced(st) && o in st.heap && st.heap[o].attached
    ensures var s := Discard(st, o, ident);
      var g := GetEntry(st, ident);
      && (s.res.Ok? ==> g.res.Ok?)
      && (s.res.Ok? ==>
            var p := Pair(st.heap[o].id, g.st.heap[g.res.value].id);
            s.st.db.edges == st.db.edges - {p} && s.st.db.names == st.db.names)
      && (s.res.Err? ==> s.st.db == st.db)
  {
    GetEntryKeepsInvariants(st, ident);
    var g := GetEntry(st, ident);
    if g.res.Ok? {
      DiscardFoundEffect(g.st, o, g.res.value);
    }
  }

  lemma DiscardFoundEffect(st: State, o: Ref, x: Ref)
    requires WF(st) && Synced(st) && o in st.heap && st.heap[o].attached && x in st.heap && st.heap[x].attached
    ensures var s := DiscardFound(st, o, x);
      var p := Pair(st.heap[o].id, st.heap[x].id);
      && (s.res.Ok? ==> s.st.db.edges == st.db.edges - {p} && s.st.db.names == st.db.names)
      && (s.res.Err? ==> s.st.db == st.db)
  {
    var c := Contains(st, o, ByRef(x));
    ContainsAgrees(st, o, ByRef(x));
    GetEntryOfEntry(st, x);
    ContainsGrown(st, o, ByRef(x));
    if c.res.Ok? && c.res.value {
      GrownKeepsInvariants(st, c.st);
      UnlinkEffect(c.st, o, x);
    }
  }

  /**
   A group added to a group, or a user to a user, raises TypeError once the membership
   test has answered, and the server is left as it was.
   */
  lemma AddRejectsSameKind(st: State, o: Ref, x: Ref)
    requires WF(st) && Synced(st) && o in st.heap && st.heap[o].attached && x in st.heap && st.heap[x].attached
    requires Contains(st, o, ByRef(x)).res.Ok?
    ensures st.heap[o].id < 0 && st.heap[x].id < 0 ==> Add(st, o, ByRef(x)).res == Err(GroupIntoGroup)
    ensures st.heap[o].id > 0 && st.heap[x].id > 0 ==> Add(st, o, ByRef(x)).res == Err(UserIntoUser)
    ensures (st.heap[o].id < 0 <==> st.heap[x].id < 0) ==> Add(st, o, ByRef(x)).st.db == st.db
  {
    GetEntryOfEntry(st, x);
    ContainsAgrees(st, o, ByRef(x));
    var c := Contains(st, o, ByRef(x));
    ContainsGrown(st, o, ByRef(x));
    GrownKeepsInvariants(st, c.st);
    if st.heap[o].id < 0 <==> st.heap[x].id < 0 {
      assert !c.res.value;
      LinkEffect(c.st, o, x);
    }
  }

  /**
   `add` writes through both loaded views: once it succeeds, the owner's loaded view
   holds the element and the element's loaded view holds the owner.
   */
  lemma AddFoundMirrors(st: State, o: Ref, x: Ref)
    requires WF(st) && Synced(st) && o in st.heap && st.heap[o].attached && x in st.heap && st.heap[x].attached
    ensures var s := AddFound(st, o, x);
      && (s.res.Ok? && s.st.heap[o].view.Loaded? ==> x in s.st.heap[o].view.elems)
      && (s.res.Ok? && s.st.heap[x].view.Loaded? ==> o in s.st.heap[x].view.elems)
  {
    var s := AddFound(st, o, x);
    AddFoundKeepsInvariants(st, o, x);
    AddFoundEffect(st, o, x);
    ContainsGrown(st, o, ByRef(x));
    if s.res.Ok? {
      AddFoundKeeps(st, o, x);
      if s.st.heap[o].view.Loaded? {
        InViewIffIdListed(s.st, o, x);
        RelatedPair(s.st.db, st.heap[o].id, st.heap[x].id);
      }
      if s.st.heap[x].view.Loaded? {
        InViewIffIdListed(s.st, x, o);
        RelatedPair(s.st.db, st.heap[x].id, st.heap[o].id);
      }
    }
  }

  /** `discard` writes through both loaded views: once it succeeds, neither holds the other. */
  lemma DiscardFoundMirrors(st: State, o: Ref, x: Ref)
    requires WF(st) && Synced(st) && o in st.heap && st.heap[o].attached && x in st.heap && st.heap[x].attached
    ensures var s := DiscardFound(st, o, x);
      && (s.res.Ok? && s.st.heap[o].view.Loaded? ==> x !in s.st.heap[o].view.elems)
      && (s.res.Ok? && s.st.heap[x].view.Loaded? ==> o !in s.st.heap[x].view.elems)
  {
    var s := DiscardFound(st, o, x);
    DiscardFoundKeepsInvariants(st, o, x);
    DiscardFoundEffect(st, o, x);
    if s.res.Ok? {
      DiscardFoundKeeps(st, o, x);
      if s.st.heap[o].view.Loaded? {
        InViewIffIdListed(s.st, o, x);
        RelatedPair(s.st.db, st.heap[o].id, st.heap[x].id);
      }
      if s.st.heap[x].view.Loaded? {
        InViewIffIdListed(s.st, x, o);
        RelatedPair(s.st.db, st.heap[x].id, st.heap[o].id);
      }
    }
  }

  /** The ids and connections of existing entries survive the second half of `add`. */
  lemma AddFoundKeeps(st: State, o: Ref, x: Ref)
    requires Sound(st) && o in st.heap && x in st.heap && st.heap[x].attached
    ensures ViewsOnly(st, AddFound(st, o, x).st)
  {
    var c := Contains(st, o, ByRef(x));
    assert ViewsOnly(st, c.st);
  }

  /** The ids and connections of existing entries survive the second half of `discard`. */
  lemma DiscardFoundKeeps(st: State, o: Ref, x: Ref)
    requires Sound(st) && o in st.heap && x in st.heap && st.heap[x].attached
    ensures ViewsOnly(st, DiscardFound(st, o, x).st)
  {
    var c := Contains(st, o, ByRef(x));
    assert ViewsOnly(st, c.st);
  }

  /**
   The RPCs of `add` once the element is an entry: an unloaded view costs one
   `_IsAMemberOf`, then at most one `_AddToGroup` for the same pair; a loaded view costs
   at most the `_AddToGroup`. The membership list is never fetched.
   */
  lemma AddFoundRpcs(st: State, o: Ref, x: Ref)
    requires Sound(st) && o in st.heap && st.heap[o].attached && x in st.heap && st.heap[x].attached
    ensures var s := AddFound(st, o, x);
      var p := Pair(st.heap[o].id, st.heap[x].id);
      var tail := s.st.log[|st.log|..];
      && |st.log| <= |s.st.log| && s.st.log[..|st.log|] == st.log
      && (st.heap[o].view.Unloaded? ==>
            tail == [IsAMemberOfCall(p.0, p.1)] || tail == [IsAMemberOfCall(p.0, p.1), AddToGroupCall(p.0, p.1)])
      && (st.heap[o].view.Loaded? ==> tail == [] || tail == [AddToGroupCall(p.0, p.1)])
      && (st.heap[o].view.Unloaded? && AddToGroupCall(p.0, p.1) in tail ==> p !in st.db.edges)
  {
    if st.heap[o].view.Unloaded? {
      AddFoundRpcsUnloaded(st, o, x);
    } else {
      AddFoundRpcsLoaded(st, o, x);
    }
  }

  /** `AddFoundRpcs` for an unloaded view: the test, then `_AddToGroup` only if the server said no. */
  lemma AddFoundRpcsUnloaded(st: State, o: Ref, x: Ref)
    requires Sound(st) && o in st.heap && st.heap[o].attached && x in st.heap && st.heap[x].attached
    requires st.heap[o].view.Unloaded?
    ensures var s := AddFound(st, o, x);
      var p := Pair(st.heap[o].id, st.heap[x].id);
      var tail := s.st.log[|st.log|..];
      && |st.log| <= |s.st.log| && s.st.log[..|st.log|] == st.log
      && (tail == [IsAMemberOfCall(p.0, p.1)] || tail == [IsAMemberOfCall(p.0, p.1), AddToGroupCall(p.0, p.1)])
      && (AddToGroupCall(p.0, p.1) in tail ==> p !in st.db.edges)
  {
    var c := Contains(st, o, ByRef(x));
    ContainsUnloaded(st, o, x);
    var p := Pair(st.heap[o].id, st.heap[x].id);
    assert c.st.heap == st.heap && c.st.log == st.log + [IsAMemberOfCall(p.0, p.1)];
    if c.res.Ok? && !c.res.value {
      LinkRpc(c.st, o, x);
    }
  }

  /** `Link` logs `_AddToGroup` for the pair, or nothing when the kinds rule it out. */
  lemma LinkRpc(st: State, o: Ref, x: Ref)
    requires Sound(st) && o in st.heap && x in st.heap
    ensures var s := Link(st, o, x);
      var p := Pair(st.heap[o].id, st.heap[x].id);
      s.st.log == st.log || s.st.log == st.log + [AddToGroupCall(p.0, p.1)]
  {
  }

  /** `AddFoundRpcs` for a loaded view: no test, and at most `_AddToGroup`. */
  lemma AddFoundRpcsLoaded(st: State, o: Ref, x: Ref)
    requires Sound(st) && o in st.heap && st.heap[o].attached && x in st.heap && st.heap[x].attached
    requires st.heap[o].view.Loaded?
    ensures var s := AddFound(st, o, x);
      var p := Pair(st.heap[o].id, st.heap[x].id);
      var tail := s.st.log[|st.log|..];
      && |st.log| <= |s.st.log| && s.st.log[..|st.log|] == st.log
      && (tail == [] || tail == [AddToGroupCall(p.0, p.1)])
  {
    ContainsLoaded(st, o, x);
  }

  /** On a connection whose views agree with the server, `add` sends `_AddToGroup` only for a pair the server does not hold. */
  lemma AddFoundCallsOnlyWhenAbsent(st: State, o: Ref, x: Ref)
    requires WF(st) && Synced(st) && o in st.heap && st.heap[o].attached && x in st.heap && st.heap[x].attached
    ensures var s := AddFound(st, o, x);
      var p := Pair(st.heap[o].id, st.heap[x].id);
      |st.log| <= |s.st.log| && (AddToGroupCall(p.0, p.1) in s.st.log[|st.log|..] ==> p !in st.db.edges)
  {
    AddFoundRpcs(st, o, x);
    ContainsAgrees(st, o, ByRef(x));
    GetEntryOfEntry(st, x);
  }

  /**
   `add` of an element that is already a member does nothing beyond the membership test:
   no `_AddToGroup`, and no entry, view or server change.
   */
  lemma AddFoundPresent(st: State, o: Ref, x: Ref)
    requires WF(st) && Synced(st) && o in st.heap && st.heap[o].attached && x in st.heap && st.heap[x].attached
    requires Pair(st.heap[o].id, st.heap[x].id) in st.db.edges
    ensures var c := Contains(st, o, ByRef(x));
      c.res.Ok? ==>
        && AddFound(st, o, x) == Step(Ok(()), c.st)
        && c.st.heap == st.heap && c.st.cache == st.cache && c.st.db == st.db
  {
    ContainsAgrees(st, o, ByRef(x));
    GetEntryOfEntry(st, x);
  }

  /**
   `discard` of an element that is not a member does nothing beyond the membership test:
   no `_RemoveFromGroup`, and no entry, view or server change.
   */
  lemma DiscardFoundAbsent(st: State, o: Ref, x: Ref)
    requires WF(st) && Synced(st) && o in st.heap && st.heap[o].attached && x in st.heap && st.heap[x].attached
    requires Pair(st.heap[o].id, st.heap[x].id) !in st.db.edges
    ensures var c := Contains(st, o, ByRef(x));
      c.res.Ok? ==>
        && DiscardFound(st, o, x) == Step(Ok(()), c.st)
        && c.st.heap == st.heap && c.st.cache == st.cache && c.st.db == st.db
  {
    ContainsAgrees(st, o, ByRef(x));
    GetEntryOfEntry(st, x);
  }

  /**
   `remove`: an element the membership test finds absent raises KeyError with the server
   unchanged; a success means it was present and the server lost exactly its pair.
   */
  lemma RemoveEffect(st: State, o: Ref, ident: Ident)
    requires WF(st) && Synced(st) && o in st.heap && st.heap[o].attached
    ensures var c := Contains(st, o, ident);
      var s := Remove(st, o, ident);
      && (c.res == Ok(false) ==> s == Step(Err(NotAMember), c.st))
      && (s.res.Ok? ==> c.res == Ok(true))
      && (s.res.Ok? ==>
            var g := GetEntry(c.st, ident);
            g.res.Ok? && s.st.db.edges == st.db.edges - {Pair(st.heap[o].id, g.st.heap[g.res.value].id)})
      && (s.res.Err? ==> s.st.db == st.db)
  {
    var c := Contains(st, o, ident);
    ContainsGrown(st, o, ident);
    GrownKeepsInvariants(st, c.st);
    if c.res == Ok(true) {
      DiscardEffect(c.st, o, ident);
    }
  }
}
