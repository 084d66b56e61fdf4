/** Second half of the LDAP synchronisation: groups and users follow the staging rows, each group below the group of
    the row above it, each user into the group of its row. */
module LdapSync {
  import opened LdapStaging
  import opened Text
  import opened Wrappers

  // ----- Reading the staging table -----

  /** Rows with the given parent, in order of id. */
  function Selected(t: seq<Row>, id: nat, group: bool, n: nat): (r: seq<nat>)
    requires n <= |t|
    ensures Ids(t, r) && forall k :: k in r <==> 1 <= k <= n && t[k - 1].parentId == id && t[k - 1].group == group
  {
    if n == 0 then []
    else
      var before := Selected(t, id, group, n - 1);
      if t[n - 1].parentId == id && t[n - 1].group == group then before + [n] else before
  }

  /** order(:sort_no, :code) */
  predicate RowLe(a: Row, b: Row) {
    if a.sortNo == b.sortNo then !Less(b.code, a.code) else Less(a.sortNo, b.sortNo)
  }

  predicate Ids(t: seq<Row>, ids: seq<nat>) {
    forall i :: 0 <= i < |ids| ==> 1 <= ids[i] <= |t|
  }

  function Insert(t: seq<Row>, k: nat, ids: seq<nat>): (r: seq<nat>)
    requires Ids(t, ids) && 1 <= k <= |t|
    ensures Ids(t, r) && forall x :: x in r <==> x == k || x in ids
  {
    if ids == [] then [k]
    else if RowLe(t[ids[|ids| - 1] - 1], t[k - 1]) then ids + [k]
    else Insert(t, k, ids[..|ids| - 1]) + [ids[|ids| - 1]]
  }

  function Sort(t: seq<Row>, ids: seq<nat>): (r: seq<nat>)
    requires Ids(t, ids)
    ensures Ids(t, r) && forall x :: x in r <==> x in ids
  {
    if ids == [] then [] else Insert(t, ids[|ids| - 1], Sort(t, ids[..|ids| - 1]))
  }

  /** children and users of a staging row */
  function Query(t: seq<Row>, id: nat, group: bool): (r: seq<nat>)
    ensures Ids(t, r) && forall k :: k in r <==> 1 <= k <= |t| && t[k - 1].parentId == id && t[k - 1].group == group
  {
    Sort(t, Selected(t, id, group, |t|))
  }

  // ----- Groups and users -----

  /** A group; codes are unique and key the table. */
  datatype Group = Group(id: nat, parentId: nat, level: int, name: string, ldap: int, version: Option<int>)

  /** A user, keyed by account. savable: nothing but the synchronised columns can make a save fail.
      rels are the group ids of its relations. */
  datatype User = User(name: string, ldap: int, version: Option<int>, enabled: bool, savable: bool, rels: seq<nat>)

  datatype Db = Db(groups: map<string, Group>, users: map<string, User>, nextId: nat)

  /** What a child needs of its parent record. */
  datatype Ref = Ref(id: nat, level: int)

  function RefOf(g: Group): Ref {
    Ref(g.id, g.level)
  }

  function GroupFor(db: Db, code: string): Group {
    if code in db.groups then db.groups[code] else Group(db.nextId, 0, 0, "", 1, None)
  }

  function UserFor(db: Db, account: string): User {
    if account in db.users then db.users[account] else User("", 1, None, true, true, [])
  }

  /** The group's part of do_synchro; a group that is not synchronised is used as a parent without being saved. */
  function SyncGroup(db: Db, r: Row, p: Ref, v: int): (Db, Ref) {
    var was := GroupFor(db, r.code);
    var g := Group(was.id, p.id, p.level + 1, r.name, was.ldap, Some(v));
    if was.ldap == 1 then
      (Db(db.groups[r.code := g], db.users, if r.code in db.groups then db.nextId else db.nextId + 1), RefOf(g))
    else (db, RefOf(g))
  }

  function SyncUser(db: Db, r: Row, gid: nat, v: int): Db {
    var was := UserFor(db, r.code);
    if was.ldap == 1 && was.savable
      then db.(users := db.users[r.code := was.(name := r.name, version := Some(v), rels := [gid])])
    else db
  }

  function SyncUsers(db: Db, t: seq<Row>, ids: seq<nat>, n: nat, gid: nat, v: int): Db
    requires n <= |ids| && Ids(t, ids)
  {
    if n == 0 then db else SyncUser(SyncUsers(db, t, ids, n - 1, gid, v), t[ids[n - 1] - 1], gid, v)
  }

  /** do_synchro for the row with id k */
  function Sync(db: Db, t: seq<Row>, k: nat, p: Ref, v: int): Db
    requires Rooted(t) && 1 <= k <= |t|
    decreases |t| - k, 1, 0
  {
    var (a, ref) := SyncGroup(db, t[k - 1], p, v);
    var b := SyncUsers(a, t, Query(t, k, false), |Query(t, k, false)|, ref.id, v);
    SyncKids(b, t, k, ref, v, |Query(t, k, true)|)
  }

  /** The first n children of row k, or of the top. */
  function SyncKids(db: Db, t: seq<Row>, k: nat, ref: Ref, v: int, n: nat): Db
    requires Rooted(t) && k <= |t| && n <= |Query(t, k, true)|
    decreases |t| - k, 0, n
  {
    if n == 0 then db
    else
      var kid := Query(t, k, true)[n - 1];
      assert kid in Query(t, k, true);
      Sync(SyncKids(db, t, k, ref, v, n - 1), t, kid, ref, v)
  }

  /** save_group: the first relation is redirected, the others removed; without any, one is created. */
  method SaveGroup(rels: seq<nat>, inGroupId: nat) returns (r: seq<nat>)
    ensures r == [inGroupId]
  {
    r := rels;
    var idx := 0;
    while idx < |rels|
      invariant idx <= |rels| && |r| == |rels| - (if idx == 0 then 0 else idx - 1)
      invariant idx > 0 ==> r[0] == inGroupId
      decreases |rels| - idx
    {
      if idx == 0 {
        r := r[0 := inGroupId];
      } else {
        r := [r[0]] + r[2..];
      }
      idx := idx + 1;
    }
    if |rels| == 0 {
      r := [inGroupId];
    }
  }

  class Directory {
    var groups: map<string, Group>
    var users: map<string, User>
    var nextId: nat

    constructor (db: Db)
      ensures Now() == db
    {
      groups, users, nextId := db.groups, db.users, db.nextId;
    }

    ghost function Now(): Db
      reads this
    {
      Db(groups, users, nextId)
    }

    method SyncOneUser(r: Row, gid: nat, v: int)
      modifies this
      ensures Now() == SyncUser(old(Now()), r, gid, v)
    {
      var su := if r.code in users then users[r.code] else User("", 1, None, true, true, []);
      if su.ldap == 1 && su.savable {
        var rels := SaveGroup(su.rels, gid);
        users := users[r.code := su.(name := r.name, version := Some(v), rels := rels)];
      }
    }

    method SaveOneGroup(r: Row, p: Ref, v: int) returns (ref: Ref)
      modifies this
      ensures (Now(), ref) == SyncGroup(old(Now()), r, p, v)
    {
      var created := r.code !in groups;
      var sg := if created then Group(nextId, 0, 0, "", 1, None) else groups[r.code];
      sg := sg.(parentId := p.id, name := r.name, level := p.level + 1, version := Some(v));
      if sg.ldap == 1 {
        groups := groups[r.code := sg];
        if created { nextId := nextId + 1; }
      }
      ref := Ref(sg.id, sg.level);
    }

    method DoSynchro(t: seq<Row>, k: nat, p: Ref, v: int)
      requires Rooted(t) && 1 <= k <= |t|
      modifies this
      ensures Now() == Sync(old(Now()), t, k, p, v)
      decreases |t| - k, 1
    {
      hide SyncGroup; hide SyncUser; hide Query; hide Rooted;
      var ref := SaveOneGroup(t[k - 1], p, v);
      ghost var a := Now();
      var users := Query(t, k, false);
      for n := 0 to |users|
        invariant Now() == SyncUsers(a, t, users, n, ref.id, v)
      {
        assert users[n] in users;
        SyncOneUser(t[users[n] - 1], ref.id, v);
      }
      SyncChildren(t, k, ref, v);
    }

    method SyncChildren(t: seq<Row>, k: nat, ref: Ref, v: int)
      requires Rooted(t) && k <= |t|
      modifies this
      ensures Now() == SyncKids(old(Now()), t, k, ref, v, |Query(t, k, true)|)
      decreases |t| - k, 0
    {
      hide Sync; hide Query;
      var kids := Query(t, k, true);
      for n := 0 to |kids|
        invariant Now() == SyncKids(old(Now()), t, k, ref, v, n)
      {
        assert kids[n] in kids;
        DoSynchro(t, kids[n], ref, v);
      }
    }
  }
}
