/** After the synchronisation the groups mirror the staged tree. */
module LdapMirror {
  import opened LdapStaging
  import opened LdapSync
  import opened Wrappers

  ghost predicate IdsOk(db: Db) {
    && (forall c :: c in db.groups ==> 1 <= db.groups[c].id < db.nextId)
    && (forall c, d :: c in db.groups && d in db.groups && c != d ==> db.groups[c].id != db.groups[d].id)
  }

  /** Distinct codes, other than the root's; a stored parent id was handed out before. */
  ghost predicate Fit(db: Db, t: seq<Row>, root: string) {
    && Rooted(t) && IdsOk(db) && root in db.groups && db.groups[root].parentId == 0
    && (forall c :: c in db.groups ==> db.groups[c].parentId < db.nextId)
    && (forall i, j :: 0 <= i < j < |t| && t[i].group && t[j].group ==> t[i].code != t[j].code)
    && (forall i :: 0 <= i < |t| && t[i].group ==> t[i].code != root)
  }

  /** A group that is new or marked for the synchronisation takes part; any other is left as it is. */
  predicate TakesPart(db: Db, code: string) {
    code in db.groups ==> db.groups[code].ldap == 1
  }

  predicate IsGroup(t: seq<Row>, k: nat) {
    1 <= k <= |t| && t[k - 1].group
  }

  /** The code of the parent group of a row, or the root's. */
  function ParentCode(t: seq<Row>, root: string, q: nat): string {
    if 1 <= q <= |t| then t[q - 1].code else root
  }

  /** Levels below the root's. */
  ghost function Depth(t: seq<Row>, k: nat): nat
    requires Rooted(t) && k <= |t|
    decreases k
  {
    if k == 0 then 0 else 1 + Depth(t, t[k - 1].parentId)
  }

  /** The group of row k is what the row says, below the group of the parent row, or is untouched. */
  ghost predicate Placed(db: Db, db0: Db, t: seq<Row>, root: string, v: int, k: nat) {
    && Rooted(t) && IsGroup(t, k) && root in db.groups
    && t[k - 1].code in db.groups && ParentCode(t, root, t[k - 1].parentId) in db.groups
    && var g, p := db.groups[t[k - 1].code], db.groups[ParentCode(t, root, t[k - 1].parentId)];
    if TakesPart(db0, t[k - 1].code) then
      && g.ldap == 1 && g.version == Some(v) && g.name == t[k - 1].name
      && g.parentId == p.id && g.level == db.groups[root].level + Depth(t, k)
    else t[k - 1].code in db0.groups && g == db0.groups[t[k - 1].code]
  }

  ghost predicate CodeIn(t: seq<Row>, done: set<nat>, c: string) {
    exists k :: k in done && IsGroup(t, k) && t[k - 1].code == c
  }

  /** Ids and participation never change, and new groups get new ids. */
  ghost predicate Kept(a: Db, b: Db) {
    && a.nextId <= b.nextId
    && (forall c :: c in b.groups && c !in a.groups ==> b.groups[c].id >= a.nextId)
    && forall c :: c in a.groups ==>
           c in b.groups && b.groups[c].id == a.groups[c].id && b.groups[c].ldap == a.groups[c].ldap
  }

  /** The rows `done` are placed, and with each row the one above it. */
  ghost predicate RowsPlaced(db: Db, db0: Db, t: seq<Row>, root: string, v: int, done: set<nat>) {
    forall k :: k in done ==> Placed(db, db0, t, root, v, k) && (t[k - 1].parentId == 0 || t[k - 1].parentId in done)
  }

  ghost predicate OthersKept(db: Db, db0: Db, t: seq<Row>, done: set<nat>) {
    forall c :: c in db.groups && !CodeIn(t, done, c) ==> c in db0.groups && db.groups[c] == db0.groups[c]
  }

  /** The groups of the rows `done` are placed and all others are untouched. */
  ghost predicate Inv(db: Db, db0: Db, t: seq<Row>, root: string, v: int, done: set<nat>) {
    IdsOk(db) && Kept(db0, db) && RowsPlaced(db, db0, t, root, v, done) && OthersKept(db, db0, t, done)
  }

  /** The groups of the rows `done` are the same. */
  ghost predicate Same(a: Db, b: Db, t: seq<Row>, done: set<nat>) {
    forall k :: k in done && IsGroup(t, k) && t[k - 1].code in a.groups ==>
           t[k - 1].code in b.groups && b.groups[t[k - 1].code] == a.groups[t[k - 1].code]
  }

  ghost predicate RefIs(db: Db, t: seq<Row>, root: string, done: set<nat>, q: nat, p: Ref) {
    && Rooted(t) && (q == 0 || (q in done && IsGroup(t, q))) && ParentCode(t, root, q) in db.groups && root in db.groups
    && p.id == db.groups[ParentCode(t, root, q)].id && p.level == db.groups[root].level + Depth(t, q)
  }

  lemma RefStays(db0: Db, a: Db, b: Db, t: seq<Row>, root: string, v: int, done: set<nat>, more: set<nat>, q: nat,
                 p: Ref)
    requires Fit(db0, t, root) && Inv(a, db0, t, root, v, done) && Inv(b, db0, t, root, v, done + more)
    requires Same(a, b, t, done)
    requires RefIs(a, t, root, done, q, p)
    ensures RefIs(b, t, root, done + more, q, p)
  {
    hide Fit;
    RootFree(a, db0, t, root, v, done);
    RootFree(b, db0, t, root, v, done + more);
  }

  lemma SameRow(db0: Db, t: seq<Row>, root: string, j: nat, k: nat)
    requires Fit(db0, t, root) && IsGroup(t, j) && IsGroup(t, k) && t[j - 1].code == t[k - 1].code
    ensures j == k
  {
  }

  lemma OtherRow(db0: Db, t: seq<Row>, root: string, j: nat, k: nat)
    requires Fit(db0, t, root) && IsGroup(t, j) && IsGroup(t, k) && j != k
    ensures t[j - 1].code != t[k - 1].code
  {
  }

  lemma Participates(db: Db, db0: Db, t: seq<Row>, root: string, v: int, done: set<nat>, k: nat)
    requires Fit(db0, t, root) && Inv(db, db0, t, root, v, done) && IsGroup(t, k)
    ensures GroupFor(db, t[k - 1].code).ldap == 1 <==> TakesPart(db0, t[k - 1].code)
    ensures !TakesPart(db0, t[k - 1].code) ==>
      t[k - 1].code in db.groups && t[k - 1].code in db0.groups && db.groups[t[k - 1].code] == db0.groups[t[k - 1].code]
  {
    var c := t[k - 1].code;
    if CodeIn(t, done, c) {
      var j :| j in done && IsGroup(t, j) && t[j - 1].code == c;
      assert Placed(db, db0, t, root, v, j);
    }
  }

  /** The group row k leaves behind. */
  function GroupOf(db: Db, r: Row, p: Ref, v: int): Group {
    Group(GroupFor(db, r.code).id, p.id, p.level + 1, r.name, 1, Some(v))
  }

  function Saved(db: Db, r: Row, p: Ref, v: int): Db {
    Db(db.groups[r.code := GroupOf(db, r, p, v)], db.users, if r.code in db.groups then db.nextId else db.nextId + 1)
  }

  lemma SavedKeeps(db0: Db, db: Db, r: Row, p: Ref, v: int)
    requires IdsOk(db) && Kept(db0, db) && GroupFor(db, r.code).ldap == 1 && db.nextId >= 1
    ensures IdsOk(Saved(db, r, p, v)) && Kept(db, Saved(db, r, p, v)) && Kept(db0, Saved(db, r, p, v))
  {
  }

  /** Saving the group of a placed row again changes nothing. */
  lemma SavedAgain(db: Db, db0: Db, t: seq<Row>, root: string, v: int, done: set<nat>, k: nat, p: Ref)
    requires Placed(db, db0, t, root, v, k) && TakesPart(db0, t[k - 1].code)
    requires RefIs(db, t, root, done, t[k - 1].parentId, p)
    ensures Saved(db, t[k - 1], p, v).groups == db.groups
  {
    assert Depth(t, k) == 1 + Depth(t, t[k - 1].parentId);
    assert GroupOf(db, t[k - 1], p, v) == db.groups[t[k - 1].code];
  }

  lemma SavedSame(db: Db, db0: Db, t: seq<Row>, root: string, v: int, done: set<nat>, k: nat, p: Ref)
    requires Fit(db0, t, root) && Inv(db, db0, t, root, v, done) && IsGroup(t, k)
    requires RefIs(db, t, root, done, t[k - 1].parentId, p)
    requires TakesPart(db0, t[k - 1].code)
    ensures Same(db, Saved(db, t[k - 1], p, v), t, done)
  {
    hide Placed; hide RefIs; hide Saved; hide Fit; hide Same; hide TakesPart; hide OthersKept; hide IdsOk; hide Kept;
    if CodeIn(t, done, t[k - 1].code) {
      var j :| j in done && IsGroup(t, j) && t[j - 1].code == t[k - 1].code;
      SameRow(db0, t, root, j, k);
      SavedAgain(db, db0, t, root, v, done, k, p);
      EqualIsSame(db, Saved(db, t[k - 1], p, v), t, done);
    } else {
      ElsewhereSame(db, t, done, t[k - 1], p, v);
    }
  }

  lemma EqualIsSame(a: Db, b: Db, t: seq<Row>, done: set<nat>)
    requires a.groups == b.groups
    ensures Same(a, b, t, done)
  {
  }

  lemma ElsewhereSame(db: Db, t: seq<Row>, done: set<nat>, r: Row, p: Ref, v: int)
    requires !CodeIn(t, done, r.code)
    ensures Same(db, Saved(db, r, p, v), t, done)
  {
    hide GroupOf;
  }

  lemma RootFree(db: Db, db0: Db, t: seq<Row>, root: string, v: int, done: set<nat>)
    requires Fit(db0, t, root) && Inv(db, db0, t, root, v, done)
    ensures root in db.groups && db.groups[root] == db0.groups[root]
    ensures forall k :: IsGroup(t, k) ==> t[k - 1].code != root
  {
    assert !CodeIn(t, done, root);
  }

  lemma PlacedStays(a: Db, b: Db, db0: Db, t: seq<Row>, root: string, v: int, done: set<nat>, j: nat)
    requires j in done && Placed(a, db0, t, root, v, j) && Same(a, b, t, done)
    requires t[j - 1].parentId == 0 || (t[j - 1].parentId in done && Placed(a, db0, t, root, v, t[j - 1].parentId))
    requires root in a.groups && root in b.groups && b.groups[root] == a.groups[root]
    ensures Placed(b, db0, t, root, v, j)
  {
  }

  lemma ParentApart(db0: Db, t: seq<Row>, root: string, k: nat)
    requires Fit(db0, t, root) && IsGroup(t, k)
    ensures t[k - 1].parentId < k && ParentCode(t, root, t[k - 1].parentId) != t[k - 1].code
  {
    var q := t[k - 1].parentId;
    assert q <= k - 1;
    if q != 0 { OtherRow(db0, t, root, q, k); }
  }

  lemma SavedPlaced(db: Db, db0: Db, t: seq<Row>, root: string, v: int, done: set<nat>, k: nat, p: Ref)
    requires IsGroup(t, k) && RefIs(db, t, root, done, t[k - 1].parentId, p)
    requires ParentCode(t, root, t[k - 1].parentId) != t[k - 1].code
    requires TakesPart(db0, t[k - 1].code) && t[k - 1].code != root
    ensures Placed(Saved(db, t[k - 1], p, v), db0, t, root, v, k)
  {
  }

  lemma Untouched(db: Db, b: Db, db0: Db, t: seq<Row>, done: set<nat>, k: nat)
    requires OthersKept(db, db0, t, done) && IsGroup(t, k)
    requires forall c :: c in b.groups && c != t[k - 1].code ==> c in db.groups && b.groups[c] == db.groups[c]
    ensures OthersKept(b, db0, t, done + {k})
  {
    forall c | c in b.groups && !CodeIn(t, done + {k}, c) ensures c in db0.groups && b.groups[c] == db0.groups[c] {
      assert k in done + {k};
      assert !CodeIn(t, done, c);
    }
  }

  lemma AllPlaced(db: Db, b: Db, db0: Db, t: seq<Row>, root: string, v: int, done: set<nat>, k: nat)
    requires RowsPlaced(db, db0, t, root, v, done) && Same(db, b, t, done) && Placed(b, db0, t, root, v, k)
    requires root in db.groups && root in b.groups && b.groups[root] == db.groups[root]
    requires t[k - 1].parentId == 0 || t[k - 1].parentId in done
    ensures RowsPlaced(b, db0, t, root, v, done + {k})
  {
    forall j | j in done + {k} ensures Placed(b, db0, t, root, v, j)
      && (t[j - 1].parentId == 0 || t[j - 1].parentId in done + {k}) {
      if j in done {
        assert Placed(db, db0, t, root, v, j);
        hide Placed; hide Same;
        PlacedStays(db, b, db0, t, root, v, done, j);
      }
    }
  }

  lemma SavedInv(db: Db, db0: Db, t: seq<Row>, root: string, v: int, done: set<nat>, k: nat, p: Ref)
    requires Fit(db0, t, root) && Inv(db, db0, t, root, v, done) && IsGroup(t, k)
    requires RefIs(db, t, root, done, t[k - 1].parentId, p)
    requires TakesPart(db0, t[k - 1].code) && GroupFor(db, t[k - 1].code).ldap == 1 && db.nextId >= 1
    ensures Inv(Saved(db, t[k - 1], p, v), db0, t, root, v, done + {k})
  {
    var a := Saved(db, t[k - 1], p, v);
    RootFree(db, db0, t, root, v, done);
    SavedSame(db, db0, t, root, v, done, k, p);
    hide GroupFor; hide Placed; hide Same; hide Fit; hide CodeIn; hide Kept; hide IdsOk; hide ParentCode;
    hide RowsPlaced; hide OthersKept; hide TakesPart;
    assert t[k - 1].parentId == 0 || t[k - 1].parentId in done;
    hide RefIs;
    SavedKeeps(db0, db, t[k - 1], p, v);
    ParentApart(db0, t, root, k);
    SavedPlaced(db, db0, t, root, v, done, k, p);
    Untouched(db, a, db0, t, done, k);
    AllPlaced(db, a, db0, t, root, v, done, k);
  }

  lemma SyncIsSaved(db: Db, r: Row, p: Ref, v: int)
    requires GroupFor(db, r.code).ldap == 1
    ensures SyncGroup(db, r, p, v) == (Saved(db, r, p, v), RefOf(GroupOf(db, r, p, v)))
    ensures r.code in Saved(db, r, p, v).groups && Saved(db, r, p, v).groups[r.code] == GroupOf(db, r, p, v)
    ensures Saved(db, r, p, v).users == db.users
  {
  }

  /** The group that row k's children go below. */
  lemma SavedRef(db: Db, t: seq<Row>, root: string, done: set<nat>, k: nat, p: Ref, v: int)
    requires IsGroup(t, k) && RefIs(db, t, root, done, t[k - 1].parentId, p) && t[k - 1].code != root
    ensures RefIs(Saved(db, t[k - 1], p, v), t, root, done + {k}, k, RefOf(GroupOf(db, t[k - 1], p, v)))
  {
  }

  /** A group that does not take part stays and still serves as a parent. */
  lemma OutsiderStep(db: Db, db0: Db, t: seq<Row>, root: string, v: int, done: set<nat>, k: nat, p: Ref)
    requires Fit(db0, t, root) && Inv(db, db0, t, root, v, done) && IsGroup(t, k)
    requires RefIs(db, t, root, done, t[k - 1].parentId, p)
    requires !TakesPart(db0, t[k - 1].code)
    ensures SyncGroup(db, t[k - 1], p, v) == (db, Ref(GroupFor(db, t[k - 1].code).id, p.level + 1))
    ensures Inv(db, db0, t, root, v, done + {k})
    ensures RefIs(db, t, root, done + {k}, k, Ref(GroupFor(db, t[k - 1].code).id, p.level + 1))
  {
    hide CodeIn; hide IdsOk; hide Kept; hide RowsPlaced; hide OthersKept; hide Fit;
    Participates(db, db0, t, root, v, done, k);
    RootFree(db, db0, t, root, v, done);
    assert Placed(db, db0, t, root, v, k);
    assert t[k - 1].parentId == 0 || t[k - 1].parentId in done;
    assert Depth(t, k) == 1 + Depth(t, t[k - 1].parentId);
    hide Placed;
    Untouched(db, db, db0, t, done, k);
    AllPlaced(db, db, db0, t, root, v, done, k);
  }

  /** The group's part of do_synchro places the group of row k below its parent, unless it does not
      take part, and disturbs nothing else. */
  lemma GroupStep(db: Db, db0: Db, t: seq<Row>, root: string, v: int, done: set<nat>, k: nat, p: Ref)
    requires Fit(db0, t, root) && Inv(db, db0, t, root, v, done) && IsGroup(t, k)
    requires RefIs(db, t, root, done, t[k - 1].parentId, p)
    ensures var (a, ref) := SyncGroup(db, t[k - 1], p, v);
      && Inv(a, db0, t, root, v, done + {k}) && Same(db, a, t, done) && RefIs(a, t, root, done + {k}, k, ref)
      && a.users == db.users && Kept(db, a)
  {
    Participates(db, db0, t, root, v, done, k);
    RootFree(db, db0, t, root, v, done);
    assert IdsOk(db) && Kept(db0, db) && db.nextId >= 1;
    if TakesPart(db0, t[k - 1].code) {
      SyncIsSaved(db, t[k - 1], p, v);
      hide Inv; hide Saved; hide SyncGroup; hide Fit; hide GroupOf; hide Kept; hide IdsOk; hide Same; hide GroupFor;
      hide TakesPart;
      SavedInv(db, db0, t, root, v, done, k, p);
      SavedSame(db, db0, t, root, v, done, k, p);
      SavedRef(db, t, root, done, k, p, v);
      SavedKeeps(db0, db, t[k - 1], p, v);
    } else {
      hide Inv; hide SyncGroup; hide Fit; hide IdsOk; hide GroupFor; hide TakesPart; hide RefIs;
      OutsiderStep(db, db0, t, root, v, done, k, p);
    }
  }

  // ----- The recursion -----

  lemma {:induction false} UsersOnly(db: Db, t: seq<Row>, ids: seq<nat>, n: nat, gid: nat, v: int)
    requires n <= |ids| && Ids(t, ids)
    ensures SyncUsers(db, t, ids, n, gid, v).groups == db.groups && SyncUsers(db, t, ids, n, gid, v).nextId == db.nextId
  {
    if n > 0 { UsersOnly(db, t, ids, n - 1, gid, v); }
  }

  lemma SameGroups(a: Db, b: Db, db0: Db, t: seq<Row>, root: string, v: int, done: set<nat>)
    requires Inv(a, db0, t, root, v, done) && b.groups == a.groups && b.nextId == a.nextId
    ensures Inv(b, db0, t, root, v, done)
  {
    hide CodeIn;
    forall k | k in done ensures Placed(b, db0, t, root, v, k) { assert Placed(a, db0, t, root, v, k); }
  }

  /** Row k and the group rows below it. */
  ghost function Below(t: seq<Row>, k: nat): set<nat>
    requires Rooted(t) && 1 <= k <= |t|
    decreases |t| - k, 1, 0
  {
    {k} + BelowKids(t, k, |Query(t, k, true)|)
  }

  ghost function BelowKids(t: seq<Row>, k: nat, n: nat): set<nat>
    requires Rooted(t) && k <= |t| && n <= |Query(t, k, true)|
    decreases |t| - k, 0, n
  {
    if n == 0 then {}
    else
      var kid := Query(t, k, true)[n - 1];
      assert kid in Query(t, k, true);
      BelowKids(t, k, n - 1) + Below(t, kid)
  }

  /** From db with `done` placed to r with `more` placed as well. */
  ghost predicate After(db: Db, r: Db, db0: Db, t: seq<Row>, root: string, v: int, done: set<nat>, more: set<nat>) {
    Inv(r, db0, t, root, v, done + more) && Same(db, r, t, done)
  }

  /** do_synchro places the row and all rows below it. */
  lemma {:induction false} SyncKeeps(db: Db, db0: Db, t: seq<Row>, root: string, v: int, done: set<nat>, k: nat, p: Ref)
    requires Rooted(t) && 1 <= k <= |t| && IsGroup(t, k)
    requires Fit(db0, t, root) && Inv(db, db0, t, root, v, done) && RefIs(db, t, root, done, t[k - 1].parentId, p)
    ensures After(db, Sync(db, t, k, p, v), db0, t, root, v, done, Below(t, k))
    decreases |t| - k, 1, 0
  {
    hide Inv; hide Fit; hide SyncGroup; hide Query; hide Kept; hide SyncKids; hide BelowKids; hide SyncUsers;
    hide Rooted; hide RefIs; hide IsGroup;
    GroupStep(db, db0, t, root, v, done, k, p);
    var (a, ref) := SyncGroup(db, t[k - 1], p, v);
    var ids := Query(t, k, false);
    var b := SyncUsers(a, t, ids, |ids|, ref.id, v);
    UsersOnly(a, t, ids, |ids|, ref.id, v);
    SameGroups(a, b, db0, t, root, v, done + {k});
    SameRef(a, b, t, root, done + {k}, k, ref);
    SyncKidsKeeps(b, db0, t, root, v, done + {k}, k, ref, |Query(t, k, true)|);
    assert done + {k} + BelowKids(t, k, |Query(t, k, true)|) == done + Below(t, k);
  }

  lemma SameRef(a: Db, b: Db, t: seq<Row>, root: string, done: set<nat>, q: nat, p: Ref)
    requires RefIs(a, t, root, done, q, p) && b.groups == a.groups
    ensures RefIs(b, t, root, done, q, p)
  {
  }

  lemma {:induction false} SyncKidsKeeps(db: Db, db0: Db, t: seq<Row>, root: string, v: int, done: set<nat>, k: nat,
                                         ref: Ref, n: nat)
    requires Rooted(t) && k <= |t| && n <= |Query(t, k, true)|
    requires Fit(db0, t, root) && Inv(db, db0, t, root, v, done) && RefIs(db, t, root, done, k, ref)
    ensures After(db, SyncKids(db, t, k, ref, v, n), db0, t, root, v, done, BelowKids(t, k, n))
    decreases |t| - k, 0, n
  {
    hide Inv; hide Fit; hide Query; hide Sync; hide Below;
    if n == 0 {
      assert done + {} == done;
    } else {
      var kid := Query(t, k, true)[n - 1];
      assert kid in Query(t, k, true);
      SyncKidsKeeps(db, db0, t, root, v, done, k, ref, n - 1);
      var before, done1 := SyncKids(db, t, k, ref, v, n - 1), done + BelowKids(t, k, n - 1);
      RefStays(db0, db, before, t, root, v, done, BelowKids(t, k, n - 1), k, ref);
      SyncKeeps(before, db0, t, root, v, done1, kid, ref);
      assert done + BelowKids(t, k, n) == done1 + Below(t, kid);
    }
  }

  // ----- Every row is reached -----

  lemma {:induction false} KidBelow(t: seq<Row>, k: nat, n: nat, i: nat)
    requires Rooted(t) && k <= |t| && i < n <= |Query(t, k, true)|
    ensures 1 <= Query(t, k, true)[i] <= |t| && Query(t, k, true)[i] in BelowKids(t, k, n)
    decreases n
  {
    hide Query; hide Rooted;
    assert Query(t, k, true)[n - 1] in Query(t, k, true);
    if i < n - 1 { KidBelow(t, k, n - 1, i); }
  }

  lemma {:induction false} ChildReached(t: seq<Row>, k: nat, q: nat, x: nat)
    requires Rooted(t) && 1 <= k <= |t| && q in Below(t, k) && IsGroup(t, x) && t[x - 1].parentId == q
    ensures x in Below(t, k)
    decreases |t| - k, 1, 0
  {
    hide Query; hide Rooted;
    var kids := Query(t, k, true);
    if q == k {
      assert x in kids;
      var i :| 0 <= i < |kids| && kids[i] == x;
      KidBelow(t, k, |kids|, i);
    } else {
      ChildReachedKids(t, k, |kids|, q, x);
    }
  }

  lemma {:induction false} ChildReachedKids(t: seq<Row>, k: nat, n: nat, q: nat, x: nat)
    requires Rooted(t) && k <= |t| && n <= |Query(t, k, true)| && q in BelowKids(t, k, n) && IsGroup(t, x)
    requires t[x - 1].parentId == q
    ensures x in BelowKids(t, k, n)
    decreases |t| - k, 0, n
  {
    hide Query; hide Below;
    var kid := Query(t, k, true)[n - 1];
    assert kid in Query(t, k, true);
    assert k < kid;
    hide Rooted;
    if q in BelowKids(t, k, n - 1) { ChildReachedKids(t, k, n - 1, q, x); } else { ChildReached(t, kid, q, x); }
  }

  /** The calls for the rows at the top reach every group row of the table. */
  lemma {:induction false} AllReached(t: seq<Row>, x: nat)
    requires Rooted(t) && IsGroup(t, x)
    ensures x in BelowKids(t, 0, |Query(t, 0, true)|)
    decreases x
  {
    var q, kids := t[x - 1].parentId, Query(t, 0, true);
    assert q <= x - 1;
    if q == 0 {
      assert x in kids;
      var i :| 0 <= i < |kids| && kids[i] == x;
      KidBelow(t, 0, |kids|, i);
    } else {
      AllReached(t, q);
      hide Query;
      ChildReachedKids(t, 0, |kids|, q, x);
    }
  }

  // ----- Users -----

  /** The user rows in the order in which they are followed. */
  function Visits(t: seq<Row>, k: nat): (w: seq<nat>)
    requires Rooted(t) && 1 <= k <= |t|
    ensures Ids(t, w)
    decreases |t| - k, 1, 0
  {
    Query(t, k, false) + KidVisits(t, k, |Query(t, k, true)|)
  }

  function KidVisits(t: seq<Row>, k: nat, n: nat): (w: seq<nat>)
    requires Rooted(t) && k <= |t| && n <= |Query(t, k, true)|
    ensures Ids(t, w)
    decreases |t| - k, 0, n
  {
    if n == 0 then []
    else
      var kid := Query(t, k, true)[n - 1];
      assert kid in Query(t, k, true);
      KidVisits(t, k, n - 1) + Visits(t, kid)
  }

  /** The last row visited that names the account, 0 without one. */
  function LastVisit(t: seq<Row>, w: seq<nat>, account: string): (j: nat)
    requires Ids(t, w)
    ensures j <= |t| && (j > 0 ==> j in w && t[j - 1].code == account)
    ensures j == 0 ==> forall i :: 0 <= i < |w| ==> t[w[i] - 1].code != account
  {
    if w == [] then 0
    else if t[w[|w| - 1] - 1].code == account then w[|w| - 1]
    else LastVisit(t, w[..|w| - 1], account)
  }

  predicate Syncs(db0: Db, account: string) {
    account in db0.users ==> db0.users[account].ldap == 1 && db0.users[account].savable
  }

  /** The user has the name and the group of row j, and keeps all else; a new one is enabled. */
  ghost predicate FollowsRow(db: Db, db0: Db, t: seq<Row>, v: int, j: nat, account: string)
    requires 1 <= j <= |t|
  {
    var k := t[j - 1].parentId;
    && account in db.users && IsGroup(t, k) && t[k - 1].code in db.groups
    && var u := db.users[account];
    && u.name == t[j - 1].name && u.rels == [db.groups[t[k - 1].code].id] && u.version == Some(v)
    && u.ldap == 1 && u.savable && u.enabled == (account in db0.users ==> db0.users[account].enabled)
  }

  /** A visited user that takes part follows the row of its last visit; other users are untouched. */
  ghost predicate UserAt(db: Db, db0: Db, t: seq<Row>, v: int, w: seq<nat>, account: string)
    requires Ids(t, w)
  {
    if LastVisit(t, w, account) > 0 && Syncs(db0, account) then
      FollowsRow(db, db0, t, v, LastVisit(t, w, account), account)
    else
      && (account in db.users <==> account in db0.users)
      && (account in db.users ==> db.users[account] == db0.users[account])
  }

  ghost predicate UserInv(db: Db, db0: Db, t: seq<Row>, v: int, w: seq<nat>) {
    Ids(t, w) && forall u :: UserAt(db, db0, t, v, w, u)
  }

  lemma UserStep(db: Db, db0: Db, t: seq<Row>, v: int, w: seq<nat>, j: nat)
    requires 1 <= j <= |t| && UserInv(db, db0, t, v, w)
    requires IsGroup(t, t[j - 1].parentId) && t[t[j - 1].parentId - 1].code in db.groups
    ensures UserInv(SyncUser(db, t[j - 1], db.groups[t[t[j - 1].parentId - 1].code].id, v), db0, t, v, w + [j])
  {
    var r := t[j - 1];
    var b, w1 := SyncUser(db, r, db.groups[t[r.parentId - 1].code].id, v), w + [j];
    assert w1[..|w|] == w;
    forall u ensures UserAt(b, db0, t, v, w1, u) {
      assert UserAt(db, db0, t, v, w, u) && UserAt(db, db0, t, v, w, r.code);
      assert LastVisit(t, w1, u) == if u == r.code then j else LastVisit(t, w, u);
      hide LastVisit;
    }
  }

  lemma UsersFollow(a: Db, b: Db, db0: Db, t: seq<Row>, v: int, w: seq<nat>)
    requires UserInv(a, db0, t, v, w) && Kept(a, b) && b.users == a.users
    ensures UserInv(b, db0, t, v, w)
  {
    forall u ensures UserAt(b, db0, t, v, w, u) {
      assert UserAt(a, db0, t, v, w, u);
      hide LastVisit;
    }
  }

  lemma {:induction false} OwnUsersKeep(db: Db, db0: Db, t: seq<Row>, v: int, w: seq<nat>, k: nat, n: nat)
    requires UserInv(db, db0, t, v, w) && IsGroup(t, k) && t[k - 1].code in db.groups
    requires n <= |Query(t, k, false)|
    ensures UserInv(SyncUsers(db, t, Query(t, k, false), n, db.groups[t[k - 1].code].id, v), db0, t, v,
      w + Query(t, k, false)[..n])
  {
    hide UserInv; hide SyncUser; hide Query;
    var ids := Query(t, k, false);
    if n == 0 {
      assert w + ids[..0] == w;
    } else {
      var gid := db.groups[t[k - 1].code].id;
      assert ids[n - 1] in ids;
      OwnUsersKeep(db, db0, t, v, w, k, n - 1);
      UsersOnly(db, t, ids, n - 1, gid, v);
      UserStep(SyncUsers(db, t, ids, n - 1, gid, v), db0, t, v, w + ids[..n - 1], ids[n - 1]);
      assert w + ids[..n] == w + ids[..n - 1] + [ids[n - 1]];
    }
  }

  /** Users keep following while do_synchro goes through row k and the rows below it. */
  lemma {:induction false} SyncFollows(db: Db, db0: Db, t: seq<Row>, root: string, v: int, done: set<nat>, k: nat,
                                       p: Ref, w: seq<nat>)
    requires Rooted(t) && 1 <= k <= |t| && IsGroup(t, k)
    requires Fit(db0, t, root) && Inv(db, db0, t, root, v, done) && RefIs(db, t, root, done, t[k - 1].parentId, p)
    requires UserInv(db, db0, t, v, w)
    ensures UserInv(Sync(db, t, k, p, v), db0, t, v, w + Visits(t, k))
    decreases |t| - k, 1, 0
  {
    hide Inv; hide Fit; hide SyncGroup; hide Query; hide Kept; hide SyncKids; hide KidVisits; hide SyncUsers;
    hide Rooted; hide UserInv;
    GroupStep(db, db0, t, root, v, done, k, p);
    var (a, ref) := SyncGroup(db, t[k - 1], p, v);
    var ids := Query(t, k, false);
    var b := SyncUsers(a, t, ids, |ids|, ref.id, v);
    UsersFollow(db, a, db0, t, v, w);
    OwnUsersKeep(a, db0, t, v, w, k, |ids|);
    assert ids[..|ids|] == ids;
    UsersOnly(a, t, ids, |ids|, ref.id, v);
    SameGroups(a, b, db0, t, root, v, done + {k});
    SameRef(a, b, t, root, done + {k}, k, ref);
    SyncKidsFollow(b, db0, t, root, v, done + {k}, k, ref, |Query(t, k, true)|, w + ids);
    assert w + ids + KidVisits(t, k, |Query(t, k, true)|) == w + Visits(t, k);
  }

  lemma {:induction false} SyncKidsFollow(db: Db, db0: Db, t: seq<Row>, root: string, v: int, done: set<nat>, k: nat,
                                          ref: Ref, n: nat, w: seq<nat>)
    requires Rooted(t) && k <= |t| && n <= |Query(t, k, true)|
    requires Fit(db0, t, root) && Inv(db, db0, t, root, v, done) && RefIs(db, t, root, done, k, ref)
    requires UserInv(db, db0, t, v, w)
    ensures UserInv(SyncKids(db, t, k, ref, v, n), db0, t, v, w + KidVisits(t, k, n))
    decreases |t| - k, 0, n
  {
    hide *;
    InvIds(db, db0, t, v, w);
    NextKid(db, t, k, ref, v, n, w);
    if n > 0 {
      var kid := Query(t, k, true)[n - 1];
      SyncKidsKeeps(db, db0, t, root, v, done, k, ref, n - 1);
      SyncKidsFollow(db, db0, t, root, v, done, k, ref, n - 1, w);
      var before, done1 := SyncKids(db, t, k, ref, v, n - 1), done + BelowKids(t, k, n - 1);
      AfterParts(db, before, db0, t, root, v, done, BelowKids(t, k, n - 1));
      RefStays(db0, db, before, t, root, v, done, BelowKids(t, k, n - 1), k, ref);
      SyncFollows(before, db0, t, root, v, done1, kid, ref, w + KidVisits(t, k, n - 1));
    }
  }

  lemma InvIds(db: Db, db0: Db, t: seq<Row>, v: int, w: seq<nat>)
    requires UserInv(db, db0, t, v, w)
    ensures Ids(t, w)
  {
  }

  lemma AfterParts(db: Db, r: Db, db0: Db, t: seq<Row>, root: string, v: int, done: set<nat>, more: set<nat>)
    requires After(db, r, db0, t, root, v, done, more)
    ensures Inv(r, db0, t, root, v, done + more) && Same(db, r, t, done)
  {
  }

  lemma IdsAre(t: seq<Row>, w: seq<nat>, x: seq<nat>)
    requires Ids(t, w) && Ids(t, x)
    ensures Ids(t, w + x)
  {
  }

  /** The last of the first n children. */
  lemma NextKid(db: Db, t: seq<Row>, k: nat, ref: Ref, v: int, n: nat, w: seq<nat>)
    requires Rooted(t) && k <= |t| && n <= |Query(t, k, true)| && Ids(t, w)
    ensures Ids(t, w + KidVisits(t, k, n))
    ensures n == 0 ==> SyncKids(db, t, k, ref, v, n) == db && w + KidVisits(t, k, n) == w
    ensures n > 0 ==>
      var kid := Query(t, k, true)[n - 1];
      && k < kid <= |t| && IsGroup(t, kid) && t[kid - 1].parentId == k && Ids(t, w + KidVisits(t, k, n - 1))
      && SyncKids(db, t, k, ref, v, n) == Sync(SyncKids(db, t, k, ref, v, n - 1), t, kid, ref, v)
      && w + KidVisits(t, k, n) == w + KidVisits(t, k, n - 1) + Visits(t, kid)
  {
    hide Query; hide Sync; hide Visits;
    if n > 0 {
      assert Query(t, k, true)[n - 1] in Query(t, k, true);
      IdsAre(t, w, KidVisits(t, k, n - 1));
    }
    IdsAre(t, w, KidVisits(t, k, n));
  }
}
