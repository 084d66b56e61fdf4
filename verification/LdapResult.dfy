/** What a synchronisation with the LDAP directory leaves. */
module LdapResult {
  // The groups mirror the directory tree, users sit where the directory lists them last, stale records are
  // gone, and the groups a cascade takes are known from the tables before the run.
  import opened Collections
  import opened LdapCallbacks
  import opened LdapMirror
  import opened LdapOrder
  import opened LdapRun
  import opened LdapStaging
  import opened LdapSync
  import opened Wrappers

  /** Groups and users after all rows were followed and before anything is deleted. */
  function Followed(db: Db, t: seq<Row>, root: string, v: int): Db
    requires Rooted(t) && root in db.groups
  {
    SyncKids(Cleared(db), t, 0, RefOf(db.groups[root]), v, |Query(t, 0, true)|)
  }

  function CurrentUsers(users: map<string, User>): map<string, User> {
    map u | u in users && !(users[u].ldap == 1 && users[u].version == None) :: users[u]
  }

  lemma ClearedFits(db: Db, t: seq<Row>, root: string)
    requires Fit(db, t, root)
    ensures Fit(Cleared(db), t, root)
  {
  }

  lemma StartInv(db: Db, t: seq<Row>, root: string, v: int)
    requires Fit(db, t, root)
    ensures Inv(db, db, t, root, v, {}) && RefIs(db, t, root, {}, 0, RefOf(db.groups[root]))
    ensures UserInv(db, db, t, v, [])
  {
    forall u ensures UserAt(db, db, t, v, [], u) {}
  }

  ghost function AllRows(t: seq<Row>): set<nat>
    requires Rooted(t)
  {
    BelowKids(t, 0, |Query(t, 0, true)|)
  }

  lemma FollowedInv(db: Db, t: seq<Row>, root: string, v: int)
    requires Fit(db, t, root) && Rooted(t) && root in db.groups
    ensures Inv(Followed(db, t, root, v), Cleared(db), t, root, v, AllRows(t))
    ensures UserInv(Followed(db, t, root, v), Cleared(db), t, v, AllVisits(t))
  {
    var db0, n := Cleared(db), |Query(t, 0, true)|;
    ClearedFits(db, t, root);
    StartInv(db0, t, root, v);
    assert RefOf(db0.groups[root]) == RefOf(db.groups[root]);
    hide Inv; hide UserInv; hide Fit; hide SyncKids; hide BelowKids; hide KidVisits; hide Query; hide Cleared;
    hide RefIs;
    SyncKidsKeeps(db0, db0, t, root, v, {}, 0, RefOf(db.groups[root]), n);
    SyncKidsFollow(db0, db0, t, root, v, {}, 0, RefOf(db.groups[root]), n, []);
    assert {} + BelowKids(t, 0, n) == AllRows(t);
    assert [] + KidVisits(t, 0, n) == AllVisits(t);
  }

  // ----- The tree that the run builds, on the tables before it -----

  /** The group row with this code, 0 without one. */
  function RowOf(t: seq<Row>, code: string, n: nat): (k: nat)
    requires n <= |t|
    ensures k <= n && (k > 0 ==> t[k - 1].group && t[k - 1].code == code)
    ensures k == 0 ==> forall i :: 0 <= i < n && t[i].group ==> t[i].code != code
  {
    if n == 0 then 0 else if t[n - 1].group && t[n - 1].code == code then n else RowOf(t, code, n - 1)
  }

  /** p will be the parent of c: a group that takes part follows its row, any other keeps its stored parent. */
  ghost predicate IsAbove(db: Db, t: seq<Row>, root: string, p: string, c: string) {
    if RowOf(t, c, |t|) > 0 && TakesPart(db, c) then p == ParentCode(t, root, t[RowOf(t, c, |t|) - 1].parentId)
    else c in db.groups && p in db.groups && db.groups[c].parentId == db.groups[p].id
  }

  /** The directory no longer has the group: it takes part, is no root, and no row names it. */
  ghost predicate Gone(db: Db, t: seq<Row>, c: string) {
    c in db.groups && db.groups[c].ldap == 1 && db.groups[c].parentId != 0 && RowOf(t, c, |t|) == 0
  }

  /** Going up from c, at most n steps, meets a group that is gone. */
  ghost predicate MeetsGone(db: Db, t: seq<Row>, root: string, c: string, n: nat)
    decreases n
  {
    Gone(db, t, c) || (n > 0 && exists p :: IsAbove(db, t, root, p, c) && MeetsGone(db, t, root, p, n - 1))
  }

  /** c lies at or below a group that is gone. */
  ghost predicate Doomed(db: Db, t: seq<Row>, root: string, c: string) {
    exists n: nat :: MeetsGone(db, t, root, c, n)
  }

  /** The tree has no cycle. */
  ghost predicate NoCycle(db: Db, t: seq<Row>, root: string, tier: string -> nat, rank: string -> nat) {
    forall c, p :: IsAbove(db, t, root, p, c) ==> Lower(c, p, tier, rank)
  }

  lemma RowIs(db: Db, t: seq<Row>, root: string, k: nat)
    requires Fit(db, t, root) && IsGroup(t, k)
    ensures RowOf(t, t[k - 1].code, |t|) == k
  {
    if RowOf(t, t[k - 1].code, |t|) != 0 { SameRow(db, t, root, RowOf(t, t[k - 1].code, |t|), k); }
  }

  lemma RootRow(db: Db, t: seq<Row>, root: string)
    requires Fit(db, t, root)
    ensures RowOf(t, root, |t|) == 0
  {
  }

  /** A group no row mentions, or that does not take part, is as it was. */
  lemma OtherGroup(db: Db, t: seq<Row>, root: string, v: int, c: string)
    requires Fit(db, t, root) && Rooted(t) && root in db.groups && c in Followed(db, t, root, v).groups
    requires RowOf(t, c, |t|) == 0 || !TakesPart(db, c)
    ensures c in db.groups && Followed(db, t, root, v).groups[c] == db.groups[c].(version := None)
  {
    hide *;
    RowHere(t, c);
    FollowedInv(db, t, root, v);
    ClearedAt(db, c);
    KeptOutside(Followed(db, t, root, v), Cleared(db), t, root, v, AllRows(t), c, RowOf(t, c, |t|));
  }

  lemma ClearedAt(db: Db, c: string)
    ensures TakesPart(Cleared(db), c) <==> TakesPart(db, c)
    ensures c in Cleared(db).groups ==> c in db.groups && Cleared(db).groups[c] == db.groups[c].(version := None)
  {
  }

  lemma RowHere(t: seq<Row>, c: string)
    requires Rooted(t)
    ensures var k := RowOf(t, c, |t|);
      if k > 0 then k in AllRows(t) && IsGroup(t, k) && t[k - 1].code == c else !CodeIn(t, AllRows(t), c)
  {
    var k := RowOf(t, c, |t|);
    hide Rooted; hide AllRows;
    if k > 0 { AllReached(t, k); } else { NoRowHere(t, c); }
  }

  lemma NoRowHere(t: seq<Row>, c: string)
    requires Rooted(t) && RowOf(t, c, |t|) == 0
    ensures !CodeIn(t, AllRows(t), c)
  {
    hide AllRows; hide Rooted; hide RowOf;
    forall k | k in AllRows(t) && IsGroup(t, k) ensures t[k - 1].code != c { assert t[k - 1].group; }
  }

  lemma KeptOutside(db: Db, db0: Db, t: seq<Row>, root: string, v: int, done: set<nat>, c: string, k: nat)
    requires Inv(db, db0, t, root, v, done) && c in db.groups
    requires if k > 0 then k in done && IsGroup(t, k) && t[k - 1].code == c && !TakesPart(db0, c)
             else !CodeIn(t, done, c)
    ensures c in db0.groups && db.groups[c] == db0.groups[c]
  {
    hide CodeIn; hide Rooted; hide ParentCode; hide Depth; hide Kept;
    if k > 0 { assert Placed(db, db0, t, root, v, k); }
  }

  lemma UniqueFrom(db: Db)
    requires IdsOk(db)
    ensures UniqueIds(db.groups)
  {
  }

  lemma FollowedIds(db: Db, t: seq<Row>, root: string, v: int)
    requires Fit(db, t, root) && Rooted(t) && root in db.groups
    ensures IdsOk(Followed(db, t, root, v)) && Kept(db, Followed(db, t, root, v))
  {
    hide *;
    FollowedInv(db, t, root, v);
    InvIds(Followed(db, t, root, v), Cleared(db), t, root, v, AllRows(t));
    KeptCleared(db, Followed(db, t, root, v));
  }

  lemma InvIds(db: Db, db0: Db, t: seq<Row>, root: string, v: int, done: set<nat>)
    requires Inv(db, db0, t, root, v, done)
    ensures IdsOk(db) && Kept(db0, db)
  {
  }

  lemma KeptCleared(db: Db, r: Db)
    requires Kept(Cleared(db), r)
    ensures Kept(db, r)
  {
  }

  lemma RowPlaced(db: Db, t: seq<Row>, root: string, v: int, k: nat)
    requires Fit(db, t, root) && Rooted(t) && root in db.groups && IsGroup(t, k)
    ensures Placed(Followed(db, t, root, v), Cleared(db), t, root, v, k)
  {
    FollowedInv(db, t, root, v);
    AllReached(t, k);
    hide Followed; hide UserInv; hide Fit; hide Rooted; hide IdsOk; hide Placed; hide CodeIn;
  }

  lemma RootKept(db: Db, t: seq<Row>, root: string, v: int)
    requires Fit(db, t, root) && Rooted(t) && root in db.groups
    ensures root in Followed(db, t, root, v).groups
    ensures Followed(db, t, root, v).groups[root] == db.groups[root].(version := None)
  {
    FollowedInv(db, t, root, v);
    ClearedFits(db, t, root);
    hide Followed; hide UserInv; hide Rooted; hide IdsOk; hide Placed; hide CodeIn; hide Kept; hide AllRows;
    RootFree(Followed(db, t, root, v), Cleared(db), t, root, v, AllRows(t));
  }

  /** After the rows were followed, parents are as foretold. */
  lemma EdgeIs(db: Db, t: seq<Row>, root: string, v: int, c: string, p: string)
    requires Fit(db, t, root) && Rooted(t) && root in db.groups && c in Followed(db, t, root, v).groups
    ensures IsAbove(db, t, root, p, c) <==>
      p in Followed(db, t, root, v).groups && Followed(db, t, root, v).groups[c].parentId
        == Followed(db, t, root, v).groups[p].id
  {
    var r, k := Followed(db, t, root, v), RowOf(t, c, |t|);
    FollowedIds(db, t, root, v);
    if k > 0 && TakesPart(db, c) {
      RowPlaced(db, t, root, v, k);
      hide Followed; hide Fit; hide Rooted; hide RowOf;
    } else {
      OtherGroup(db, t, root, v, c);
      assert db.groups[c].parentId < db.nextId;
      hide Followed; hide Fit; hide Rooted; hide RowOf;
    }
  }

  lemma StaleIs(db: Db, t: seq<Row>, root: string, v: int, c: string)
    requires Fit(db, t, root) && Rooted(t) && root in db.groups && c in Followed(db, t, root, v).groups
    ensures c in StaleGroups(Followed(db, t, root, v).groups) <==> Gone(db, t, c)
  {
    var k := RowOf(t, c, |t|);
    if k > 0 && TakesPart(db, c) {
      RowPlaced(db, t, root, v, k);
      hide Followed; hide Fit; hide Rooted; hide RowOf;
    } else {
      OtherGroup(db, t, root, v, c);
      hide Followed; hide Fit; hide Rooted; hide RowOf;
    }
  }

  lemma {:induction false} ClimbsIs(db: Db, t: seq<Row>, root: string, v: int, c: string, n: nat)
    requires Fit(db, t, root) && Rooted(t) && root in db.groups && c in Followed(db, t, root, v).groups
    ensures Climbs(Followed(db, t, root, v).groups, StaleGroups(Followed(db, t, root, v).groups), c, n) <==>
      MeetsGone(db, t, root, c, n)
    decreases n
  {
    var groups := Followed(db, t, root, v).groups;
    StaleIs(db, t, root, v, c);
    hide Followed; hide Fit; hide Rooted; hide RowOf; hide IsAbove; hide Gone; hide StaleGroups;
    forall p ensures IsAbove(db, t, root, p, c) <==> p in groups && groups[c].parentId == groups[p].id {
      EdgeIs(db, t, root, v, c, p);
    }
    if n > 0 {
      forall p | p in groups ensures Climbs(groups, StaleGroups(groups), p, n - 1) <==>
        MeetsGone(db, t, root, p, n - 1) {
        ClimbsIs(db, t, root, v, p, n - 1);
      }
    }
  }

  lemma AcyclicFrom(groups: map<string, Group>, tier: string -> nat, rank: string -> nat)
    requires forall c, d :: c in groups && d in groups && groups[c].parentId == groups[d].id ==> Lower(c, d, tier, rank)
    ensures Acyclic(groups, tier, rank)
  {
  }

  /** The tree after following the rows has no cycle, so the deletions end. */
  lemma FollowedAcyclic(db: Db, t: seq<Row>, root: string, v: int, tier: string -> nat, rank: string -> nat)
    requires Fit(db, t, root) && Rooted(t) && root in db.groups && NoCycle(db, t, root, tier, rank)
    ensures Acyclic(Followed(db, t, root, v).groups, tier, rank) && UniqueIds(Followed(db, t, root, v).groups)
  {
    var r := Followed(db, t, root, v);
    FollowedIds(db, t, root, v);
    UniqueFrom(r);
    hide Followed; hide Fit; hide Rooted; hide IsAbove; hide IdsOk; hide UniqueIds; hide Lower; hide Kept; hide Acyclic;
    forall c, d | c in r.groups && d in r.groups
      && r.groups[c].parentId == r.groups[d].id ensures Lower(c, d, tier, rank) {
      EdgeIs(db, t, root, v, c, d);
    }
    AcyclicFrom(r.groups, tier, rank);
  }

  /** The stale groups go with all below them, the callbacks of the groups running in this order. */
  ghost predicate Deleted(groups: map<string, Group>, d: set<string>, order: seq<nat>) {
    && Cascade(groups, StaleGroups(groups), d) && Called(groups, d, order)
    && OnlyAgain(order, IdsOf(groups, StaleGroups(groups)))
  }

  /** synchronize */
  method Synchronize(dir: Directory, t: seq<Row>, root: string, v: int, ghost tier: string -> nat,
                     ghost rank: string -> nat)
    returns (ghost d: set<string>, ghost order: seq<nat>)
    requires Rooted(t) && root in dir.groups && Fit(dir.Now(), t, root) && NoCycle(dir.Now(), t, root, tier, rank)
    modifies dir
    ensures var mid := Followed(old(dir.Now()), t, root, v);
      && Deleted(mid.groups, d, order) && dir.groups == mid.groups - d && dir.nextId == mid.nextId
      && UsersAfter(CurrentUsers(mid.users), dir.users, LiveIds(mid.groups), order)
  {
    ghost var db := dir.Now();
    var parent := Ref(dir.groups[root].id, dir.groups[root].level);
    dir.groups := map c | c in dir.groups :: dir.groups[c].(version := None);
    dir.users := map u | u in dir.users :: dir.users[u].(version := None);
    assert dir.Now() == Cleared(db);
    FollowedAcyclic(db, t, root, v, tier, rank);
    hide Fit; hide Acyclic; hide Cleared; hide SyncKids; hide UsersAfter; hide Cascade; hide IdsOf; hide NoCycle;
    hide Called; hide OnlyAgain;
    dir.SyncChildren(t, 0, parent, v);
    assert dir.Now() == Followed(db, t, root, v);
    dir.users := CurrentUsers(dir.users);
    d, order := DeleteStale(dir, tier, rank);
  }

  // ----- Groups -----

  /** A run on these tables whose cascades took the groups d. */
  ghost predicate Ran(db: Db, t: seq<Row>, root: string, v: int, tier: string -> nat, rank: string -> nat,
                      d: set<string>) {
    && Fit(db, t, root) && Rooted(t) && root in db.groups && NoCycle(db, t, root, tier, rank)
    && Cascade(Followed(db, t, root, v).groups, StaleGroups(Followed(db, t, root, v).groups), d)
  }

  /** The cascades take a group exactly when it comes to lie at or below one that is gone, as the tables
      before the run tell. */
  lemma TakenIff(db: Db, t: seq<Row>, root: string, v: int, tier: string -> nat, rank: string -> nat, d: set<string>,
                 c: string)
    requires Ran(db, t, root, v, tier, rank, d) && c in Followed(db, t, root, v).groups
    ensures c in d <==> Doomed(db, t, root, c)
  {
    var groups := Followed(db, t, root, v).groups;
    FollowedAcyclic(db, t, root, v, tier, rank);
    hide Followed; hide Fit; hide Rooted; hide NoCycle; hide Cascade; hide Acyclic; hide UniqueIds; hide StaleGroups;
    hide Climbs; hide MeetsGone;
    CascadeIs(groups, StaleGroups(groups), d, c, tier, rank);
    forall n: nat ensures Climbs(groups, StaleGroups(groups), c, n) <==> MeetsGone(db, t, root, c, n) {
      ClimbsIs(db, t, root, v, c, n);
    }
    if c in d { var n: nat :| Climbs(groups, StaleGroups(groups), c, n); assert MeetsGone(db, t, root, c, n); }
    if n: nat :| MeetsGone(db, t, root, c, n) { assert Climbs(groups, StaleGroups(groups), c, n); }
  }

  /** So the group of a row is taken exactly when it is doomed, and the root never is. */
  lemma GroupLostIff(db: Db, t: seq<Row>, root: string, v: int, tier: string -> nat, rank: string -> nat,
                     d: set<string>, k: nat)
    requires Ran(db, t, root, v, tier, rank, d) && IsGroup(t, k)
    ensures t[k - 1].code in d <==> Doomed(db, t, root, t[k - 1].code)
    ensures root !in d
  {
    RowPlaced(db, t, root, v, k);
    RootKept(db, t, root, v);
    RootStays(db, t, root);
    hide Ran; hide Followed; hide Fit; hide Rooted; hide Cascade; hide Doomed;
    TakenIff(db, t, root, v, tier, rank, d, t[k - 1].code);
    TakenIff(db, t, root, v, tier, rank, d, root);
  }

  lemma RootStays(db: Db, t: seq<Row>, root: string)
    requires Fit(db, t, root)
    ensures !Doomed(db, t, root, root)
  {
    RootRow(db, t, root);
    forall n: nat ensures !MeetsGone(db, t, root, root, n) {}
  }

  /** The parent of a group that stays, stays. */
  lemma DoomedBelow(db: Db, t: seq<Row>, root: string, c: string, p: string)
    requires IsAbove(db, t, root, p, c) && Doomed(db, t, root, p)
    ensures Doomed(db, t, root, c)
  {
    hide IsAbove;
    var n: nat :| MeetsGone(db, t, root, p, n);
    assert MeetsGone(db, t, root, c, n + 1);
  }

  /** Every group the directory names is new or takes part. */
  ghost predicate AllTakePart(db: Db, t: seq<Row>) {
    forall i :: 0 <= i < |t| && t[i].group ==> TakesPart(db, t[i].code)
  }

  /** If all take part, no cascade takes a synchronised group. */
  lemma NoneLost(db: Db, t: seq<Row>, root: string, k: nat)
    requires Fit(db, t, root) && AllTakePart(db, t) && IsGroup(t, k)
    ensures !Doomed(db, t, root, t[k - 1].code)
  {
    var c := t[k - 1].code;
    forall n: nat ensures !MeetsGone(db, t, root, c, n) { RowSafe(db, t, root, k, n); }
  }

  lemma {:induction false} RowSafe(db: Db, t: seq<Row>, root: string, k: nat, n: nat)
    requires Fit(db, t, root) && AllTakePart(db, t) && IsGroup(t, k)
    ensures !MeetsGone(db, t, root, t[k - 1].code, n)
  {
    hide Fit; hide RowOf; hide AllTakePart; hide TakesPart; hide IsAbove; hide Gone;
    var q, c := t[k - 1].parentId, t[k - 1].code;
    forall p ensures IsAbove(db, t, root, p, c) ==> p == ParentCode(t, root, q) { RowParent(db, t, root, k, p); }
    RowParent(db, t, root, k, "");
    if n > 0 {
      if q > 0 { RowSafe(db, t, root, q, n - 1); } else { RootSafe(db, t, root, n - 1); }
    }
  }

  /** Above a row is the row it names, or the root; and a row is not gone. */
  lemma RowParent(db: Db, t: seq<Row>, root: string, k: nat, p: string)
    requires Fit(db, t, root) && AllTakePart(db, t) && IsGroup(t, k)
    ensures t[k - 1].parentId < k && (t[k - 1].parentId > 0 ==> IsGroup(t, t[k - 1].parentId))
    ensures !Gone(db, t, t[k - 1].code)
    ensures IsAbove(db, t, root, p, t[k - 1].code) ==> p == ParentCode(t, root, t[k - 1].parentId)
  {
    RowIs(db, t, root, k);
    assert TakesPart(db, t[k - 1].code);
    assert t[k - 1].parentId <= k - 1;
    hide RowOf;
  }

  lemma RootSafe(db: Db, t: seq<Row>, root: string, n: nat)
    requires Fit(db, t, root)
    ensures !MeetsGone(db, t, root, root, n)
  {
    RootStays(db, t, root);
    hide MeetsGone; hide Fit;
  }

  function Flat(): string -> nat {
    (c: string) => 0
  }

  ghost function Tier(t: seq<Row>, root: string): string -> nat {
    c => if c == root then 2 else if RowOf(t, c, |t|) > 0 then 1 else 0
  }

  ghost function Rank(t: seq<Row>, height: string -> nat): string -> nat {
    c => if RowOf(t, c, |t|) > 0 then |t| - RowOf(t, c, |t|) else height(c)
  }

  /** If all take part, following the rows makes no cycle where there was none. */
  lemma NoNewCycle(db: Db, t: seq<Row>, root: string, height: string -> nat)
    requires Fit(db, t, root) && AllTakePart(db, t) && Acyclic(db.groups, Flat(), height)
    ensures NoCycle(db, t, root, Tier(t, root), Rank(t, height))
  {
    RootRow(db, t, root);
    forall c, p | IsAbove(db, t, root, p, c) ensures Lower(c, p, Tier(t, root), Rank(t, height)) {
      var k := RowOf(t, c, |t|);
      if k > 0 {
        var q := t[k - 1].parentId;
        assert q < k && (q > 0 ==> IsGroup(t, q));
        if q > 0 { RowIs(db, t, root, q); }
      }
    }
  }

  /** The groups left that take part and have a parent are exactly those of the rows that take part and
      do not come to lie below one that is gone. */
  lemma GroupsMirror(db: Db, t: seq<Row>, root: string, v: int, tier: string -> nat, rank: string -> nat,
                     d: set<string>, c: string)
    requires Ran(db, t, root, v, tier, rank, d)
    ensures var left := Followed(db, t, root, v).groups - d;
      (c in left && left[c].ldap == 1 && left[c].parentId != 0) <==>
      (exists k :: IsGroup(t, k) && t[k - 1].code == c) && TakesPart(db, c) && !Doomed(db, t, root, c)
  {
    var r, k := Followed(db, t, root, v), RowOf(t, c, |t|);
    FollowedIds(db, t, root, v);
    if c in r.groups {
      TakenIff(db, t, root, v, tier, rank, d, c);
      StaleIs(db, t, root, v, c);
    }
    hide Ran; hide Followed;
    if k > 0 {
      assert IsGroup(t, k) && t[k - 1].code == c;
      RowPlaced(db, t, root, v, k);
    } else if c in r.groups {
      OtherGroup(db, t, root, v, c);
      assert Gone(db, t, c) ==> MeetsGone(db, t, root, c, 0);
    }
    hide Fit; hide Rooted; hide RowOf; hide Doomed; hide MeetsGone;
  }

  lemma StaysPlaced(db: Db, t: seq<Row>, root: string, v: int, tier: string -> nat, rank: string -> nat, d: set<string>,
                    k: nat, users: map<string, User>)
    requires Ran(db, t, root, v, tier, rank, d) && IsGroup(t, k) && TakesPart(db, t[k - 1].code)
    requires !Doomed(db, t, root, t[k - 1].code)
    ensures Placed(Db(Followed(db, t, root, v).groups - d, users, 0), Cleared(db), t, root, v, k)
  {
    var r, p := Followed(db, t, root, v), ParentCode(t, root, t[k - 1].parentId);
    RowPlaced(db, t, root, v, k);
    RowIs(db, t, root, k);
    RootKept(db, t, root, v);
    RootStays(db, t, root);
    TakenIff(db, t, root, v, tier, rank, d, t[k - 1].code);
    TakenIff(db, t, root, v, tier, rank, d, p);
    TakenIff(db, t, root, v, tier, rank, d, root);
    hide Ran; hide Followed; hide Fit; hide Rooted; hide Cascade; hide Doomed;
  }

  // ----- Users -----

  /** Row j is a user row of this account. */
  ghost predicate Lists(t: seq<Row>, j: nat, account: string) {
    IsUser(t, j) && t[j - 1].code == account
  }

  lemma ListingLists(t: seq<Row>, account: string)
    requires Rooted(t) && LastVisit(t, AllVisits(t), account) > 0
    ensures Lists(t, LastVisit(t, AllVisits(t), account), account)
  {
    hide AllVisits; hide Rooted;
    VisitedIff(t, LastVisit(t, AllVisits(t), account));
  }

  lemma ListsListing(t: seq<Row>, account: string, j: nat)
    requires Rooted(t) && Lists(t, j, account)
    ensures LastVisit(t, AllVisits(t), account) > 0
  {
    assert 1 <= j <= |t| && IsUser(t, j) && t[j - 1].code == account;
    hide *;
    VisitedIff(t, j);
    VisitFound(t, AllVisits(t), account, j);
  }

  lemma VisitFound(t: seq<Row>, w: seq<nat>, account: string, j: nat)
    requires Ids(t, w) && j in w && 1 <= j <= |t| && t[j - 1].code == account
    ensures LastVisit(t, w, account) > 0
  {
    hide LastVisit;
    var i :| 0 <= i < |w| && w[i] == j;
  }

  /** An account is listed exactly when some user row carries it. */
  lemma VisitedIffListed(t: seq<Row>, account: string)
    requires Rooted(t)
    ensures LastVisit(t, AllVisits(t), account) > 0 <==> exists j :: Lists(t, j, account)
  {
    hide *;
    if LastVisit(t, AllVisits(t), account) > 0 { ListingLists(t, account); }
    if j :| Lists(t, j, account) { ListsListing(t, account, j); }
  }

  lemma UserFollowed(db: Db, t: seq<Row>, root: string, v: int, u: string)
    requires Fit(db, t, root) && Rooted(t) && root in db.groups
    ensures UserAt(Followed(db, t, root, v), Cleared(db), t, v, AllVisits(t), u)
  {
    FollowedInv(db, t, root, v);
    hide Followed; hide Inv; hide UserAt; hide Fit; hide Rooted; hide AllVisits; hide Cleared;
  }

  lemma IdGone(groups: map<string, Group>, d: set<string>, order: seq<nat>, c: string)
    requires UniqueIds(groups) && Called(groups, d, order) && c in groups
    ensures groups[c].id in order <==> c in d
    ensures IdSet(order) <= LiveIds(groups)
  {
    assert groups[c].id in IdSet(order) <==> groups[c].id in IdsOf(groups, d);
  }

  /** A run that left these users. */
  ghost predicate LeftUsers(db: Db, t: seq<Row>, root: string, v: int, d: set<string>, order: seq<nat>,
                            users: map<string, User>)
    requires Rooted(t) && root in db.groups
  {
    var r := Followed(db, t, root, v);
    && Called(r.groups, d, order) && OnlyAgain(order, IdsOf(r.groups, StaleGroups(r.groups)))
    && UsersAfter(CurrentUsers(r.users), users, LiveIds(r.groups), order)
  }

  /** The row an account follows, 0 without one. */
  function Listing(t: seq<Row>, account: string): nat
    requires Rooted(t)
  {
    LastVisit(t, AllVisits(t), account)
  }

  /** The code of the group row that a user row belongs to. */
  function GroupCode(t: seq<Row>, j: nat): string {
    if 1 <= j <= |t| && IsGroup(t, t[j - 1].parentId) then t[t[j - 1].parentId - 1].code else ""
  }

  /** A user that took part follows row j, and is disabled if its group is gone. */
  ghost predicate UserIs(users: map<string, User>, u: string, db0: Db, groups: map<string, Group>, t: seq<Row>, v: int,
                         j: nat, gone: bool) {
    && u in users && 1 <= j <= |t| && IsGroup(t, t[j - 1].parentId) && GroupCode(t, j) in groups
    && users[u] == User(t[j - 1].name, 1, Some(v), (u in db0.users ==> db0.users[u].enabled) && !gone, true,
         [groups[GroupCode(t, j)].id])
  }

  /** A listed user that takes part follows the row of its last listing, and is disabled exactly when the group of
      that row is taken; every other user that takes part in the synchronisation is deleted. */
  lemma UsersMirror(db: Db, t: seq<Row>, root: string, v: int, tier: string -> nat, rank: string -> nat, d: set<string>,
                    order: seq<nat>, users: map<string, User>, u: string)
    requires Ran(db, t, root, v, tier, rank, d) && LeftUsers(db, t, root, v, d, order, users)
    ensures u in users && users[u].ldap == 1 <==> Listing(t, u) > 0 && Syncs(db, u)
    ensures Listing(t, u) > 0 && Syncs(db, u) ==>
      var j := Listing(t, u);
      UserIs(users, u, db, Followed(db, t, root, v).groups, t, v, j, Doomed(db, t, root, GroupCode(t, j)))
  {
    var r, w := Followed(db, t, root, v), AllVisits(t);
    assert Fit(db, t, root) && Rooted(t) && root in db.groups;
    hide *;
    UserFollowed(db, t, root, v, u);
    FollowedIds(db, t, root, v);
    UniqueFrom(r);
    LeftParts(db, t, root, v, d, order, users);
    SyncsCleared(db, u);
    ListingIs(t, u);
    UserEnds(r, Cleared(db), t, v, w, d, order, users, u);
    var j := LastVisit(t, w, u);
    if j > 0 && Syncs(db, u) {
      TakenIff(db, t, root, v, tier, rank, d, GroupCode(t, j));
      UserCleared(users, u, db, r.groups, t, v, j, GroupCode(t, j) in d);
    }
  }

  lemma UserCleared(users: map<string, User>, u: string, db: Db, groups: map<string, Group>, t: seq<Row>, v: int,
                    j: nat, gone: bool)
    ensures UserIs(users, u, Cleared(db), groups, t, v, j, gone) <==> UserIs(users, u, db, groups, t, v, j, gone)
  {
  }

  lemma LeftParts(db: Db, t: seq<Row>, root: string, v: int, d: set<string>, order: seq<nat>, users: map<string, User>)
    requires Rooted(t) && root in db.groups && LeftUsers(db, t, root, v, d, order, users)
    ensures var r := Followed(db, t, root, v);
      && Called(r.groups, d, order) && OnlyAgain(order, IdsOf(r.groups, StaleGroups(r.groups)))
      && UsersAfter(CurrentUsers(r.users), users, LiveIds(r.groups), order)
  {
  }

  lemma ListingIs(t: seq<Row>, account: string)
    requires Rooted(t)
    ensures Listing(t, account) == LastVisit(t, AllVisits(t), account) <= |t|
  {
  }

  lemma SyncsCleared(db: Db, u: string)
    ensures Syncs(db, u) <==> Syncs(Cleared(db), u)
    ensures u in db.users <==> u in Cleared(db).users
    ensures u in db.users ==> Cleared(db).users[u] == db.users[u].(version := None)
  {
  }

  /** From a user after the rows were followed to the same user after the deletions. */
  lemma UserEnds(r: Db, db0: Db, t: seq<Row>, v: int, w: seq<nat>, d: set<string>, order: seq<nat>,
                 users: map<string, User>, u: string)
    requires UniqueIds(r.groups) && Called(r.groups, d, order) && Ids(t, w)
    requires UsersAfter(CurrentUsers(r.users), users, LiveIds(r.groups), order)
    requires UserAt(r, db0, t, v, w, u) && (u in db0.users ==> db0.users[u].version == None)
    ensures u in users && users[u].ldap == 1 <==> LastVisit(t, w, u) > 0 && Syncs(db0, u)
    ensures LastVisit(t, w, u) > 0 && Syncs(db0, u) ==>
      var j := LastVisit(t, w, u);
      GroupCode(t, j) in r.groups && UserIs(users, u, db0, r.groups, t, v, j, GroupCode(t, j) in d)
    ensures !(LastVisit(t, w, u) > 0 && Syncs(db0, u)) ==>
      && (u in users <==> u in db0.users && db0.users[u].ldap != 1)
      && (u in users ==> users[u] == CalledBack(db0.users[u], LiveIds(r.groups), order))
  {
    hide LastVisit; hide UniqueIds; hide Called; hide CalledBack; hide LiveIds;
    var j := LastVisit(t, w, u);
    if j > 0 && Syncs(db0, u) {
      var c := t[t[j - 1].parentId - 1].code;
      IdGone(r.groups, d, order, c);
      OnlyRelation(r.users[u], LiveIds(r.groups), order);
    } else if u in r.users {
      KeepsLdap(r.users[u], LiveIds(r.groups), order);
    }
  }

  lemma KeepsLdap(u: User, live: set<nat>, order: seq<nat>)
    ensures CalledBack(u, live, order).ldap == u.ldap
  {
    CalledBackIs(u, live, order);
  }

  /** A user that does not take part keeps all but the version and whether it is enabled; it is disabled exactly when
      it can be saved and a callback for one of its groups finds one relation left. */
  lemma LocalUser(db: Db, t: seq<Row>, root: string, v: int, tier: string -> nat, rank: string -> nat, d: set<string>,
                  order: seq<nat>, users: map<string, User>, u: string)
    requires Ran(db, t, root, v, tier, rank, d) && LeftUsers(db, t, root, v, d, order, users)
    requires u in db.users && db.users[u].ldap != 1
    ensures var was, live := db.users[u], LiveIds(Followed(db, t, root, v).groups);
      u in users && users[u] == was.(version := None,
        enabled := was.enabled && !(was.savable && Fires(was.rels, live, order)))
  {
    var r, w, was := Followed(db, t, root, v), AllVisits(t), db.users[u];
    assert Fit(db, t, root) && Rooted(t) && root in db.groups && !Syncs(db, u);
    hide *;
    UserFollowed(db, t, root, v, u);
    FollowedIds(db, t, root, v);
    UniqueFrom(r);
    LeftParts(db, t, root, v, d, order, users);
    SyncsCleared(db, u);
    UserEnds(r, Cleared(db), t, v, w, d, order, users, u);
    CalledBackIs(was.(version := None), LiveIds(r.groups), order);
  }

  /** The groups of the user, of which there is one, all come to lie at or below a group that is gone. */
  ghost predicate AllDoomed(db: Db, t: seq<Row>, root: string, v: int, rels: seq<nat>)
    requires Rooted(t) && root in db.groups
  {
    var groups := Followed(db, t, root, v).groups;
    (exists c :: c in groups && groups[c].id in rels)
      && forall c :: c in groups && groups[c].id in rels ==> Doomed(db, t, root, c)
  }

  /** A user that can be saved, is in no group twice, and whose groups are all doomed, ends disabled. */
  lemma LocalUserDisabled(db: Db, t: seq<Row>, root: string, v: int, tier: string -> nat, rank: string -> nat,
                          d: set<string>, order: seq<nat>, users: map<string, User>, u: string)
    requires Ran(db, t, root, v, tier, rank, d) && LeftUsers(db, t, root, v, d, order, users)
    requires u in db.users && db.users[u].ldap != 1 && db.users[u].savable && NoRepeats(db.users[u].rels)
    requires AllDoomed(db, t, root, v, db.users[u].rels)
    ensures u in users && !users[u].enabled
  {
    var groups, rels := Followed(db, t, root, v).groups, db.users[u].rels;
    var c :| c in groups && groups[c].id in rels;
    assert forall x :: x in groups && groups[x].id in rels ==> Doomed(db, t, root, x);
    assert Fit(db, t, root) && Rooted(t) && root in db.groups;
    hide *;
    LocalUser(db, t, root, v, tier, rank, d, order, users, u);
    FollowedIds(db, t, root, v);
    UniqueFrom(Followed(db, t, root, v));
    LeftParts(db, t, root, v, d, order, users);
    forall x | x in groups && groups[x].id in rels ensures x in d { TakenIff(db, t, root, v, tier, rank, d, x); }
    AllTaken(groups, d, order, rels, c);
  }

  /** A user with a group that stays, and none that the directory no longer has, is left as enabled as it was. */
  lemma LocalUserKept(db: Db, t: seq<Row>, root: string, v: int, tier: string -> nat, rank: string -> nat,
                      d: set<string>, order: seq<nat>, users: map<string, User>, u: string, c: string)
    requires Ran(db, t, root, v, tier, rank, d) && LeftUsers(db, t, root, v, d, order, users)
    requires u in db.users && db.users[u].ldap != 1
    requires c in Followed(db, t, root, v).groups && Followed(db, t, root, v).groups[c].id in db.users[u].rels
    requires !Doomed(db, t, root, c)
    requires forall x :: x in Followed(db, t, root, v).groups && Gone(db, t, x) ==>
      Followed(db, t, root, v).groups[x].id !in db.users[u].rels
    ensures u in users && users[u].enabled == db.users[u].enabled
  {
    var groups, rels := Followed(db, t, root, v).groups, db.users[u].rels;
    assert Fit(db, t, root) && Rooted(t) && root in db.groups;
    hide *;
    LocalUser(db, t, root, v, tier, rank, d, order, users, u);
    FollowedIds(db, t, root, v);
    UniqueFrom(Followed(db, t, root, v));
    LeftParts(db, t, root, v, d, order, users);
    TakenIff(db, t, root, v, tier, rank, d, c);
    forall x | x in groups && x in StaleGroups(groups) ensures groups[x].id !in rels { StaleIs(db, t, root, v, x); }
    NoneAgain(groups, d, order, StaleGroups(groups), rels, c);
  }

  /** With a relation to a group that stays, only a second run can fire. */
  lemma NoneAgain(groups: map<string, Group>, d: set<string>, order: seq<nat>, stale: set<string>, rels: seq<nat>,
                  c: string)
    requires UniqueIds(groups) && Called(groups, d, order) && stale <= groups.Keys && c in groups && c !in d
    requires OnlyAgain(order, IdsOf(groups, stale)) && groups[c].id in rels
    requires forall x :: x in groups && x in stale ==> groups[x].id !in rels
    ensures !Fires(rels, LiveIds(groups), order)
  {
    IdGone(groups, d, order, c);
    var live := LiveIds(groups);
    var k :| 0 <= k < |rels| && rels[k] == groups[c].id;
    assert rels[k] in live - IdSet(order);
    hide Called; hide UniqueIds; hide LiveIds;
    forall i: nat | i < |order| ensures !FiresAt(rels, live, order, i) {
      if RunsAgain(order, i) {
        assert order[i] in IdsOf(groups, stale);
      } else if FiresAt(rels, live, order, i) {
        FirstRunTakesLast(rels, live, order, i);
      }
    }
  }

  lemma AllTaken(groups: map<string, Group>, d: set<string>, order: seq<nat>, rels: seq<nat>, c: string)
    requires UniqueIds(groups) && Called(groups, d, order) && NoRepeats(rels) && c in groups && groups[c].id in rels
    requires forall x :: x in groups && groups[x].id in rels ==> x in d
    ensures Fires(rels, LiveIds(groups), order)
  {
    IdGone(groups, d, order, c);
    var live := LiveIds(groups);
    forall k | 0 <= k < |rels| ensures rels[k] !in live - IdSet(order) {
      if x :| x in groups && groups[x].id == rels[k] { IdGone(groups, d, order, x); }
    }
    hide Called; hide UniqueIds; hide LiveIds;
    LastGoneFires(rels, live, order, groups[c].id);
  }

  // ----- From the directory -----

  /** The directory below its root. */
  function Top(children: seq<Entry>): Entry {
    Entry("", "", [], children)
  }

  /** create_synchros */
  function Staged(children: seq<Entry>): seq<Row> {
    StageFirst([], Top(children), |children|, 0)
  }

  lemma {:induction false} StagedFirst(children: seq<Entry>, n: nat)
    requires n <= |children|
    ensures var t := StageFirst([], Top(children), n, 0);
      Rooted(t) && Edges(t, true) == GroupsInFirst(Top(children), n)
        && Edges(t, false) == UsersInFirst(Top(children), n)
  {
    if n > 0 {
      StagedFirst(children, n - 1);
      hide Edges; hide Rooted; hide Stage; hide GroupsIn; hide UsersIn;
      StageHolds(StageFirst([], Top(children), n - 1, 0), children[n - 1], 0);
    }
  }

  method CreateAll(children: seq<Entry>) returns (staging: Staging)
    ensures fresh(staging) && staging.rows == Staged(children)
  {
    staging := new Staging();
    for n := 0 to |children|
      invariant staging.rows == StageFirst([], Top(children), n, 0)
    {
      hide Stage;
      staging.CreateSynchros(children[n], 0);
    }
  }

  /** The group of the parent of an edge: the root's for an entry at the top. */
  function Parent(e: Edge, root: string): string {
    if e.parent == "" then root else e.parent
  }

  /** The group of an entry below the group of the entry above it and, unless that one does not take
      part, one level down. */
  ghost predicate Mirrors(db: Db, groups: map<string, Group>, e: Edge, root: string, v: int) {
    && e.code in groups && Parent(e, root) in groups
    && groups[e.code].ldap == 1 && groups[e.code].version == Some(v) && groups[e.code].name == e.name
    && groups[e.code].parentId == groups[Parent(e, root)].id
    && (Parent(e, root) == root || TakesPart(db, Parent(e, root)) ==>
       groups[e.code].level == groups[Parent(e, root)].level + 1)
  }

  lemma EdgeRow(t: seq<Row>, e: Edge, group: bool) returns (k: nat)
    requires e in Edges(t, group)
    ensures 1 <= k <= |t| && t[k - 1].group == group && EdgeAt(t, k - 1) == e && t[k - 1].code == e.code
  {
    var i :| 0 <= i < |t| && t[i].group == group && EdgeAt(t, i) == e;
    k := i + 1;
  }

  lemma RowEdge(t: seq<Row>, k: nat)
    requires 1 <= k <= |t|
    ensures EdgeAt(t, k - 1) in Edges(t, t[k - 1].group)
  {
  }

  lemma NoBlankCode(t: seq<Row>, k: nat)
    requires Rooted(t) && 1 <= k <= |t|
    ensures t[k - 1].code != ""
  {
  }

  lemma PlacedMirrors(db: Db, groups: map<string, Group>, t: seq<Row>, root: string, v: int, k: nat)
    requires Rooted(t) && Placed(Db(groups, map[], 0), Cleared(db), t, root, v, k) && TakesPart(db, t[k - 1].code)
    requires var q := t[k - 1].parentId; q > 0 && TakesPart(db, t[q - 1].code) ==>
      Placed(Db(groups, map[], 0), Cleared(db), t, root, v, q)
    requires forall i :: 0 <= i < |t| && t[i].group ==> t[i].code != root
    ensures Mirrors(db, groups, EdgeAt(t, k - 1), root, v)
  {
    var q := t[k - 1].parentId;
    assert q <= k - 1;
    if q > 0 { NoBlankCode(t, q); }
    assert Depth(t, k) == 1 + Depth(t, q);
    assert TakesPart(Cleared(db), t[k - 1].code);
    assert q > 0 ==> TakesPart(Cleared(db), t[q - 1].code) == TakesPart(db, t[q - 1].code);
  }

  /** Every entry of the directory that takes part and is not doomed has its group, under the group of the
      entry above it and one level down. */
  lemma TreeMirrored(db: Db, children: seq<Entry>, root: string, v: int, tier: string -> nat, rank: string -> nat,
                     d: set<string>, e: Edge)
    requires Ran(db, Staged(children), root, v, tier, rank, d)
    requires e in GroupsInFirst(Top(children), |children|) && TakesPart(db, e.code)
    requires !Doomed(db, Staged(children), root, e.code)
    ensures Mirrors(db, Followed(db, Staged(children), root, v).groups - d, e, root, v)
  {
    var t := Staged(children);
    StagedEdges(children);
    hide *;
    var k := EdgeRow(t, e, true);
    RowMirrored(db, t, root, v, tier, rank, d, k);
  }

  lemma RowMirrored(db: Db, t: seq<Row>, root: string, v: int, tier: string -> nat, rank: string -> nat, d: set<string>,
                    k: nat)
    requires Ran(db, t, root, v, tier, rank, d) && 1 <= k <= |t| && t[k - 1].group
    requires TakesPart(db, t[k - 1].code) && !Doomed(db, t, root, t[k - 1].code)
    ensures Mirrors(db, Followed(db, t, root, v).groups - d, EdgeAt(t, k - 1), root, v)
  {
    var q := t[k - 1].parentId;
    NoRootRow(db, t, root);
    assert Fit(db, t, root) && Rooted(t);
    hide Followed; hide Mirrors; hide Placed; hide Doomed; hide Fit; hide Rooted; hide Ran; hide TakesPart;
    StaysPlaced(db, t, root, v, tier, rank, d, k, map[]);
    if q > 0 && TakesPart(db, t[q - 1].code) {
      ParentStays(db, t, root, k);
      StaysPlaced(db, t, root, v, tier, rank, d, q, map[]);
    }
    PlacedMirrors(db, Followed(db, t, root, v).groups - d, t, root, v, k);
  }

  lemma NoRootRow(db: Db, t: seq<Row>, root: string)
    requires Fit(db, t, root)
    ensures forall i :: 0 <= i < |t| && t[i].group ==> t[i].code != root
    ensures forall i :: 0 <= i < |t| ==> t[i].parentId <= |t|
  {
    assert forall i :: 0 <= i < |t| ==> t[i].parentId <= i;
  }

  lemma ParentStays(db: Db, t: seq<Row>, root: string, k: nat)
    requires Fit(db, t, root) && IsGroup(t, k) && t[k - 1].parentId > 0
    requires TakesPart(db, t[k - 1].code) && !Doomed(db, t, root, t[k - 1].code)
    ensures IsGroup(t, t[k - 1].parentId) && !Doomed(db, t, root, t[t[k - 1].parentId - 1].code)
  {
    RowIs(db, t, root, k);
    var q := t[k - 1].parentId;
    assert q <= k - 1;
    assert IsAbove(db, t, root, t[q - 1].code, t[k - 1].code);
    hide Doomed; hide Fit; hide RowOf; hide IsAbove;
    if Doomed(db, t, root, t[q - 1].code) { DoomedBelow(db, t, root, t[k - 1].code, t[q - 1].code); }
  }

  /** The groups that take part and are not a root are exactly the directory's entries that take part and
      are not doomed. */
  lemma ExactlyTheEntries(db: Db, children: seq<Entry>, root: string, v: int, tier: string -> nat, rank: string -> nat,
                          d: set<string>, c: string)
    requires Ran(db, Staged(children), root, v, tier, rank, d)
    ensures var left := Followed(db, Staged(children), root, v).groups - d;
      (c in left && left[c].ldap == 1 && left[c].parentId != 0) <==>
      (exists e :: e in GroupsInFirst(Top(children), |children|) && e.code == c)
        && TakesPart(db, c) && !Doomed(db, Staged(children), root, c)
  {
    var t := Staged(children);
    StagedFirst(children, |children|);
    GroupsMirror(db, t, root, v, tier, rank, d, c);
    hide Staged; hide GroupsInFirst; hide Ran; hide Followed; hide Doomed; hide TakesPart;
    if k :| IsGroup(t, k) && t[k - 1].code == c { RowEdge(t, k); }
    if e :| e in Edges(t, true) && e.code == c {
      var k := EdgeRow(t, e, true);
      assert IsGroup(t, k);
    }
  }

  /** If every entry's group is new or takes part, every entry qualifies. */
  lemma EveryEntryStays(db: Db, children: seq<Entry>, root: string, e: Edge)
    requires Fit(db, Staged(children), root) && AllTakePart(db, Staged(children))
    requires e in GroupsInFirst(Top(children), |children|)
    ensures TakesPart(db, e.code) && !Doomed(db, Staged(children), root, e.code)
  {
    var t := Staged(children);
    StagedFirst(children, |children|);
    hide Staged; hide GroupsInFirst; hide Fit; hide Doomed; hide Edges;
    var k := EdgeRow(t, e, true);
    NoneLost(db, t, root, k);
  }

  lemma UserRowEdge(t: seq<Row>, u: string)
    ensures (exists j :: Lists(t, j, u)) <==> exists e :: e in Edges(t, false) && e.code == u
  {
    hide Edges;
    if e :| e in Edges(t, false) && e.code == u { var k := EdgeRow(t, e, false); assert Lists(t, k, u); }
    if j :| Lists(t, j, u) { RowEdge(t, j); }
  }

  lemma ListedEdge(t: seq<Row>, u: string, j: nat)
    requires Rooted(t) && IsUser(t, j) && t[j - 1].code == u && IsGroup(t, t[j - 1].parentId)
    ensures EdgeAt(t, j - 1) in Edges(t, false) && EdgeAt(t, j - 1).code == u
    ensures EdgeAt(t, j - 1).parent == t[t[j - 1].parentId - 1].code && EdgeAt(t, j - 1).name == t[j - 1].name
  {
    hide Edges;
    RowEdge(t, j);
  }

  /** The users that take part are exactly those the directory lists and that can be saved; each has the name and,
      as its only group, the group of one of its listings, and is disabled exactly when that group is doomed. */
  lemma ExactlyTheUsers(db: Db, children: seq<Entry>, root: string, v: int, tier: string -> nat, rank: string -> nat,
                        d: set<string>, order: seq<nat>, users: map<string, User>, u: string)
    requires Ran(db, Staged(children), root, v, tier, rank, d)
    requires LeftUsers(db, Staged(children), root, v, d, order, users)
    ensures u in users && users[u].ldap == 1 <==>
      Syncs(db, u) && exists e :: e in UsersInFirst(Top(children), |children|) && e.code == u
    ensures u in users && users[u].ldap == 1 ==>
      exists e :: e in UsersInFirst(Top(children), |children|) && Sits(db,
        Followed(db, Staged(children), root, v).groups, d, users, u, e, Doomed(db, Staged(children), root, e.parent))
  {
    RanRooted(db, Staged(children), root, v, tier, rank, d);
    hide *;
    StagedEdges(children);
    UsersOfRows(db, Staged(children), root, v, tier, rank, d, order, users, u);
  }

  lemma UsersOfRows(db: Db, t: seq<Row>, root: string, v: int, tier: string -> nat, rank: string -> nat, d: set<string>,
                    order: seq<nat>, users: map<string, User>, u: string)
    requires Ran(db, t, root, v, tier, rank, d) && LeftUsers(db, t, root, v, d, order, users)
    ensures u in users && users[u].ldap == 1 <==> Syncs(db, u) && exists e :: e in Edges(t, false) && e.code == u
    ensures u in users && users[u].ldap == 1 ==>
      exists e :: e in Edges(t, false)
        && Sits(db, Followed(db, t, root, v).groups, d, users, u, e, Doomed(db, t, root, e.parent))
  {
    RanRooted(db, t, root, v, tier, rank, d);
    hide *;
    UsersMirror(db, t, root, v, tier, rank, d, order, users, u);
    VisitedIffListed(t, u);
    ListingIs(t, u);
    UserRowEdge(t, u);
    if u in users && users[u].ldap == 1 { ListingSits(db, t, root, v, tier, rank, d, users, u, Listing(t, u)); }
  }

  lemma ListingSits(db: Db, t: seq<Row>, root: string, v: int, tier: string -> nat, rank: string -> nat,
                    d: set<string>, users: map<string, User>, u: string, j: nat)
    requires Ran(db, t, root, v, tier, rank, d) && j == Listing(t, u) > 0
    requires UserIs(users, u, db, Followed(db, t, root, v).groups, t, v, j, Doomed(db, t, root, GroupCode(t, j)))
    ensures exists e :: e in Edges(t, false) &&
                   Sits(db, Followed(db, t, root, v).groups, d, users, u, e, Doomed(db, t, root, e.parent))
  {
    assert GroupCode(t, j) in Followed(db, t, root, v).groups;
    RanRooted(db, t, root, v, tier, rank, d);
    hide *;
    ListingRow(t, u);
    TakenIff(db, t, root, v, tier, rank, d, GroupCode(t, j));
    RowSits(db, Followed(db, t, root, v).groups, t, d, v, users, u, j, Doomed(db, t, root, GroupCode(t, j)));
  }

  /** A user as one listing says; its group stays, and the user enabled, unless the group is gone. */
  ghost predicate Sits(db: Db, groups: map<string, Group>, d: set<string>, users: map<string, User>, u: string, e: Edge,
                       gone: bool) {
    && u in users && e.code == u && users[u].name == e.name && e.parent in groups
    && users[u].rels == [groups[e.parent].id] && (e.parent in groups - d <==> !gone)
    && (users[u].enabled <==> (u in db.users ==> db.users[u].enabled) && !gone)
  }

  lemma RowSits(db: Db, groups: map<string, Group>, t: seq<Row>, d: set<string>, v: int, users: map<string, User>,
                u: string, j: nat, gone: bool)
    requires Rooted(t) && IsUser(t, j) && t[j - 1].code == u && UserIs(users, u, db, groups, t, v, j, gone)
    requires GroupCode(t, j) in d <==> gone
    ensures EdgeAt(t, j - 1) in Edges(t, false) && EdgeAt(t, j - 1).parent == GroupCode(t, j)
    ensures Sits(db, groups, d, users, u, EdgeAt(t, j - 1), gone)
  {
    hide Edges;
    ListedEdge(t, u, j);
  }

  lemma ListingRow(t: seq<Row>, u: string)
    requires Rooted(t) && Listing(t, u) > 0
    ensures IsUser(t, Listing(t, u)) && t[Listing(t, u) - 1].code == u
  {
    hide AllVisits; hide Rooted;
    VisitedIff(t, Listing(t, u));
  }

  lemma RanRooted(db: Db, t: seq<Row>, root: string, v: int, tier: string -> nat, rank: string -> nat, d: set<string>)
    requires Ran(db, t, root, v, tier, rank, d)
    ensures Rooted(t) && root in db.groups
  {
  }

  lemma StagedEdges(children: seq<Entry>)
    ensures Edges(Staged(children), true) == GroupsInFirst(Top(children), |children|)
    ensures Edges(Staged(children), false) == UsersInFirst(Top(children), |children|)
  {
    StagedFirst(children, |children|);
  }

  // ----- A group that does not take part -----

  /** Entry a with entry b below it. */
  const TWO_ROWS := [Row(0, true, "a", "a", ""), Row(1, true, "b", "b", "")]

  /** Group a exists, does not take part, and lies below the stale group s. */
  function Before(): Db {
    Db(map["r" := Group(1, 0, 0, "r", 1, None), "s" := Group(2, 1, 1, "s", 1, None),
      "a" := Group(3, 2, 2, "a", 0, None)], map[], 4)
  }

  lemma TwoRowsOf()
    ensures RowOf(TWO_ROWS, "a", 2) == 1 && RowOf(TWO_ROWS, "b", 2) == 2 && RowOf(TWO_ROWS, "s", 2) == 0
  {
    var t := TWO_ROWS;
    assert t[0] == Row(0, true, "a", "a", "") && t[1] == Row(1, true, "b", "b", "");
    assert RowOf(t, "a", 0) == RowOf(t, "b", 0) == RowOf(t, "s", 0) == 0;
    assert RowOf(t, "a", 1) == 1 && RowOf(t, "b", 1) == RowOf(t, "s", 1) == 0;
  }

  /** The way up from b: to its new parent a, which does not take part and keeps its parent, the stale group s. */
  lemma NewGroupDoomed()
    ensures TakesPart(Before(), "b") && Doomed(Before(), TWO_ROWS, "r", "b")
  {
    var t, db := TWO_ROWS, Before();
    TwoRowsOf();
    assert Gone(db, t, "s");
    assert IsAbove(db, t, "r", "s", "a") && IsAbove(db, t, "r", "a", "b");
    assert MeetsGone(db, t, "r", "s", 0);
    assert MeetsGone(db, t, "r", "a", 1);
    assert MeetsGone(db, t, "r", "b", 2);
  }

  lemma RowThere(db: Db, t: seq<Row>, root: string, v: int, tier: string -> nat, rank: string -> nat, d: set<string>,
                 k: nat)
    requires Ran(db, t, root, v, tier, rank, d) && IsGroup(t, k)
    ensures t[k - 1].code in Followed(db, t, root, v).groups
  {
    RowPlaced(db, t, root, v, k);
    hide Followed; hide Fit; hide Rooted; hide NoCycle; hide Cascade;
  }

  /** The cascade of the stale group s takes the new group b as well. */
  lemma NewGroupLost(v: int, tier: string -> nat, rank: string -> nat, d: set<string>)
    requires Ran(Before(), TWO_ROWS, "r", v, tier, rank, d)
    ensures TakesPart(Before(), "b") && "b" in d
  {
    assert IsGroup(TWO_ROWS, 2) && TWO_ROWS[1].code == "b";
    hide *;
    NewGroupDoomed();
    RowThere(Before(), TWO_ROWS, "r", v, tier, rank, d, 2);
    TakenIff(Before(), TWO_ROWS, "r", v, tier, rank, d, "b");
  }
}
