/** The whole synchronisation: versions are cleared, rows followed, and stale records deleted with their cascades
    through child groups and the users of each group. */
module LdapRun {
  import opened Collections
  import opened LdapCallbacks
  import opened LdapSync
  import opened Wrappers

  function Cleared(db: Db): Db {
    Db(map c | c in db.groups :: db.groups[c].(version := None), map u | u in db.users ::
      db.users[u].(version := None), db.nextId)
  }

  /** Parents rank above children, so cascades end. */
  ghost predicate Acyclic(groups: map<string, Group>, tier: string -> nat, rank: string -> nat) {
    forall c, d :: c in groups && d in groups && groups[c].parentId == groups[d].id ==>
      tier(c) < tier(d) || (tier(c) == tier(d) && rank(c) < rank(d))
  }

  ghost predicate UniqueIds(groups: map<string, Group>) {
    && (forall c :: c in groups ==> groups[c].id >= 1)
    && forall c, d :: c in groups && d in groups && groups[c].id == groups[d].id ==> c == d
  }

  predicate Stale(g: Group) {
    g.parentId != 0 && g.ldap == 1 && g.version == None
  }

  /** D is removed from the groups together with everything below it, and holds `from` and what lies below. */
  ghost predicate Cascade(groups: map<string, Group>, from: set<string>, d: set<string>) {
    && from <= d <= groups.Keys
    && (forall c, p :: c in groups && p in d && groups[c].parentId == groups[p].id ==> c in d)
    && forall c :: c in d && c !in from ==> exists p :: p in d && groups[c].parentId == groups[p].id
  }

  ghost function IdsOf(groups: map<string, Group>, d: set<string>): set<nat>
    requires d <= groups.Keys
  {
    set c | c in d :: groups[c].id
  }

  ghost predicate Lower(c: string, top: string, tier: string -> nat, rank: string -> nat) {
    tier(c) < tier(top) || (tier(c) == tier(top) && rank(c) < rank(top))
  }

  ghost function Children(groups: map<string, Group>, id: nat): set<string> {
    set c | c in groups && groups[c].parentId == id
  }

  /** While a group's children are destroyed: `todo` are left, d is gone. */
  ghost predicate Partly(groups: map<string, Group>, code: string, todo: set<string>, d: set<string>,
                         tier: string -> nat, rank: string -> nat)
    requires code in groups
  {
    && todo <= Children(groups, groups[code].id) && todo !! d && code !in d
    && Cascade(groups, Children(groups, groups[code].id) - todo, d)
    && forall c :: c in d ==> Lower(c, code, tier, rank)
  }

  lemma PartlyStart(groups: map<string, Group>, code: string, tier: string -> nat, rank: string -> nat)
    requires code in groups
    ensures Partly(groups, code, Children(groups, groups[code].id), {}, tier, rank)
  {
  }

  lemma SubAcyclic(groups: map<string, Group>, d: set<string>, tier: string -> nat, rank: string -> nat)
    requires Acyclic(groups, tier, rank) && UniqueIds(groups)
    ensures Acyclic(groups - d, tier, rank) && UniqueIds(groups - d)
  {
  }

  /** Cascades after one another make one cascade. */
  lemma CascadeOn(groups: map<string, Group>, from: set<string>, d: set<string>, more: set<string>, e: set<string>)
    requires Cascade(groups, from, d) && Cascade(groups - d, more, e)
    ensures Cascade(groups, from + more, d + e)
  {
    forall c, p | c in groups && p in d + e && groups[c].parentId == groups[p].id ensures c in d + e {
      if c !in d && p !in d { assert c in groups - d && p in groups - d; }
    }
  }

  /** A cascade below one child leaves the other children alone. */
  lemma OtherKids(groups: map<string, Group>, code: string, d: set<string>, tier: string -> nat, rank: string -> nat,
                  c: string, e: set<string>, x: string)
    requires code in groups && code !in d && Acyclic(groups, tier, rank) && UniqueIds(groups)
    requires c in Children(groups, groups[code].id) && x in Children(groups, groups[code].id) && x != c
    requires Cascade(groups - d, {c}, e) && forall y :: y in e ==> y == c || Lower(y, c, tier, rank)
    ensures x !in e && code !in e
  {
    ChildLower(groups, code, tier, rank, c);
    ChildLower(groups, code, tier, rank, x);
    hide Acyclic; hide Children;
    assert code !in e;
    if x in groups - d {
      forall p | p in e && p in groups - d ensures (groups - d)[x].parentId != (groups - d)[p].id {
        assert p != code && groups[p].id != groups[code].id;
      }
      NotTaken(groups - d, {c}, e, x);
    }
  }

  lemma ChildLower(groups: map<string, Group>, code: string, tier: string -> nat, rank: string -> nat, c: string)
    requires code in groups && Acyclic(groups, tier, rank) && c in Children(groups, groups[code].id)
    ensures Lower(c, code, tier, rank) && c in groups && groups[c].parentId == groups[code].id
  {
  }

  lemma NotTaken(groups: map<string, Group>, from: set<string>, d: set<string>, x: string)
    requires Cascade(groups, from, d) && x !in from
    requires x in groups && forall p :: p in d && p in groups ==> groups[x].parentId != groups[p].id
    ensures x !in d
  {
  }

  lemma BelowKid(groups: map<string, Group>, code: string, tier: string -> nat, rank: string -> nat, c: string,
                 e: set<string>)
    requires code in groups && Acyclic(groups, tier, rank) && c in Children(groups, groups[code].id)
    requires forall y :: y in e ==> y == c || Lower(y, c, tier, rank)
    ensures forall y :: y in e ==> Lower(y, code, tier, rank)
  {
    assert Lower(c, code, tier, rank);
  }

  lemma PartlyNext(groups: map<string, Group>, code: string, todo: set<string>, d: set<string>, tier: string -> nat,
                   rank: string -> nat,
                   c: string, e: set<string>)
    requires code in groups && Partly(groups, code, todo, d, tier, rank) && c in todo && Acyclic(groups, tier, rank)
    requires UniqueIds(groups)
    requires Cascade(groups - d, {c}, e) && forall x :: x in e ==> x == c || Lower(x, c, tier, rank)
    ensures Partly(groups, code, todo - {c}, d + e, tier, rank)
  {
    var kids := Children(groups, groups[code].id);
    BelowKid(groups, code, tier, rank, c, e);
    hide Children; hide Acyclic; hide UniqueIds; hide Cascade;
    CascadeOn(groups, kids - todo, d, {c}, e);
    assert kids - todo + {c} == kids - (todo - {c});
    assert code !in e;
    forall x | x in todo && x != c ensures x !in e { OtherKids(groups, code, d, tier, rank, c, e, x); }
  }

  lemma PartlyDone(groups: map<string, Group>, code: string, d: set<string>, tier: string -> nat, rank: string -> nat)
    requires code in groups && UniqueIds(groups) && Partly(groups, code, {}, d, tier, rank)
    ensures Cascade(groups, {code}, d + {code})
  {
    assert forall c :: c in Children(groups, groups[code].id) ==> c in d;
  }

  // ----- The order of the callbacks -----

  /** The callbacks of a cascade that takes d: each group's runs after those of the groups below it. */
  ghost predicate Called(groups: map<string, Group>, d: set<string>, order: seq<nat>) {
    && d <= groups.Keys && IdSet(order) == IdsOf(groups, d)
    && forall c, p :: c in groups && p in groups && groups[c].parentId == groups[p].id ==>
         Before(order, groups[c].id, groups[p].id)
  }

  /** Whenever p's callback runs, c's has run. */
  ghost predicate Before(order: seq<nat>, c: nat, p: nat) {
    forall i :: 0 <= i < |order| && order[i] == p ==> c in order[..i]
  }

  /** Only callbacks of these groups run again. */
  ghost predicate OnlyAgain(order: seq<nat>, ids: set<nat>) {
    forall i: nat :: i < |order| && RunsAgain(order, i) ==> order[i] in ids
  }

  lemma NoneCalled(groups: map<string, Group>)
    ensures Called(groups, {}, []) && OnlyAgain([], {})
  {
  }

  lemma BeforeOn(x: seq<nat>, y: seq<nat>, c: nat, p: nat)
    requires Before(x, c, p) && (p in y ==> c in x || Before(y, c, p))
    ensures Before(x + y, c, p)
  {
    var order := x + y;
    forall i | 0 <= i < |order| && order[i] == p ensures c in order[..i] {
      if i < |x| {
        assert order[..i] == x[..i];
      } else {
        assert y[i - |x|] == p;
        assert order[..i] == x + y[..i - |x|];
      }
    }
  }

  lemma LiveLeft(groups: map<string, Group>, d: set<string>)
    requires UniqueIds(groups) && d <= groups.Keys
    ensures LiveIds(groups - d) == LiveIds(groups) - IdsOf(groups, d)
  {
    forall id ensures id in LiveIds(groups - d) <==> id in LiveIds(groups) - IdsOf(groups, d) {
      if c :| c in groups && c !in d && groups[c].id == id { assert c in groups - d; }
    }
  }

  lemma CalledOn(groups: map<string, Group>, d: set<string>, x: seq<nat>, e: set<string>, y: seq<nat>)
    requires Called(groups, d, x) && Called(groups - d, e, y) && UniqueIds(groups)
    ensures Called(groups, d + e, x + y) && IdSet(x) !! IdSet(y)
    ensures LiveIds(groups - d) == LiveIds(groups) - IdSet(x)
  {
    LiveLeft(groups, d);
    IdsUnion(groups, d, e);
    assert IdSet(x + y) == IdSet(x) + IdSet(y);
    forall c, p | c in groups && p in groups && groups[c].parentId == groups[p].id
      ensures Before(x + y, groups[c].id, groups[p].id)
    {
      hide Before;
      if groups[p].id in y {
        assert groups[p].id in IdSet(y);
        assert p in groups - d;
        if c in d {
          assert groups[c].id in IdSet(x);
        } else {
          assert c in groups - d;
          assert Before(y, (groups - d)[c].id, (groups - d)[p].id);
        }
      }
      BeforeOn(x, y, groups[c].id, groups[p].id);
    }
  }

  lemma CalledAgain(groups: map<string, Group>, d: set<string>, x: seq<nat>, c: string)
    requires Called(groups, d, x) && c in d && UniqueIds(groups)
    ensures Called(groups, d, x + [groups[c].id])
  {
    var y := [groups[c].id];
    assert groups[c].id in IdSet(x);
    assert IdSet(x + y) == IdSet(x);
    forall b, p | b in groups && p in groups && groups[b].parentId == groups[p].id
      ensures Before(x + y, groups[b].id, groups[p].id)
    {
      BeforeOn(x, y, groups[b].id, groups[p].id);
    }
  }

  lemma OwnCallback(groups: map<string, Group>, code: string, d: set<string>, x: seq<nat>)
    requires Called(groups, d, x) && code in groups && code !in d && UniqueIds(groups)
    requires Children(groups, groups[code].id) <= d
    ensures Called(groups, d + {code}, x + [groups[code].id]) && groups[code].id !in x
    ensures LiveIds(groups - d) == LiveIds(groups) - IdSet(x)
  {
    var y := [groups[code].id];
    LiveLeft(groups, d);
    assert IdSet(x + y) == IdSet(x) + {groups[code].id};
    assert IdsOf(groups, d + {code}) == IdsOf(groups, d) + {groups[code].id};
    assert groups[code].id !in IdSet(x);
    forall b, p | b in groups && p in groups && groups[b].parentId == groups[p].id
      ensures Before(x + y, groups[b].id, groups[p].id)
    {
      if p == code {
        assert b in Children(groups, groups[code].id);
        assert groups[b].id in IdSet(x);
      }
      BeforeOn(x, y, groups[b].id, groups[p].id);
    }
  }

  lemma NewCallback(x: seq<nat>, y: seq<nat>, i: nat)
    requires NoRepeats(y) && IdSet(x) !! IdSet(y) && i < |y|
    ensures !RunsAgain(x + y, |x| + i)
  {
    assert (x + y)[..|x| + i] == x + y[..i];
    assert y[i] in IdSet(y);
    assert y[i] !in IdSet(x);
  }

  lemma AgainOn(x: seq<nat>, y: seq<nat>, ids: set<nat>)
    requires OnlyAgain(x, ids) && NoRepeats(y) && IdSet(x) !! IdSet(y)
    ensures OnlyAgain(x + y, ids)
  {
    var order := x + y;
    forall i: nat | |x| <= i < |order| ensures !RunsAgain(order, i) { NewCallback(x, y, i - |x|); }
    forall i: nat | i < |order| && RunsAgain(order, i) ensures order[i] in ids {
      assert order[..i] == x[..i];
      assert RunsAgain(x, i);
    }
  }

  lemma AgainOne(x: seq<nat>, id: nat, ids: set<nat>)
    requires OnlyAgain(x, ids) && id in ids
    ensures OnlyAgain(x + [id], ids)
  {
    var order := x + [id];
    forall i: nat | i < |order| && RunsAgain(order, i) ensures order[i] in ids {
      if i < |x| {
        assert order[..i] == x[..i];
        assert RunsAgain(x, i);
      }
    }
  }

  lemma IdsUnion(groups: map<string, Group>, d: set<string>, e: set<string>)
    requires d <= groups.Keys && e <= (groups - d).Keys
    ensures IdsOf(groups, d + e) == IdsOf(groups, d) + IdsOf(groups - d, e)
  {
  }

  lemma CascadeKeys(groups: map<string, Group>, from: set<string>, d: set<string>)
    requires Cascade(groups, from, d)
    ensures d <= groups.Keys
  {
  }

  lemma Finish(groups: map<string, Group>, d: set<string>, code: string)
    requires d <= groups.Keys && code in groups && code !in d
    ensures IdsOf(groups, d + {code}) == IdsOf(groups, d) + {groups[code].id}
    ensures groups - d - {code} == groups - (d + {code})
  {
  }

  // ----- The methods -----

  method DisableUsers(dir: Directory, id: nat)
    modifies dir`users
    ensures UsersAfter(old(dir.users), dir.users, LiveIds(dir.groups), [id])
  {
    var live := LiveIds(dir.groups);
    ghost var before := dir.users;
    dir.users := map u | u in dir.users :: Disabled(dir.users[u], id, live);
    OneCallback(before, dir.users, live, id);
  }

  /** The dependent children of a group; `order` are the ids of the groups destroyed. */
  method DestroyChildren(dir: Directory, code: string, ghost tier: string -> nat, ghost rank: string -> nat)
    returns (ghost d: set<string>, ghost order: seq<nat>)
    requires code in dir.groups && Acyclic(dir.groups, tier, rank) && UniqueIds(dir.groups)
    modifies dir
    ensures Partly(old(dir.groups), code, {}, d, tier, rank) && Called(old(dir.groups), d, order) && NoRepeats(order)
    ensures dir.groups == old(dir.groups) - d && dir.nextId == old(dir.nextId)
    ensures UsersAfter(old(dir.users), dir.users, LiveIds(old(dir.groups)), order)
    decreases tier(code), rank(code), 0
  {
    var id := dir.groups[code].id;
    var todo := set c | c in dir.groups && dir.groups[c].parentId == id;
    ghost var before, users0 := dir.groups, dir.users;
    d, order := {}, [];
    PartlyStart(before, code, tier, rank);
    NoneCalled(before);
    assert todo == Children(before, id);
    hide Partly; hide Called; hide UsersAfter; hide LiveIds; hide Acyclic; hide UniqueIds; hide NoRepeats;
    while todo != {}
      invariant Partly(before, code, todo, d, tier, rank) && dir.groups == before - d && dir.nextId == old(dir.nextId)
      invariant Called(before, d, order) && NoRepeats(order) && UsersAfter(users0, dir.users, LiveIds(before), order)
      decreases |todo|
    {
      var c :| c in todo;
      TodoLower(before, code, todo, d, tier, rank, c);
      d, order := DestroyChild(dir, code, c, before, users0, todo, d, order, tier, rank);
      todo := todo - {c};
    }
  }

  /** One of the children; `gone` and `ran` are what the children before it left. */
  method DestroyChild(dir: Directory, code: string, c: string, ghost before: map<string, Group>,
                      ghost users0: map<string, User>, ghost todo: set<string>, ghost gone: set<string>,
                      ghost ran: seq<nat>, ghost tier: string -> nat, ghost rank: string -> nat)
    returns (ghost d: set<string>, ghost order: seq<nat>)
    requires code in before && Acyclic(before, tier, rank) && UniqueIds(before) && dir.groups == before - gone
    requires Partly(before, code, todo, gone, tier, rank) && c in todo && c in before - gone
    requires Called(before, gone, ran) && NoRepeats(ran) && UsersAfter(users0, dir.users, LiveIds(before), ran)
    modifies dir
    ensures Partly(before, code, todo - {c}, d, tier, rank) && dir.groups == before - d
    ensures Called(before, d, order) && NoRepeats(order) && UsersAfter(users0, dir.users, LiveIds(before), order)
    ensures dir.nextId == old(dir.nextId)
    decreases tier(c), rank(c), 2
  {
    hide *;
    SubAcyclic(before, gone, tier, rank);
    ghost var users1 := dir.users;
    ghost var e, y := Destroy(dir, c, tier, rank);
    PartlyNext(before, code, todo, gone, tier, rank, c, e);
    CalledOn(before, gone, ran, e, y);
    SetsApart(ran, y);
    NoRepeatsJoin(ran, y);
    UsersAfterOn(users0, users1, dir.users, LiveIds(before), ran, y);
    assert before - gone - e == before - (gone + e);
    d, order := gone + e, ran + y;
  }

  lemma TodoLower(groups: map<string, Group>, code: string, todo: set<string>, d: set<string>, tier: string -> nat,
                  rank: string -> nat, c: string)
    requires code in groups && Partly(groups, code, todo, d, tier, rank) && c in todo && Acyclic(groups, tier, rank)
    ensures c in groups - d && (tier(c) < tier(code) || (tier(c) == tier(code) && rank(c) < rank(code)))
  {
    ChildLower(groups, code, tier, rank, c);
  }

  lemma SetsApart(x: seq<nat>, y: seq<nat>)
    requires IdSet(x) !! IdSet(y)
    ensures forall id :: id in x ==> id !in y
  {
    forall id | id in x ensures id !in y { assert id in IdSet(x); }
  }

  lemma PartlyLower(groups: map<string, Group>, code: string, d: set<string>, tier: string -> nat, rank: string -> nat)
    requires code in groups && Partly(groups, code, {}, d, tier, rank)
    ensures code !in d && Children(groups, groups[code].id) <= d && forall c :: c in d ==> Lower(c, code, tier, rank)
  {
  }

  /** Group#destroy: children first, then the users, then the row. */
  method Destroy(dir: Directory, code: string, ghost tier: string -> nat, ghost rank: string -> nat)
    returns (ghost d: set<string>, ghost order: seq<nat>)
    requires code in dir.groups && Acyclic(dir.groups, tier, rank) && UniqueIds(dir.groups)
    modifies dir
    ensures Cascade(old(dir.groups), {code}, d) && dir.groups == old(dir.groups) - d && dir.nextId == old(dir.nextId)
    ensures Called(old(dir.groups), d, order) && NoRepeats(order)
    ensures UsersAfter(old(dir.users), dir.users, LiveIds(old(dir.groups)), order)
    ensures forall c :: c in d ==> c == code || Lower(c, code, tier, rank)
    decreases tier(code), rank(code), 1
  {
    hide *;
    var id := dir.groups[code].id;
    ghost var before, users0 := dir.groups, dir.users;
    ghost var x;
    d, x := DestroyChildren(dir, code, tier, rank);
    PartlyDone(before, code, d, tier, rank);
    PartlyLower(before, code, d, tier, rank);
    Finish(before, d, code);
    OwnCallback(before, code, d, x);
    ghost var users1 := dir.users;
    DisableUsers(dir, id);
    UsersAfterOn(users0, users1, dir.users, LiveIds(before), x, [id]);
    OneMore(x, id);
    dir.groups := dir.groups - {code};
    d, order := d + {code}, x + [id];
  }

  lemma OneMore(x: seq<nat>, id: nat)
    requires NoRepeats(x) && id !in x
    ensures NoRepeats(x + [id])
  {
  }

  ghost function StaleGroups(groups: map<string, Group>): set<string> {
    set c | c in groups && Stale(groups[c])
  }

  lemma IdIn(groups: map<string, Group>, d: set<string>, c: string)
    requires d <= groups.Keys && c in d
    ensures groups[c].id in IdsOf(groups, d)
  {
  }

  lemma CascadeHas(groups: map<string, Group>, from: set<string>, d: set<string>, c: string)
    requires Cascade(groups, from, d) && c in d
    ensures Cascade(groups, from + {c}, d)
  {
  }

  /** destroy on a record loaded earlier: if a cascade already took its row, only the callbacks run again. `ran` are
      the callbacks before, `order` those with the ones of this call. */
  method DestroyLoaded(dir: Directory, loaded: map<string, Group>, c: string, ghost from: set<string>,
                       ghost gone: set<string>, ghost ran: seq<nat>, ghost ids: set<nat>,
                       ghost users0: map<string, User>, ghost tier: string -> nat, ghost rank: string -> nat)
    returns (ghost d: set<string>, ghost order: seq<nat>)
    requires c in loaded && dir.groups == loaded - gone && Cascade(loaded, from, gone) && Acyclic(loaded, tier, rank)
    requires UniqueIds(loaded) && Called(loaded, gone, ran) && OnlyAgain(ran, ids) && loaded[c].id in ids
    requires UsersAfter(users0, dir.users, LiveIds(loaded), ran)
    modifies dir
    ensures Cascade(loaded, from + {c}, d) && gone <= d && dir.groups == loaded - d
    ensures dir.nextId == old(dir.nextId)
    ensures Called(loaded, d, order) && OnlyAgain(order, ids) && UsersAfter(users0, dir.users, LiveIds(loaded), order)
  {
    ghost var users1 := dir.users;
    CascadeKeys(loaded, from, gone);
    assert c !in dir.groups ==> c in gone;
    hide *;
    SubAcyclic(loaded, gone, tier, rank);
    if c in dir.groups {
      ghost var e, y := Destroy(dir, c, tier, rank);
      CascadeOn(loaded, from, gone, {c}, e);
      CalledOn(loaded, gone, ran, e, y);
      AgainOn(ran, y, ids);
      UsersAfterOn(users0, users1, dir.users, LiveIds(loaded), ran, y);
      assert loaded - gone - e == loaded - (gone + e);
      d, order := gone + e, ran + y;
    } else {
      StillLive(loaded, gone, ran);
      DisableUsers(dir, loaded[c].id);
      CalledAgain(loaded, gone, ran, c);
      AgainOne(ran, loaded[c].id, ids);
      UsersAfterOn(users0, users1, dir.users, LiveIds(loaded), ran, [loaded[c].id]);
      CascadeHas(loaded, from, gone, c);
      d, order := gone, ran + [loaded[c].id];
    }
  }

  lemma StillLive(groups: map<string, Group>, d: set<string>, x: seq<nat>)
    requires Called(groups, d, x) && UniqueIds(groups)
    ensures LiveIds(groups - d) == LiveIds(groups) - IdSet(x)
  {
    LiveLeft(groups, d);
  }

  lemma NothingGone(groups: map<string, Group>, users: map<string, User>, ids: set<nat>)
    ensures Cascade(groups, {}, {}) && Called(groups, {}, []) && OnlyAgain([], ids) && groups - {} == groups
    ensures UsersAfter(users, users, LiveIds(groups), [])
  {
  }

  /** destroy_all on the stale groups */
  method DeleteStale(dir: Directory, ghost tier: string -> nat, ghost rank: string -> nat)
    returns (ghost d: set<string>, ghost order: seq<nat>)
    requires Acyclic(dir.groups, tier, rank) && UniqueIds(dir.groups)
    modifies dir
    ensures Cascade(old(dir.groups), StaleGroups(old(dir.groups)), d) && dir.groups == old(dir.groups) - d
    ensures dir.nextId == old(dir.nextId)
    ensures Called(old(dir.groups), d, order)
    ensures OnlyAgain(order, IdsOf(old(dir.groups), StaleGroups(old(dir.groups))))
    ensures UsersAfter(old(dir.users), dir.users, LiveIds(old(dir.groups)), order)
  {
    var loaded := dir.groups;
    var todo := set c | c in loaded && Stale(loaded[c]);
    ghost var users0, stale, ids := dir.users, todo, IdsOf(loaded, todo);
    d, order := {}, [];
    assert stale == StaleGroups(loaded);
    NothingGone(loaded, users0, ids);
    assert stale - stale == {};
    hide *;
    while todo != {}
      invariant todo <= stale && Cascade(loaded, stale - todo, d) && dir.groups == loaded - d
      invariant Called(loaded, d, order) && OnlyAgain(order, ids)
      invariant UsersAfter(users0, dir.users, LiveIds(loaded), order)
      invariant dir.nextId == old(dir.nextId)
      decreases |todo|
    {
      var c :| c in todo;
      IdIn(loaded, stale, c);
      ghost var gone, ran := d, order;
      d, order := DestroyLoaded(dir, loaded, c, stale - todo, gone, ran, ids, users0, tier, rank);
      assert stale - todo + {c} == stale - (todo - {c});
      todo := todo - {c};
    }
    assert stale - {} == stale;
  }

  // ----- What a cascade takes -----

  /** Going up from c, at most n steps, meets one of the groups `from`. */
  ghost predicate Climbs(groups: map<string, Group>, from: set<string>, c: string, n: nat)
    requires c in groups
    decreases n
  {
    c in from || (n > 0 &&
         exists p :: p in groups && groups[c].parentId == groups[p].id && Climbs(groups, from, p, n - 1))
  }

  lemma {:induction false} ClimbsTaken(groups: map<string, Group>, from: set<string>, d: set<string>, c: string, n: nat)
    requires Cascade(groups, from, d) && c in groups && Climbs(groups, from, c, n)
    ensures c in d
    decreases n
  {
    if c !in from {
      var p :| p in groups && groups[c].parentId == groups[p].id && Climbs(groups, from, p, n - 1);
      ClimbsTaken(groups, from, d, p, n - 1);
    }
  }

  ghost function Higher(groups: map<string, Group>, c: string, tier: string -> nat, rank: string -> nat): set<string> {
    set x | x in groups && Lower(c, x, tier, rank)
  }

  lemma {:induction false} TakenClimbs(groups: map<string, Group>, from: set<string>, d: set<string>, c: string,
                                       tier: string -> nat, rank: string -> nat)
    returns (n: nat)
    requires Cascade(groups, from, d) && Acyclic(groups, tier, rank) && c in d
    ensures c in groups && Climbs(groups, from, c, n)
    decreases Higher(groups, c, tier, rank)
  {
    n := 0;
    if c !in from {
      var p :| p in d && groups[c].parentId == groups[p].id;
      assert p in Higher(groups, c, tier, rank) && p !in Higher(groups, p, tier, rank);
      assert Higher(groups, p, tier, rank) <= Higher(groups, c, tier, rank);
      var m := TakenClimbs(groups, from, d, p, tier, rank);
      n := m + 1;
    }
  }

  /** c lies at or below one of the groups `from`. */
  ghost predicate AtOrBelow(groups: map<string, Group>, from: set<string>, c: string)
    requires c in groups
  {
    exists n: nat :: Climbs(groups, from, c, n)
  }

  /** Without cycles a cascade takes exactly what lies at or below where it starts. */
  lemma CascadeIs(groups: map<string, Group>, from: set<string>, d: set<string>, c: string, tier: string -> nat,
                  rank: string -> nat)
    requires Cascade(groups, from, d) && Acyclic(groups, tier, rank) && c in groups
    ensures c in d <==> AtOrBelow(groups, from, c)
  {
    hide Cascade; hide Acyclic;
    if c in d { var n := TakenClimbs(groups, from, d, c, tier, rank); }
    forall n: nat | Climbs(groups, from, c, n) ensures c in d { ClimbsTaken(groups, from, d, c, n); }
  }
}
