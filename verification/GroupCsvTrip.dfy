/** Importing an exported group tree, and importing it again. */
module GroupCsvTrip {
  import opened GroupCsv
  import opened Text
  import opened Tree
  import opened TreeOrder
  import opened Wrappers

  /** A group whose row can be stored: it validates, and so does every group above it below the root. */
  ghost predicate Importable(t: Table, x: nat, depth: nat -> nat, n: nat)
    requires x < |t| && Deep(t, depth, n)
    decreases depth(x)
  {
    && Validates(t[x].data.code, t[x].data.fields) && ParentOf(t, x) < |t| && !Blank(t[ParentOf(t, x)].data.code)
    && (t[ParentOf(t, x)].parentId == 0 || Importable(t, ParentOf(t, x), depth, n))
  }

  ghost predicate UniqueCodes(t: Table) {
    forall x, y :: 0 <= x < |t| && 0 <= y < |t| && t[x].data.code == t[y].data.code ==> x == y
  }

  /** The database holds exactly the roots. */
  ghost predicate OnlyRoots(db: Db, t: Table) {
    forall c :: c in db.groups <==> exists x :: 0 <= x < |t| && t[x].parentId == 0 && t[x].data.code == c
  }

  /** Group x is stored under its parent with its own columns. */
  ghost predicate Stored(db: Db, t: Table, x: nat) {
    && x < |t| && ParentOf(t, x) < |t| && t[x].data.code in db.groups && t[ParentOf(t, x)].data.code in db.groups
    && db.groups[t[x].data.code].fields == t[x].data.fields
    && db.groups[t[x].data.code].parentId == db.groups[t[ParentOf(t, x)].data.code].id
  }

  /** Group x is among the first n listed and is not a root. */
  ghost predicate Among(t: Table, list: seq<nat>, n: nat, x: nat) {
    x < |t| && t[x].parentId != 0 && exists j :: 0 <= j < n && j < |list| && list[j] == x
  }

  /** After the first m listed groups: roots untouched, the importable ones stored, no others. */
  ghost predicate Inv(db: Db, db0: Db, t: Table, list: seq<nat>, m: nat, depth: nat -> nat, n: nat)
    requires Deep(t, depth, n)
  {
    && (forall c :: c in db0.groups ==> c in db.groups && db.groups[c] == db0.groups[c])
    && (forall x: nat :: Among(t, list, m, x) && Importable(t, x, depth, n) ==> Stored(db, t, x))
    && (forall c :: c in db.groups && c !in db0.groups ==>
           exists x: nat :: Among(t, list, m, x) && Importable(t, x, depth, n) && t[x].data.code == c)
  }

  ghost predicate Setting(db0: Db, t: Table, list: seq<nat>, depth: nat -> nat, n: nat) {
    Deep(t, depth, n) && UniqueIds(t) && UniqueCodes(t) && OnlyRoots(db0, t) && ParentsEarlier(t, list)
      && Listable(t, list)
  }

  lemma RootStored(db0: Db, t: Table, x: nat)
    requires OnlyRoots(db0, t) && UniqueCodes(t) && x < |t|
    ensures t[x].data.code in db0.groups <==> t[x].parentId == 0
  {
  }

  /** The parent of the k-th listed group is in the database exactly when it is a root or importable. */
  lemma ParentThere(db: Db, db0: Db, t: Table, list: seq<nat>, k: nat, m: nat, depth: nat -> nat, n: nat)
    requires Setting(db0, t, list, depth, n) && k <= m && k < |list| && t[list[k]].parentId != 0
    requires Inv(db, db0, t, list, m, depth, n)
    ensures var q := ParentOf(t, list[k]);
      q < |t| && (t[q].data.code in db.groups <==> t[q].parentId == 0 || Importable(t, q, depth, n))
  {
    var x := list[k];
    var q := ParentOf(t, x);
    RootStored(db0, t, q);
    if t[q].parentId != 0 {
      var i :| 0 <= i < k && t[list[i]].id == t[x].parentId;
      assert list[i] == q;
      assert Among(t, list, m, q);
    }
    hide Importable; hide Deep; hide ParentOf;
  }

  lemma InAlready(db: Db, db0: Db, t: Table, list: seq<nat>, m: nat, depth: nat -> nat, n: nat, x: nat)
    requires Setting(db0, t, list, depth, n) && x < |t| && t[x].parentId != 0 && Inv(db, db0, t, list, m, depth, n)
    requires t[x].data.code in db.groups
    ensures Importable(t, x, depth, n) && Stored(db, t, x)
  {
    RootStored(db0, t, x);
    hide Importable; hide Stored; hide Deep; hide OnlyRoots; hide Listable; hide ParentsEarlier; hide UniqueIds;
    var y: nat :| Among(t, list, m, y) && Importable(t, y, depth, n) && t[y].data.code == t[x].data.code;
    assert y < |t|;
    hide Inv;
    assert x == y;
  }

  lemma OneMore(t: Table, list: seq<nat>, m: nat, x: nat)
    requires m < |list| && In(t, list)
    ensures Among(t, list, m + 1, x) <==> Among(t, list, m, x) || (x == list[m] && t[x].parentId != 0)
  {
    if x == list[m] && x < |t| && t[x].parentId != 0 { assert Among(t, list, m + 1, x); }
  }

  /** r has one group more. */
  ghost predicate Extends(db: Db, r: Db, code: string) {
    code in r.groups && r.groups.Keys == db.groups.Keys + {code} && r.nextId == db.nextId + 1 &&
    forall c :: c in db.groups && c != code ==> r.groups[c] == db.groups[c]
  }

  ghost predicate Holds(db: Db, code: string, parent: string, f: Fields) {
    code in db.groups && parent in db.groups && db.groups[code].fields == f
      && db.groups[code].parentId == db.groups[parent].id
  }

  predicate Storable(db: Db, code: string, parent: string, f: Fields) {
    Validates(code, f) && !Blank(parent) && parent in db.groups
  }

  /** A row whose group is absent, or stored as the row says. */
  lemma RowIs(db: Db, code: string, parent: string, f: Fields)
    requires code != parent && (code in db.groups ==> Holds(db, code, parent, f) && Storable(db, code, parent, f))
    ensures var (r, o) := ImportRow(db, Row(Some(code), Some(parent), f));
      && (Storable(db, code, parent, f) ==> Holds(r, code, parent, f) && (o == Added || o == Unchanged))
      && (!Storable(db, code, parent, f) ==> r == db && o == Failed)
      && (o == Unchanged ==> r == db) && (o == Added ==> code !in db.groups && Extends(db, r, code))
  {
    hide Blank;
  }

  /** What the row of a listed group does: it is stored, or was stored already, exactly when it is importable. */
  lemma RowOutcome(db: Db, db0: Db, t: Table, list: seq<nat>, k: nat, m: nat, depth: nat -> nat, n: nat)
    requires Setting(db0, t, list, depth, n) && k <= m && k < |list| && t[list[k]].parentId != 0
    requires Inv(db, db0, t, list, m, depth, n)
    ensures ParentOf(t, list[k]) < |t|
    ensures var (r, o) := ImportRow(db, RowOf(t, list[k]));
      && (Importable(t, list[k], depth, n) ==> Stored(r, t, list[k]) && (o == Added || o == Unchanged))
      && (!Importable(t, list[k], depth, n) ==> r == db && o == Failed)
      && (o == Unchanged ==> r == db)
      && (o == Added ==> t[list[k]].data.code !in db.groups && Extends(db, r, t[list[k]].data.code))
  {
    var x := list[k];
    var q := ParentOf(t, x);
    ParentThere(db, db0, t, list, k, m, depth, n);
    var code, parent, f := t[x].data.code, t[q].data.code, t[x].data.fields;
    CodesApart(db0, t, list, x, depth, n);
    if code in db.groups { InAlready(db, db0, t, list, m, depth, n, x); }
    ImportableIs(t, x, depth, n);
    hide Inv; hide Setting; hide Importable; hide ImportRow; hide Validates; hide Blank; hide Extends; hide Deep;
    assert Importable(t, x, depth, n) <==> Storable(db, code, parent, f);
    assert forall d: Db :: Stored(d, t, x) <==> Holds(d, code, parent, f);
    RowIs(db, code, parent, f);
  }

  lemma CodesApart(db0: Db, t: Table, list: seq<nat>, x: nat, depth: nat -> nat, n: nat)
    requires Setting(db0, t, list, depth, n) && x < |t| && ParentOf(t, x) < |t|
    ensures t[ParentOf(t, x)].data.code != t[x].data.code
  {
    assert depth(ParentOf(t, x)) < depth(x);
  }

  lemma ImportableIs(t: Table, x: nat, depth: nat -> nat, n: nat)
    requires x < |t| && Deep(t, depth, n) && ParentOf(t, x) < |t|
    ensures Importable(t, x, depth, n) <==>
      Validates(t[x].data.code, t[x].data.fields) && !Blank(t[ParentOf(t, x)].data.code) &&
      (t[ParentOf(t, x)].parentId == 0 || Importable(t, ParentOf(t, x), depth, n))
  {
  }

  lemma StaysStored(a: Db, b: Db, t: Table, x: nat, code: string)
    requires Stored(a, t, x) && Extends(a, b, code) && code !in a.groups
    ensures Stored(b, t, x)
  {
  }

  lemma RootSkipped(db: Db, db0: Db, t: Table, list: seq<nat>, m: nat, depth: nat -> nat, n: nat)
    requires Setting(db0, t, list, depth, n) && m < |list| && t[list[m]].parentId == 0
    requires Inv(db, db0, t, list, m, depth, n)
    ensures Inv(db, db0, t, list, m + 1, depth, n)
  {
    hide Importable; hide Stored; hide Deep;
    forall x: nat ensures Among(t, list, m + 1, x) <==> Among(t, list, m, x) { OneMore(t, list, m, x); }
    hide Among;
  }

  /** What RowOutcome says of the row of group x. */
  ghost predicate Outcome(db: Db, r: Db, o: Result, t: Table, x: nat, ok: bool) {
    && x < |t| && (ok ==> Stored(r, t, x) && (o == Added || o == Unchanged)) && (!ok ==> r == db && o == Failed)
    && (o == Unchanged ==> r == db) && (o == Added ==> t[x].data.code !in db.groups && Extends(db, r, t[x].data.code))
  }

  lemma StoredNext(db: Db, r: Db, o: Result, db0: Db, t: Table, list: seq<nat>, m: nat, depth: nat -> nat, n: nat,
                   x0: nat, x: nat)
    requires Deep(t, depth, n) && Inv(db, db0, t, list, m, depth, n) && x0 < |t|
    requires Outcome(db, r, o, t, x0, Importable(t, x0, depth, n))
    requires x < |t| && Importable(t, x, depth, n) && (Among(t, list, m, x) || x == x0)
    ensures Stored(r, t, x)
  {
    hide Importable; hide Deep; hide Among; hide Stored;
    if x != x0 && o == Added { StaysStored(db, r, t, x, t[x0].data.code); }
  }

  lemma RestNext(db: Db, r: Db, o: Result, db0: Db, t: Table, list: seq<nat>, m: nat, depth: nat -> nat, n: nat,
                 x0: nat)
    requires Deep(t, depth, n) && Inv(db, db0, t, list, m, depth, n) && x0 < |t|
    requires Outcome(db, r, o, t, x0, Importable(t, x0, depth, n))
    ensures forall c :: c in db0.groups ==> c in r.groups && r.groups[c] == db0.groups[c]
    ensures forall c :: c in r.groups && c !in db0.groups ==>
      (c == t[x0].data.code && Importable(t, x0, depth, n)) ||
      exists x: nat :: Among(t, list, m, x) && Importable(t, x, depth, n) && t[x].data.code == c
  {
    hide Importable; hide Deep; hide Among; hide Stored;
  }

  lemma InvStep(db: Db, r: Db, o: Result, db0: Db, t: Table, list: seq<nat>, m: nat, depth: nat -> nat, n: nat)
    requires Deep(t, depth, n) && In(t, list) && m < |list| && t[list[m]].parentId != 0
    requires Inv(db, db0, t, list, m, depth, n)
    requires Outcome(db, r, o, t, list[m], Importable(t, list[m], depth, n))
    ensures Inv(r, db0, t, list, m + 1, depth, n)
  {
    var x0, k := list[m], m + 1;
    hide Importable; hide Stored; hide Extends; hide Deep; hide Inv; hide Outcome;
    RestNext(db, r, o, db0, t, list, m, depth, n, x0);
    forall x: nat ensures Among(t, list, k, x) <==> Among(t, list, m, x) || x == x0 { OneMore(t, list, m, x); }
    assert forall x: nat :: Among(t, list, k, x) ==> x < |t|;
    hide Among; hide In;
    forall x: nat | Among(t, list, k, x) && Importable(t, x, depth, n) ensures Stored(r, t, x) {
      StoredNext(db, r, o, db0, t, list, m, depth, n, x0, x);
    }
    InvFrom(r, db0, t, list, k, depth, n);
  }

  lemma NextInv(db: Db, db0: Db, t: Table, list: seq<nat>, m: nat, depth: nat -> nat, n: nat)
    requires Setting(db0, t, list, depth, n) && m < |list| && t[list[m]].parentId != 0
    requires Inv(db, db0, t, list, m, depth, n)
    ensures ParentOf(t, list[m]) < |t|
    ensures Inv(ImportRow(db, RowOf(t, list[m])).0, db0, t, list, m + 1, depth, n)
    ensures Outcome(db, ImportRow(db, RowOf(t, list[m])).0, ImportRow(db, RowOf(t, list[m])).1, t, list[m],
      Importable(t, list[m], depth, n))
  {
    RowOutcome(db, db0, t, list, m, m, depth, n);
    var (r, o) := ImportRow(db, RowOf(t, list[m]));
    assert Deep(t, depth, n) && In(t, list);
    hide Importable; hide ImportRow; hide RowOf; hide Stored; hide Extends; hide Setting; hide Deep; hide Inv;
    InvStep(db, r, o, db0, t, list, m, depth, n);
  }

  lemma InvFrom(db: Db, db0: Db, t: Table, list: seq<nat>, m: nat, depth: nat -> nat, n: nat)
    requires Deep(t, depth, n)
    requires forall c :: c in db0.groups ==> c in db.groups && db.groups[c] == db0.groups[c]
    requires forall x: nat :: Among(t, list, m, x) && Importable(t, x, depth, n) ==> Stored(db, t, x)
    requires forall c :: c in db.groups && c !in db0.groups ==>
           exists x: nat :: Among(t, list, m, x) && Importable(t, x, depth, n) && t[x].data.code == c
    ensures Inv(db, db0, t, list, m, depth, n)
  {
    hide Importable; hide Deep; hide Among; hide Stored;
  }

  ghost predicate AllGood(t: Table, list: seq<nat>, m: nat, depth: nat -> nat, n: nat)
    requires Deep(t, depth, n)
  {
    forall x: nat :: Among(t, list, m, x) ==> Importable(t, x, depth, n)
  }

  lemma AllGoodNext(t: Table, list: seq<nat>, m: nat, depth: nat -> nat, n: nat)
    requires Deep(t, depth, n) && In(t, list) && m < |list|
    ensures AllGood(t, list, m + 1, depth, n) <==>
      AllGood(t, list, m, depth, n) && (t[list[m]].parentId == 0 || Importable(t, list[m], depth, n))
  {
    hide Importable; hide Deep;
    var k := m + 1;
    forall x: nat ensures Among(t, list, k, x) <==> Among(t, list, m, x) || (x == list[m] && t[x].parentId != 0) {
      OneMore(t, list, m, x);
    }
    assert forall x: nat :: Among(t, list, k, x) ==> x < |t|;
    hide Among;
  }

  lemma ImportSnoc(db0: Db, rows: seq<Row>, row: Row)
    ensures Import(db0, rows + [row]) == var (db, c) := Import(db0, rows); var (r, o) := ImportRow(db, row);
      (r, Count(c, o))
  {
    assert (rows + [row])[..|rows|] == rows;
  }

  lemma RowsNext(t: Table, list: seq<nat>, m: nat)
    requires m < |list| && Listable(t, list)
    ensures Listable(t, list[..m]) && Listable(t, list[..m + 1])
    ensures Rows(t, list[..m + 1]) == Rows(t, list[..m]) + if t[list[m]].parentId == 0 then [] else [RowOf(t, list[m])]
  {
    assert list[..m + 1][..m] == list[..m];
  }

  /** The import so far and its counts. */
  ghost predicate Progress(db0: Db, t: Table, list: seq<nat>, m: nat, depth: nat -> nat, n: nat)
    requires m <= |list| && Listable(t, list[..m]) && Deep(t, depth, n)
  {
    var (db, c) := Import(db0, Rows(t, list[..m]));
    && Inv(db, db0, t, list, m, depth, n) && c.updated == 0 && c.added == db.nextId - db0.nextId
    && (c.failed == 0 <==> AllGood(t, list, m, depth, n))
  }

  /** Importing the rows of the first m listed groups. */
  lemma {:induction false} ImportKeeps(db0: Db, t: Table, list: seq<nat>, m: nat, depth: nat -> nat, n: nat)
    requires Setting(db0, t, list, depth, n) && m <= |list|
    ensures Listable(t, list[..m]) && Progress(db0, t, list, m, depth, n)
  {
    hide *;
    if m > 0 {
      ImportKeeps(db0, t, list, m - 1, depth, n);
      ImportOneMore(db0, t, list, m - 1, depth, n);
    } else {
      NothingImported(db0, t, list, depth, n);
    }
  }

  lemma NothingImported(db0: Db, t: Table, list: seq<nat>, depth: nat -> nat, n: nat)
    requires Setting(db0, t, list, depth, n)
    ensures Listable(t, list[..0]) && Progress(db0, t, list, 0, depth, n)
  {
  }

  lemma RootMore(db0: Db, t: Table, list: seq<nat>, m: nat, depth: nat -> nat, n: nat)
    requires Setting(db0, t, list, depth, n) && m < |list| && Listable(t, list[..m])
    requires Progress(db0, t, list, m, depth, n)
    requires t[list[m]].parentId == 0
    ensures Listable(t, list[..m + 1]) && Progress(db0, t, list, m + 1, depth, n)
  {
    RowsNext(t, list, m);
    AllGoodNext(t, list, m, depth, n);
    hide Import; hide Rows; hide Inv; hide AllGood; hide Importable; hide Setting;
    RootSkipped(Import(db0, Rows(t, list[..m])).0, db0, t, list, m, depth, n);
    assert Rows(t, list[..m + 1]) == Rows(t, list[..m]);
  }

  lemma ImportOneMore(db0: Db, t: Table, list: seq<nat>, m: nat, depth: nat -> nat, n: nat)
    requires Setting(db0, t, list, depth, n) && m < |list| && Listable(t, list[..m])
    requires Progress(db0, t, list, m, depth, n)
    ensures Listable(t, list[..m + 1]) && Progress(db0, t, list, m + 1, depth, n)
  {
    if t[list[m]].parentId == 0 {
      hide *;
      RootMore(db0, t, list, m, depth, n);
    } else {
      GroupMore(db0, t, list, m, depth, n);
    }
  }

  lemma GroupMore(db0: Db, t: Table, list: seq<nat>, m: nat, depth: nat -> nat, n: nat)
    requires Setting(db0, t, list, depth, n) && m < |list| && Listable(t, list[..m])
    requires Progress(db0, t, list, m, depth, n)
    requires t[list[m]].parentId != 0
    ensures Listable(t, list[..m + 1]) && Progress(db0, t, list, m + 1, depth, n)
  {
    assert Listable(t, list) && Deep(t, depth, n) && In(t, list);
    hide *;
    RowsNext(t, list, m);
    ProgressIs(db0, t, list, m, depth, n);
    ProgressIs(db0, t, list, m + 1, depth, n);
    var (db, c) := Import(db0, Rows(t, list[..m]));
    AllGoodNext(t, list, m, depth, n);
    NextInv(db, db0, t, list, m, depth, n);
    ImportSnoc(db0, Rows(t, list[..m]), RowOf(t, list[m]));
    var (r, o) := ImportRow(db, RowOf(t, list[m]));
    CountsMore(db, r, o, c, t, list[m], Importable(t, list[m], depth, n));
  }

  lemma ProgressIs(db0: Db, t: Table, list: seq<nat>, m: nat, depth: nat -> nat, n: nat)
    requires m <= |list| && Listable(t, list[..m]) && Deep(t, depth, n)
    ensures Progress(db0, t, list, m, depth, n) <==>
      var (db, c) := Import(db0, Rows(t, list[..m]));
      && Inv(db, db0, t, list, m, depth, n) && c.updated == 0 && c.added == db.nextId - db0.nextId
      && (c.failed == 0 <==> AllGood(t, list, m, depth, n))
  {
    hide Import; hide Inv; hide AllGood;
  }

  lemma CountsMore(db: Db, r: Db, o: Result, c: Counts, t: Table, x: nat, ok: bool)
    requires Outcome(db, r, o, t, x, ok)
    ensures Count(c, o).updated == c.updated && Count(c, o).added == c.added + r.nextId - db.nextId
    ensures Count(c, o).failed == c.failed + if ok then 0 else 1
  {
    hide Stored;
  }

  // ----- Importing again -----

  /** On a database that holds the whole import, a row changes nothing and counts at most as a failure. */
  lemma RowAgain(db: Db, db0: Db, t: Table, list: seq<nat>, k: nat, depth: nat -> nat, n: nat)
    requires Setting(db0, t, list, depth, n) && k < |list| && t[list[k]].parentId != 0
    requires Inv(db, db0, t, list, |list|, depth, n)
    ensures ParentOf(t, list[k]) < |t|
    ensures var (r, o) := ImportRow(db, RowOf(t, list[k])); r == db && (o == Unchanged || o == Failed)
    ensures ImportRow(db, RowOf(t, list[k])).1 == Failed <==> !Importable(t, list[k], depth, n)
  {
    RowOutcome(db, db0, t, list, k, |list|, depth, n);
    assert Among(t, list, |list|, list[k]);
    assert Importable(t, list[k], depth, n) ==> Stored(db, t, list[k]);
    hide Importable; hide ImportRow; hide RowOf; hide Setting; hide Inv; hide Extends; hide Among;
  }

  /** The first k rows, imported again. */
  ghost predicate Idle(db: Db, t: Table, list: seq<nat>, k: nat, depth: nat -> nat, n: nat)
    requires k <= |list| && Listable(t, list[..k]) && Deep(t, depth, n)
  {
    var (r, c) := Import(db, Rows(t, list[..k]));
    r == db && c.added == 0 && c.updated == 0 && (AllGood(t, list, k, depth, n) ==> c.failed == 0)
  }

  lemma IdleRoot(db: Db, t: Table, list: seq<nat>, k: nat, depth: nat -> nat, n: nat)
    requires Listable(t, list) && k < |list| && Listable(t, list[..k]) && Deep(t, depth, n)
    requires Idle(db, t, list, k, depth, n)
    requires t[list[k]].parentId == 0
    ensures Listable(t, list[..k + 1]) && Idle(db, t, list, k + 1, depth, n)
  {
    RowsNext(t, list, k);
    AllGoodNext(t, list, k, depth, n);
    hide Import; hide Rows; hide AllGood; hide Importable; hide Deep;
    assert Rows(t, list[..k + 1]) == Rows(t, list[..k]);
  }

  lemma IdleRow(db: Db, t: Table, list: seq<nat>, k: nat, depth: nat -> nat, n: nat)
    requires Listable(t, list) && k < |list| && Listable(t, list[..k]) && Deep(t, depth, n)
    requires Idle(db, t, list, k, depth, n)
    requires t[list[k]].parentId != 0 && ParentOf(t, list[k]) < |t|
    requires ImportRow(db, RowOf(t, list[k])).0 == db
    requires ImportRow(db, RowOf(t, list[k])).1 == if Importable(t, list[k], depth, n) then Unchanged else Failed
    ensures Listable(t, list[..k + 1]) && Idle(db, t, list, k + 1, depth, n)
  {
    RowsNext(t, list, k);
    AllGoodNext(t, list, k, depth, n);
    hide Import; hide Rows; hide AllGood; hide Importable; hide ImportRow; hide RowOf; hide Deep;
    ImportSnoc(db, Rows(t, list[..k]), RowOf(t, list[k]));
  }

  lemma IdleNext(db: Db, db0: Db, t: Table, list: seq<nat>, k: nat, depth: nat -> nat, n: nat)
    requires Setting(db0, t, list, depth, n) && k < |list| && Inv(db, db0, t, list, |list|, depth, n)
    requires Listable(t, list[..k]) && Deep(t, depth, n) && Idle(db, t, list, k, depth, n)
    ensures Listable(t, list[..k + 1]) && Idle(db, t, list, k + 1, depth, n)
  {
    assert Listable(t, list) && list[k] < |t|;
    hide Inv; hide Importable; hide ImportRow; hide Setting; hide RowOf; hide Deep; hide Idle; hide Listable;
    if t[list[k]].parentId != 0 {
      RowAgain(db, db0, t, list, k, depth, n);
      IdleRow(db, t, list, k, depth, n);
    } else {
      IdleRoot(db, t, list, k, depth, n);
    }
  }

  lemma {:induction false} ImportAgain(db: Db, db0: Db, t: Table, list: seq<nat>, k: nat, depth: nat -> nat, n: nat)
    requires Setting(db0, t, list, depth, n) && Deep(t, depth, n) && k <= |list|
    requires Inv(db, db0, t, list, |list|, depth, n)
    ensures Listable(t, list[..k]) && Idle(db, t, list, k, depth, n)
  {
    if k > 0 {
      ImportAgain(db, db0, t, list, k - 1, depth, n);
      IdleNext(db, db0, t, list, k - 1, depth, n);
    }
  }

  // ----- The whole tree -----

  /** Every group hangs below a root. */
  ghost predicate Whole(t: Table, depth: nat -> nat, n: nat) {
    Deep(t, depth, n) && UniqueIds(t) && UniqueCodes(t) && forall x: nat :: x < |t| ==>
      t[x].parentId == 0 || ParentOf(t, x) < |t|
  }

  lemma {:induction false} RootOver(t: Table, x: nat, depth: nat -> nat, n: nat) returns (r: nat)
    requires Whole(t, depth, n) && x < |t|
    ensures r < |t| && t[r].parentId == 0 && Reaches(t, AnyGroup(), r, x, depth, n)
    decreases depth(x)
  {
    if t[x].parentId == 0 {
      r := x;
    } else {
      r := RootOver(t, ParentOf(t, x), depth, n);
    }
  }

  lemma {:induction false} ListedFrom(t: Table, le: (Group, Group) -> bool, m: nat, i: nat, x: nat, depth: nat -> nat,
                                      n: nat)
    requires Deep(t, depth, n) && i < m <= |Roots(t, le)|
    requires x in Descendants(t, le, AnyGroup(), Roots(t, le)[i], depth, n)
    ensures x in Listed(t, le, m, depth, n)
  {
    hide Descendants; hide Roots; hide Deep;
    if i < m - 1 { ListedFrom(t, le, m - 1, i, x, depth, n); }
  }

  lemma RootsOrdered(t: Table, le: (Group, Group) -> bool)
    requires Sorts(le)
    ensures Ordered(t, le, Roots(t, le)) && forall i :: 0 <= i < |Roots(t, le)| ==> t[Roots(t, le)[i]].parentId == 0
  {
    KidsOrdered(t, le, AnyGroup(), 0, |t|);
    var roots := Roots(t, le);
    forall i | 0 <= i < |roots| ensures t[roots[i]].parentId == 0 { assert roots[i] in roots; }
  }

  lemma ListedNext(t: Table, le: (Group, Group) -> bool, m: nat, depth: nat -> nat, n: nat)
    requires Deep(t, depth, n) && m <= |Roots(t, le)|
    ensures m == 0 ==> Listed(t, le, m, depth, n) == []
    ensures m > 0 ==> Roots(t, le)[m - 1] < |t|
    ensures m > 0 ==>
      Listed(t, le, m, depth, n) ==
        Listed(t, le, m - 1, depth, n) + Descendants(t, le, AnyGroup(), Roots(t, le)[m - 1], depth, n)
  {
    hide Descendants; hide Deep;
    if m > 0 { assert Roots(t, le)[m - 1] in Roots(t, le); }
    hide Roots;
  }

  lemma {:induction false} ListedInOrder(t: Table, le: (Group, Group) -> bool, m: nat, depth: nat -> nat, n: nat)
    requires Deep(t, depth, n) && UniqueIds(t) && Sorts(le) && m <= |Roots(t, le)|
    ensures var r := Listed(t, le, m, depth, n);
      InOrder(t, le, AnyGroup(), r, depth, n) && UnderFirst(t, AnyGroup(), Roots(t, le), m, r, depth, n)
  {
    hide *;
    ListedNext(t, le, m, depth, n);
    if m == 0 {
      NoneInOrder(t, le, AnyGroup(), Roots(t, le), depth, n);
    } else {
      ListedInOrder(t, le, m - 1, depth, n);
      RootsOrdered(t, le);
      RootsJoin(t, le, AnyGroup(), Roots(t, le), m - 1, Listed(t, le, m - 1, depth, n), depth, n);
    }
  }

  /** The export is in tree order, siblings and roots in the order asked for. */
  lemma ExportInOrder(t: Table, le: (Group, Group) -> bool, depth: nat -> nat, n: nat)
    requires Deep(t, depth, n) && UniqueIds(t) && Sorts(le)
    ensures InOrder(t, le, AnyGroup(), AllListed(t, le, depth, n), depth, n)
  {
    hide Listed; hide Roots; hide InOrder;
    ListedInOrder(t, le, |Roots(t, le)|, depth, n);
  }

  /** The export lists every group. */
  lemma EveryGroupListed(t: Table, le: (Group, Group) -> bool, x: nat, depth: nat -> nat, n: nat)
    requires Whole(t, depth, n) && x < |t|
    ensures x in AllListed(t, le, depth, n)
  {
    var r := RootOver(t, x, depth, n);
    var roots := Roots(t, le);
    assert r in roots;
    var i :| 0 <= i < |roots| && roots[i] == r;
    hide Roots; hide Descendants; hide Reaches; hide UniqueIds; hide UniqueCodes;
    ReachedListed(t, le, AnyGroup(), r, x, depth, n);
    ListedFrom(t, le, |roots|, i, x, depth, n);
  }

  lemma ExportSetting(db0: Db, t: Table, le: (Group, Group) -> bool, depth: nat -> nat, n: nat)
    requires Whole(t, depth, n) && OnlyRoots(db0, t)
    ensures Setting(db0, t, AllListed(t, le, depth, n), depth, n)
  {
    hide Listed; hide OnlyRoots; hide UniqueIds; hide UniqueCodes; hide Deep; hide Roots; hide Descendants;
    ListedOrdered(t, le, |Roots(t, le)|, depth, n);
    EarlierListable(t, AllListed(t, le, depth, n));
  }

  lemma AllAmong(t: Table, le: (Group, Group) -> bool, x: nat, depth: nat -> nat, n: nat)
    requires Whole(t, depth, n) && x < |t| && t[x].parentId != 0
    ensures Among(t, AllListed(t, le, depth, n), |AllListed(t, le, depth, n)|, x)
  {
    EveryGroupListed(t, le, x, depth, n);
    hide Listed; hide AllListed; hide Whole;
    var list := AllListed(t, le, depth, n);
    var j :| 0 <= j < |list| && list[j] == x;
  }

  /** What an import of the whole tree leaves: the roots as they were and exactly the importable groups,
      each under its parent with its own columns. */
  ghost predicate Recreates(db0: Db, db: Db, t: Table, depth: nat -> nat, n: nat)
    requires Deep(t, depth, n)
  {
    && (forall k :: k in db0.groups ==> k in db.groups && db.groups[k] == db0.groups[k])
    && (forall x: nat :: x < |t| && t[x].parentId != 0 ==>
       (t[x].data.code in db.groups <==> Importable(t, x, depth, n)))
    && (forall x: nat :: x < |t| && t[x].parentId != 0 && Importable(t, x, depth, n) ==> Stored(db, t, x))
    && (forall k :: k in db.groups ==> exists x :: 0 <= x < |t| && t[x].data.code == k)
  }

  ghost predicate AllImportable(t: Table, depth: nat -> nat, n: nat)
    requires Deep(t, depth, n)
  {
    forall x: nat :: x < |t| && t[x].parentId != 0 ==> Importable(t, x, depth, n)
  }

  lemma RecreatesFrom(db: Db, db0: Db, t: Table, list: seq<nat>, depth: nat -> nat, n: nat)
    requires Setting(db0, t, list, depth, n) && Inv(db, db0, t, list, |list|, depth, n)
    requires forall x: nat :: x < |t| && t[x].parentId != 0 ==> Among(t, list, |list|, x)
    ensures Recreates(db0, db, t, depth, n)
    ensures AllGood(t, list, |list|, depth, n) <==> AllImportable(t, depth, n)
  {
    assert Deep(t, depth, n) && In(t, list) && OnlyRoots(db0, t);
    hide *;
    RootsKept(db, db0, t, list, depth, n);
    Codes(db, db0, t, list, depth, n);
    AmongNonRoots(t, list, depth, n);
    forall x: nat | x < |t| && t[x].parentId != 0
      ensures t[x].data.code in db.groups <==> Importable(t, x, depth, n)
      ensures Importable(t, x, depth, n) ==> Stored(db, t, x)
    {
      StoredIffImportable(db, db0, t, list, depth, n, x);
    }
    RecreatesAll(db0, db, t, depth, n);
  }

  lemma RootsKept(db: Db, db0: Db, t: Table, list: seq<nat>, depth: nat -> nat, n: nat)
    requires Deep(t, depth, n) && Inv(db, db0, t, list, |list|, depth, n)
    ensures forall k :: k in db0.groups ==> k in db.groups && db.groups[k] == db0.groups[k]
  {
  }

  lemma RecreatesAll(db0: Db, db: Db, t: Table, depth: nat -> nat, n: nat)
    requires Deep(t, depth, n)
    requires forall k :: k in db0.groups ==> k in db.groups && db.groups[k] == db0.groups[k]
    requires forall x: nat :: x < |t| && t[x].parentId != 0 ==>
      (t[x].data.code in db.groups <==> Importable(t, x, depth, n))
    requires forall x: nat :: x < |t| && t[x].parentId != 0 && Importable(t, x, depth, n) ==> Stored(db, t, x)
    requires forall k :: k in db.groups ==> exists x :: 0 <= x < |t| && t[x].data.code == k
    ensures Recreates(db0, db, t, depth, n)
  {
    hide Deep; hide Importable; hide Stored;
  }

  lemma AmongNonRoots(t: Table, list: seq<nat>, depth: nat -> nat, n: nat)
    requires Deep(t, depth, n) && In(t, list)
    requires forall x: nat :: x < |t| && t[x].parentId != 0 ==> Among(t, list, |list|, x)
    ensures AllGood(t, list, |list|, depth, n) <==> AllImportable(t, depth, n)
  {
    hide Importable; hide Deep;
    assert forall x: nat :: Among(t, list, |list|, x) ==> x < |t| && t[x].parentId != 0;
  }

  lemma StoredIffImportable(db: Db, db0: Db, t: Table, list: seq<nat>, depth: nat -> nat, n: nat, x: nat)
    requires Setting(db0, t, list, depth, n) && Inv(db, db0, t, list, |list|, depth, n)
    requires Among(t, list, |list|, x)
    ensures Deep(t, depth, n) && x < |t| && (t[x].data.code in db.groups <==> Importable(t, x, depth, n))
    ensures Importable(t, x, depth, n) ==> Stored(db, t, x)
  {
    hide Importable; hide Stored;
    assert Deep(t, depth, n);
    assert Importable(t, x, depth, n) ==> Stored(db, t, x);
    hide Inv; hide Setting; hide Deep;
    if t[x].data.code in db.groups { InAlready(db, db0, t, list, |list|, depth, n, x); }
    if Importable(t, x, depth, n) { StoredCode(db, t, x); }
  }

  lemma StoredCode(db: Db, t: Table, x: nat)
    requires Stored(db, t, x)
    ensures t[x].data.code in db.groups
  {
  }

  /** Importing an export where only the roots exist recreates the importable groups; no row fails exactly
      when all groups are importable. */
  lemma ExportImported(db0: Db, t: Table, le: (Group, Group) -> bool, depth: nat -> nat, n: nat)
    requires Whole(t, depth, n) && OnlyRoots(db0, t)
    ensures Listable(t, AllListed(t, le, depth, n))
    ensures Recreates(db0, Import(db0, Rows(t, AllListed(t, le, depth, n))).0, t, depth, n)
    ensures var (db, c) := Import(db0, Rows(t, AllListed(t, le, depth, n)));
      c.updated == 0 && c.added == db.nextId - db0.nextId && (c.failed == 0 <==> AllImportable(t, depth, n))
  {
    var list := AllListed(t, le, depth, n);
    ExportSetting(db0, t, le, depth, n);
    assert list[..|list|] == list;
    ImportKeeps(db0, t, list, |list|, depth, n);
    assert Deep(t, depth, n);
    hide Setting; hide Importable; hide Import; hide Rows; hide Whole; hide OnlyRoots; hide Inv; hide Deep;
    hide AllGood; hide Recreates;
    hide AllImportable; hide AllListed; hide Among;
    forall x: nat | x < |t| && t[x].parentId != 0 ensures Among(t, list, |list|, x) { AllAmong(t, le, x, depth, n); }
    RecreatesFrom(Import(db0, Rows(t, list)).0, db0, t, list, depth, n);
  }

  lemma Codes(db: Db, db0: Db, t: Table, list: seq<nat>, depth: nat -> nat, n: nat)
    requires Deep(t, depth, n) && OnlyRoots(db0, t) && Inv(db, db0, t, list, |list|, depth, n)
    ensures forall k :: k in db.groups ==> exists x :: 0 <= x < |t| && t[x].data.code == k
  {
    hide Importable; hide Stored; hide Deep;
  }

  /** Importing the same export again changes nothing and counts nothing as added or updated. */
  lemma SecondImport(db0: Db, t: Table, le: (Group, Group) -> bool, depth: nat -> nat, n: nat)
    requires Whole(t, depth, n) && OnlyRoots(db0, t)
    ensures Listable(t, AllListed(t, le, depth, n))
    ensures var rows := Rows(t, AllListed(t, le, depth, n));
      var db := Import(db0, rows).0;
      var (again, c) := Import(db, rows);
      && again == db && c.added == 0 && c.updated == 0
      && (AllImportable(t, depth, n) ==> c.failed == 0)
  {
    var list := AllListed(t, le, depth, n);
    ExportSetting(db0, t, le, depth, n);
    assert list[..|list|] == list;
    ImportKeeps(db0, t, list, |list|, depth, n);
    assert Deep(t, depth, n);
    hide Setting; hide Importable; hide Import; hide Rows; hide Whole; hide OnlyRoots; hide Inv; hide AllListed;
    hide Deep;
    ImportAgain(Import(db0, Rows(t, list)).0, db0, t, list, |list|, depth, n);
  }
}
