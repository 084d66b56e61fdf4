/** Export of the group tree to rows, and import of rows one by one, each looking its parent up among the groups
    that are already there. */
module GroupCsv {
  import opened Text
  import opened Tree
  import opened Wrappers

  /** Column values in text form; rest holds the columns without a presence check. */
  datatype Fields = Fields(state: Option<string>, level: Option<string>, name: Option<string>, nameEn: Option<string>,
                           ldap: Option<string>, rest: seq<Option<string>>)

  datatype Group = Group(code: string, fields: Fields)

  type Table = seq<Node<Group>>

  datatype Row = Row(code: Option<string>, parentCode: Option<string>, fields: Fields)

  // ----- Export -----

  predicate Listable(t: Table, list: seq<nat>) {
    In(t, list) && forall i :: 0 <= i < |list| ==> t[list[i]].parentId == 0 || ParentOf(t, list[i]) < |t|
  }

  function RowOf(t: Table, x: nat): Row
    requires x < |t| && ParentOf(t, x) < |t|
  {
    Row(Some(t[x].data.code), Some(t[ParentOf(t, x)].data.code), t[x].data.fields)
  }

  /** One row for every listed group that is not a root. */
  function Rows(t: Table, list: seq<nat>): seq<Row>
    requires Listable(t, list)
  {
    if list == [] then []
    else
      var x := list[|list| - 1];
      Rows(t, list[..|list| - 1]) + if t[x].parentId == 0 then [] else [RowOf(t, x)]
  }

  function AnyGroup(): nat -> bool {
    (x: nat) => true
  }

  /** The groups without a parent, in the order asked for. */
  function Roots(t: Table, le: (Group, Group) -> bool): (r: seq<nat>)
    ensures In(t, r) && forall x: nat :: x in r <==> x < |t| && t[x].parentId == 0
  {
    Kids(t, le, AnyGroup(), 0, |t|)
  }

  /** The first m roots, each with its descendants. */
  function Listed(t: Table, le: (Group, Group) -> bool, m: nat, ghost depth: nat -> nat, ghost n: nat): (r: seq<nat>)
    requires Deep(t, depth, n) && m <= |Roots(t, le)|
    ensures In(t, r)
  {
    if m == 0 then [] else Listed(t, le, m - 1, depth, n) + Descendants(t, le, AnyGroup(), Roots(t, le)[m - 1],
      depth, n)
  }

  /** The whole list: each root with its descendants, root after root. */
  function AllListed(t: Table, le: (Group, Group) -> bool, ghost depth: nat -> nat, ghost n: nat): (r: seq<nat>)
    requires Deep(t, depth, n)
    ensures In(t, r)
  {
    Listed(t, le, |Roots(t, le)|, depth, n)
  }

  /** Every listed group is a root or stands after its parent. */
  ghost predicate ParentsEarlier(t: Table, list: seq<nat>) {
    && In(t, list)
    && forall j :: 0 <= j < |list| ==>
         t[list[j]].parentId == 0 || exists i :: 0 <= i < j && t[list[i]].id == t[list[j]].parentId
  }

  lemma {:induction false} ListedOrdered(t: Table, le: (Group, Group) -> bool, m: nat, depth: nat -> nat, n: nat)
    requires Deep(t, depth, n) && m <= |Roots(t, le)|
    ensures ParentsEarlier(t, Listed(t, le, m, depth, n))
  {
    if m > 0 {
      var r := Roots(t, le)[m - 1];
      assert r in Roots(t, le);
      hide Roots; hide Descendants; hide Deep;
      ListedOrdered(t, le, m - 1, depth, n);
      DescendantsOrdered(t, le, AnyGroup(), r, depth, n);
      EarlierJoin(t, Listed(t, le, m - 1, depth, n), Descendants(t, le, AnyGroup(), r, depth, n), r);
    }
  }

  lemma EarlierJoin(t: Table, p: seq<nat>, q: seq<nat>, r: nat)
    requires ParentsEarlier(t, p) && ParentsFirst(t, q, r) && r < |t| && t[r].parentId == 0
    ensures ParentsEarlier(t, p + q)
  {
    var s := p + q;
    forall j | 0 <= j < |s| ensures t[s[j]].parentId == 0 || exists i :: 0 <= i < j && t[s[i]].id == t[s[j]].parentId {
      if j < |p| {
        assert s[j] == p[j];
        if t[p[j]].parentId != 0 {
          var i :| 0 <= i < j && t[p[i]].id == t[p[j]].parentId;
          assert s[i] == p[i];
        }
      } else {
        assert s[j] == q[j - |p|];
        if q[j - |p|] != r {
          var i :| 0 <= i < j - |p| && t[q[i]].id == t[q[j - |p|]].parentId;
          assert s[|p| + i] == q[i];
        }
      }
    }
  }

  lemma EarlierListable(t: Table, list: seq<nat>)
    requires ParentsEarlier(t, list)
    ensures Listable(t, list)
  {
    forall j | 0 <= j < |list| ensures t[list[j]].parentId == 0 || ParentOf(t, list[j]) < |t| {
      if t[list[j]].parentId != 0 {
        var i :| 0 <= i < j && t[list[i]].id == t[list[j]].parentId;
      }
    }
  }

  /** export_groups */
  method ExportGroups(t: Table, le: (Group, Group) -> bool, ghost depth: nat -> nat, ghost n: nat)
    returns (csv: seq<Row>)
    requires Deep(t, depth, n)
    ensures Listable(t, AllListed(t, le, depth, n)) && csv == Rows(t, AllListed(t, le, depth, n))
  {
    hide Roots; hide Descendants; hide Deep;
    var list := new Items();
    var roots := Roots(t, le);
    for m := 0 to |roots|
      invariant list.items == Listed(t, le, m, depth, n)
    {
      assert roots[m] in roots;
      list.PushDescendants(t, le, AnyGroup(), roots[m], depth, n);
    }
    ListedOrdered(t, le, |roots|, depth, n);
    EarlierListable(t, list.items);
    csv := WriteRows(t, list.items);
  }

  method WriteRows(t: Table, list: seq<nat>) returns (csv: seq<Row>)
    requires Listable(t, list)
    ensures csv == Rows(t, list)
  {
    csv := [];
    for k := 0 to |list|
      invariant Listable(t, list[..k]) && csv == Rows(t, list[..k])
    {
      assert list[..k + 1][..k] == list[..k];
      var x := list[k];
      if t[x].parentId != 0 {
        csv := csv + [Row(Some(t[x].data.code), Some(t[ParentOf(t, x)].data.code), t[x].data.fields)];
      }
    }
    assert list[..|list|] == list;
  }

  // ----- Import -----

  /** A stored group; the code, unique by validation, is its key. */
  datatype Rec = Rec(id: nat, parentId: nat, fields: Fields)

  datatype Db = Db(groups: map<string, Rec>, nextId: nat)

  datatype Result = Added | Updated | Failed | Unchanged

  /** The presence checks of the group model. */
  predicate Validates(code: string, f: Fields) {
    !Blank(code) && Given(f.state) && Given(f.level) && Given(f.name) && Given(f.nameEn) && Given(f.ldap)
  }

  function ImportRow(db: Db, row: Row): (Db, Result) {
    if !Given(row.code) || !Given(row.parentCode) || row.parentCode.value !in db.groups then (db, Failed)
    else
      var code, parentId := row.code.value, db.groups[row.parentCode.value].id;
      if code in db.groups && db.groups[code] == Rec(db.groups[code].id, parentId, row.fields) then (db, Unchanged)
      else if !Validates(code, row.fields) then (db, Failed)
      else if code in db.groups then
        (db.(groups := db.groups[code := Rec(db.groups[code].id, parentId, row.fields)]), Updated)
      else (Db(db.groups[code := Rec(db.nextId, parentId, row.fields)], db.nextId + 1), Added)
  }

  ghost predicate Shown(s: Option<string>) {
    s.Some? && HasText(s.value)
  }

  /** The row has a code and names a parent that is there. */
  ghost predicate Placed(db: Db, row: Row) {
    Shown(row.code) && Shown(row.parentCode) && row.parentCode.value in db.groups
  }

  /** The group is stored with this parent and these columns. */
  ghost predicate Stored(db: Db, row: Row)
    requires Placed(db, row)
  {
    var code := row.code.value;
    code in db.groups && db.groups[code].parentId == db.groups[row.parentCode.value].id
      && db.groups[code].fields == row.fields
  }

  ghost predicate Full(f: Fields) {
    Shown(f.state) && Shown(f.level) && Shown(f.name) && Shown(f.nameEn) && Shown(f.ldap)
  }

  /** A row fails exactly when it cannot be placed, or would change something and lacks a column; otherwise its group
      is stored afterwards, a new one under a new id. */
  lemma RowOutcome(db: Db, row: Row)
    ensures var (after, r) := ImportRow(db, row);
      && (r == Failed <==> !Placed(db, row) || (!Stored(db, row) && !Full(row.fields)))
      && (r == Unchanged <==> Placed(db, row) && Stored(db, row))
      && (r in {Failed, Unchanged} ==> after == db)
      && (r in {Added, Updated} ==>
        && Placed(after, row) && Stored(after, row) && row.parentCode.value in after.groups
        && (r == Added <==> row.code.value !in db.groups)
        && after.groups == db.groups[row.code.value := after.groups[row.code.value]]
        && (if r == Added then after.groups[row.code.value].id == db.nextId && after.nextId == db.nextId + 1
            else after.groups[row.code.value].id == db.groups[row.code.value].id && after.nextId == db.nextId))
  {
    forall s: string ensures HasText(s) <==> !Blank(s) {}
    hide HasText; hide Blank;
  }

  datatype Counts = Counts(added: nat, updated: nat, failed: nat)

  function Count(c: Counts, r: Result): Counts {
    match r
    case Added => c.(added := c.added + 1)
    case Updated => c.(updated := c.updated + 1)
    case Failed => c.(failed := c.failed + 1)
    case Unchanged => c
  }

  function Import(db: Db, rows: seq<Row>): (Db, Counts) {
    if rows == [] then (db, Counts(0, 0, 0))
    else
      var (before, c) := Import(db, rows[..|rows| - 1]);
      var (after, r) := ImportRow(before, rows[|rows| - 1]);
      (after, Count(c, r))
  }

  class Importer {
    var groups: map<string, Rec>
    var nextId: nat
    var results: Counts

    constructor (db: Db)
      ensures groups == db.groups && nextId == db.nextId && results == Counts(0, 0, 0)
    {
      groups, nextId, results := db.groups, db.nextId, Counts(0, 0, 0);
    }

    method ImportOne(row: Row)
      modifies this
      ensures var (db, r) := ImportRow(Db(old(groups), old(nextId)), row);
        groups == db.groups && nextId == db.nextId && results == Count(old(results), r)
    {
      hide Blank;
      if !Given(row.code) || !Given(row.parentCode) {
        results := results.(failed := results.failed + 1);
        return;
      }
      if row.parentCode.value !in groups {
        results := results.(failed := results.failed + 1);
        return;
      }
      var parent, code := groups[row.parentCode.value], row.code.value;
      var built := code !in groups;
      var group := Rec(if built then nextId else groups[code].id, parent.id, row.fields);
      if !built && group == groups[code] {
        return;
      }
      if Validates(code, row.fields) {
        groups := groups[code := group];
        if built {
          nextId, results := nextId + 1, results.(added := results.added + 1);
        } else {
          results := results.(updated := results.updated + 1);
        }
      } else {
        results := results.(failed := results.failed + 1);
      }
    }

    /** import_groups */
    method ImportGroups(rows: seq<Row>)
      requires results == Counts(0, 0, 0)
      modifies this
      ensures (Db(groups, nextId), results) == Import(Db(old(groups), old(nextId)), rows)
    {
      for k := 0 to |rows|
        invariant (Db(groups, nextId), results) == Import(Db(old(groups), old(nextId)), rows[..k])
      {
        hide ImportRow;
        assert rows[..k + 1][..k] == rows[..k];
        ImportOne(rows[k]);
      }
      assert rows[..|rows|] == rows;
    }
  }

  /** Rows with this result, each imported after those before it. */
  ghost function Tally(db: Db, rows: seq<Row>, r: Result): nat {
    if rows == [] then 0
    else
      var init := rows[..|rows| - 1];
      Tally(db, init, r) + if ImportRow(Import(db, init).0, rows[|rows| - 1]).1 == r then 1 else 0
  }

  /** The counters are the numbers of rows added, updated and failed; as many groups are new as rows were added. */
  lemma {:induction false} CountsAre(db: Db, rows: seq<Row>)
    ensures var (after, c) := Import(db, rows);
      && c == Counts(Tally(db, rows, Added), Tally(db, rows, Updated), Tally(db, rows, Failed))
      && c.added + c.updated + c.failed + Tally(db, rows, Unchanged) == |rows|
      && |after.groups| == |db.groups| + c.added && after.nextId == db.nextId + c.added
  {
    hide ImportRow;
    if rows != [] {
      var (before, c) := Import(db, rows[..|rows| - 1]);
      CountsAre(db, rows[..|rows| - 1]);
      RowCounts(before, rows[|rows| - 1]);
    }
  }

  lemma RowCounts(db: Db, row: Row)
    ensures var (after, r) := ImportRow(db, row);
      && |after.groups| == |db.groups| + (if r == Added then 1 else 0)
      && after.nextId == db.nextId + if r == Added then 1 else 0
  {
    hide Blank;
    var (after, r) := ImportRow(db, row);
    if r == Added {
      assert after.groups.Keys == db.groups.Keys + {row.code.value};
    } else if r == Updated {
      assert after.groups.Keys == db.groups.Keys;
    }
  }
}
