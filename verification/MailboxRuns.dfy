/** Runs of mailbox operations. */
module MailboxRuns {
  // Deleting a mailbox tree, and what every sequence of create, rename, delete and sync keeps: filters that
  // had a live target and cached headers never point at a mailbox that is not in the table. Names may repeat in it.
  import opened Collections
  import opened MailboxForest
  import opened MailboxNames
  import opened MailboxRecords
  import opened MailboxRename
  import opened MailboxSync
  import opened MailboxTree
  import opened Text

  // ----- destroy with its callbacks, over the loaded tree -----

  ghost function Drop(p: Picture, name: string): Picture {
    p.(filters := DisableFilters(p.filters, name), nodes := DeleteNodes(p.nodes, name))
  }

  ghost function DestroySpec(p: Picture, t: Tree): (q: Picture)
    requires Ids(t) <= p.mem.Keys
    ensures q.mem == p.mem
    decreases t
  {
    var name := p.mem[t.id].name;
    var q := if !Blank(name) then DestroyKids(Drop(p, name), t, |t.kids|) else p;
    q.(rows := q.rows - {t.id})
  }

  ghost function DestroyKids(p: Picture, t: Tree, n: nat): (q: Picture)
    requires n <= |t.kids| && Ids(t) <= p.mem.Keys
    ensures q.mem == p.mem
    decreases t, n
  {
    if n == 0 then p
    else
      assert Ids(t.kids[n - 1]) <= Ids(t) by { KidIds(t, n, n - 1); }
      DestroySpec(DestroyKids(p, t, n - 1), t.kids[n - 1])
  }

  /** The filters and cached headers of one name go. */
  method DropName(db: Database, name: string, ghost all: map<nat, Mailbox>)
    modifies db
    ensures Snapshot(db, all) == Drop(old(Snapshot(db, all)), name)
  {
    hide DisableFilters; hide DeleteNodes;
    db.filters := DisableFilters(db.filters, name);
    db.nodes := DeleteNodes(db.nodes, name);
  }

  lemma DestroyIs(p: Picture, t: Tree)
    requires Ids(t) <= p.mem.Keys
    ensures t.id in p.mem
    ensures DestroySpec(p, t) ==
      var q := if !Blank(p.mem[t.id].name) then DestroyKids(Drop(p, p.mem[t.id].name), t, |t.kids|) else p;
        q.(rows := q.rows - {t.id})
  {
    hide Drop; hide DestroyKids; hide Blank;
  }

  method DestroyTree(item: Mailbox, db: Database, ghost t: Tree, ghost all: map<nat, Mailbox>)
    requires Indexed(all) && Represents(all, t) && item == all[t.id] && Ids(t) <= all.Keys
    modifies db
    ensures Snapshot(db, all) == DestroySpec(old(Snapshot(db, all)), t)
    decreases t
  {
    RepresentsKids(all, t);
    ghost var p := Snapshot(db, all);
    DestroyIs(p, t);
    assert p.mem[t.id].name == item.name;
    hide Represents; hide Indexed; hide IdsUpTo; hide DestroyKids; hide Blank; hide DestroySpec; hide Drop; hide Ids;
    if !Blank(item.name) {
      DropName(db, item.name, all);
      DestroyChildren(item, db, t, all);
    }
    db.rows := db.rows - {item.id};
  }

  method DestroyChildren(item: Mailbox, db: Database, ghost t: Tree, ghost all: map<nat, Mailbox>)
    requires Indexed(all) && Represents(all, t) && item == all[t.id] && Ids(t) <= all.Keys
    modifies db
    ensures Snapshot(db, all) == DestroyKids(old(Snapshot(db, all)), t, |t.kids|)
    decreases t, 0
  {
    RepresentsKids(all, t);
    hide Represents; hide DestroySpec;
    for k := 0 to |item.children|
      invariant Snapshot(db, all) == DestroyKids(old(Snapshot(db, all)), t, k)
    {
      KidIds(t, |t.kids|, k);
      DestroyTree(item.children[k], db, t.kids[k], all);
    }
  }

  // ----- Effect -----

  ghost function MemNames(p: Picture, ids: set<nat>): set<string>
    requires ids <= p.mem.Keys
  {
    set i | i in ids :: p.mem[i].name
  }

  /** q is p without the rows in `ids` and without anything stored about their names. */
  ghost predicate Destroyed(p: Picture, q: Picture, ids: set<nat>)
    requires ids <= p.mem.Keys
  {
    && q.mem == p.mem && q.rows == p.rows - ids
    && FiltersDropped(p.filters, q.filters, MemNames(p, ids))
    && NodesDropped(p.nodes, q.nodes, MemNames(p, ids))
  }

  lemma DestroyedThen(p: Picture, q: Picture, r: Picture, ids: set<nat>, more: set<nat>)
    requires ids <= p.mem.Keys && more <= p.mem.Keys
    requires Destroyed(p, q, ids) && Destroyed(q, r, more)
    requires "" !in MemNames(p, ids) && "" !in MemNames(p, more)
    ensures Destroyed(p, r, ids + more)
  {
    assert MemNames(p, ids + more) == MemNames(p, ids) + MemNames(p, more);
  }

  lemma {:induction false} DestroyEffect(p: Picture, t: Tree)
    requires Ids(t) <= p.mem.Keys && forall i :: i in Ids(t) ==> !Blank(p.mem[i].name)
    ensures Destroyed(p, DestroySpec(p, t), Ids(t))
    decreases t
  {
    var name := p.mem[t.id].name;
    var p1 := Drop(p, name);
    DestroyKidsEffect(p1, t, |t.kids|);
    var q := DestroyKids(p1, t, |t.kids|);
    DropTop(p, q, t.id, IdsUpTo(t, |t.kids|));
  }

  lemma DropTop(p: Picture, q: Picture, top: nat, ids: set<nat>)
    requires top in p.mem && ids <= p.mem.Keys && !Blank(p.mem[top].name)
    requires forall i :: i in ids ==> !Blank(p.mem[i].name)
    requires Destroyed(Drop(p, p.mem[top].name), q, ids)
    ensures Destroyed(p, q.(rows := q.rows - {top}), {top} + ids)
  {
    DeleteNodesDrops(p.nodes, p.mem[top].name);
    assert MemNames(p, {top} + ids) == {p.mem[top].name} + MemNames(p, ids);
    assert MemNames(Drop(p, p.mem[top].name), ids) == MemNames(p, ids);
    assert forall i :: i in ids ==> p.mem[i].name != "";
  }

  lemma {:induction false} DestroyKidsEffect(p: Picture, t: Tree, n: nat)
    requires n <= |t.kids| && Ids(t) <= p.mem.Keys && forall i :: i in Ids(t) ==> !Blank(p.mem[i].name)
    ensures IdsUpTo(t, n) <= Ids(t)
    ensures Destroyed(p, DestroyKids(p, t, n), IdsUpTo(t, n))
    decreases t, n
  {
    IdsGrow(t, n);
    if n > 0 {
      KidIds(t, n, n - 1);
      DestroyKidsEffect(p, t, n - 1);
      var q := DestroyKids(p, t, n - 1);
      DestroyEffect(q, t.kids[n - 1]);
      NamesNotEmpty(p, IdsUpTo(t, n - 1));
      NamesNotEmpty(p, Ids(t.kids[n - 1]));
      DestroyedThen(p, q, DestroyKids(p, t, n), IdsUpTo(t, n - 1), Ids(t.kids[n - 1]));
    } else {
      assert MemNames(p, {}) == {};
    }
  }

  lemma NamesNotEmpty(p: Picture, ids: set<nat>)
    requires ids <= p.mem.Keys && forall i :: i in ids ==> !Blank(p.mem[i].name)
    ensures "" !in MemNames(p, ids)
  {
  }

  // ----- The loop of delete_mailbox over the descendants -----

  /** A record and what hangs below it, in the order in which descendants lists them. */
  ghost function Subtrees(t: Tree): seq<Tree>
    decreases t
  {
    [t] + SubtreesUpTo(t, |t.kids|)
  }

  ghost function SubtreesUpTo(t: Tree, n: nat): seq<Tree>
    requires n <= |t.kids|
    decreases t, n
  {
    if n == 0 then [] else SubtreesUpTo(t, n - 1) + Subtrees(t.kids[n - 1])
  }

  lemma {:induction false} SubtreeIds(t: Tree)
    ensures forall s :: s in Subtrees(t) ==> Ids(s) <= Ids(t)
    decreases t
  {
    SubtreeIdsUpTo(t, |t.kids|);
  }

  lemma {:induction false} SubtreeIdsUpTo(t: Tree, n: nat)
    requires n <= |t.kids|
    ensures forall s :: s in SubtreesUpTo(t, n) ==> Ids(s) <= Ids(t)
    decreases t, n
  {
    if n > 0 {
      SubtreeIdsUpTo(t, n - 1);
      SubtreeIds(t.kids[n - 1]);
      KidIds(t, n, n - 1);
    }
  }

  /** The records are those of the subtrees. */
  ghost predicate Records(items: seq<Mailbox>, ts: seq<Tree>, all: map<nat, Mailbox>)
    reads all.Values`children
  {
    |items| == |ts| && forall k :: 0 <= k < |ts| ==> Represents(all, ts[k]) && items[k] == all[ts[k].id]
  }

  lemma RecordsJoin(items: seq<Mailbox>, ts: seq<Tree>, more: seq<Mailbox>, us: seq<Tree>, all: map<nat, Mailbox>)
    requires Records(items, ts, all) && Records(more, us, all)
    ensures Records(items + more, ts + us, all)
  {
    hide Represents;
  }

  /** descendants */
  method Descendants(item: Mailbox, ghost t: Tree, ghost all: map<nat, Mailbox>) returns (items: seq<Mailbox>)
    requires Represents(all, t) && item == all[t.id]
    ensures Records(items, Subtrees(t), all)
    decreases t
  {
    RepresentsKids(all, t);
    items := [item];
    assert Records(items, [t], all);
    hide Represents;
    for k := 0 to |item.children|
      invariant Records(items, [t] + SubtreesUpTo(t, k), all)
    {
      hide Records;
      var below := Descendants(item.children[k], t.kids[k], all);
      RecordsJoin(items, [t] + SubtreesUpTo(t, k), below, Subtrees(t.kids[k]), all);
      assert [t] + SubtreesUpTo(t, k) + Subtrees(t.kids[k]) == [t] + SubtreesUpTo(t, k + 1);
      items := items + below;
    }
  }

  lemma {:induction false} DeleteNone(ns: seq<CacheRow>, name: string)
    requires forall j :: 0 <= j < |ns| ==> ns[j].mailbox != name
    ensures DeleteNodes(ns, name) == ns
  {
    if ns != [] {
      DeleteNone(ns[..|ns| - 1], name);
      assert ns == ns[..|ns| - 1] + [ns[|ns| - 1]];
    }
  }

  /** No row of the tree is left, and nothing stored names one. */
  ghost predicate Emptied(q: Picture, t: Tree) {
    && Ids(t) <= q.mem.Keys && Ids(t) !! q.rows.Keys
    && (forall i, j :: i in Ids(t) && 0 <= j < |q.filters| ==> q.filters[j].mailboxName != q.mem[i].name)
    && (forall i, j :: i in Ids(t) && 0 <= j < |q.nodes| ==> q.nodes[j].mailbox != q.mem[i].name)
  }

  lemma {:induction false} DestroyNone(q: Picture, t: Tree)
    requires Emptied(q, t)
    ensures DestroySpec(q, t) == q
    decreases t
  {
    var name := q.mem[t.id].name;
    DeleteNone(q.nodes, name);
    assert DisableFilters(q.filters, name) == q.filters;
    assert Drop(q, name) == q;
    DestroyNoKids(q, t, |t.kids|);
    assert q.rows - {t.id} == q.rows;
  }

  lemma {:induction false} DestroyNoKids(q: Picture, t: Tree, n: nat)
    requires Emptied(q, t) && n <= |t.kids|
    ensures DestroyKids(q, t, n) == q
    decreases t, n
  {
    if n > 0 {
      DestroyNoKids(q, t, n - 1);
      KidIds(t, n, n - 1);
      DestroyNone(q, t.kids[n - 1]);
    }
  }

  lemma AfterDestroy(p: Picture, t: Tree)
    requires Ids(t) <= p.mem.Keys && forall i :: i in Ids(t) ==> !Blank(p.mem[i].name)
    ensures Emptied(DestroySpec(p, t), t)
  {
    DestroyEffect(p, t);
    var q, gone := DestroySpec(p, t), MemNames(p, Ids(t));
    NamesNotEmpty(p, Ids(t));
    hide DestroySpec; hide Ids; hide Blank;
    forall i | i in Ids(t) ensures p.mem[i].name in gone {}
    forall j | 0 <= j < |q.nodes| ensures q.nodes[j].mailbox !in gone { assert multiset(q.nodes)[q.nodes[j]] > 0; }
  }

  /** Destroying part of a destroyed subtree changes nothing more. */
  lemma DestroyAgain(p: Picture, t: Tree, s: Tree)
    requires Ids(t) <= p.mem.Keys && (forall i :: i in Ids(t) ==> !Blank(p.mem[i].name)) && s in Subtrees(t)
    ensures Ids(s) <= Ids(t) && DestroySpec(DestroySpec(p, t), s) == DestroySpec(p, t)
  {
    AfterDestroy(p, t);
    SubtreeIds(t);
    hide DestroySpec; hide Ids; hide Subtrees;
    DestroyNone(DestroySpec(p, t), s);
  }

  /** delete_mailbox: rolled back when the server refuses. */
  method DeleteMailbox(item: Mailbox, db: Database, accepted: bool, ghost t: Tree, ghost all: map<nat, Mailbox>)
    requires Indexed(all) && Represents(all, t) && item == all[t.id] && Ids(t) <= all.Keys
    modifies db
    ensures Snapshot(db, all) == if accepted then DestroySpec(old(Snapshot(db, all)), t) else old(Snapshot(db, all))
  {
    hide Represents; hide Ids; hide DestroySpec;
    var rows, filters, nodes := db.rows, db.filters, db.nodes;
    DestroyTree(item, db, t, all);
    if !accepted { db.rows, db.filters, db.nodes := rows, filters, nodes; }
  }

  /** The loop over the descendants; the server accepts the first `accepts` deletions, and an error ends the loop.
      The first deletion that is accepted empties the tables of the whole subtree. */
  method DeleteDescendants(item: Mailbox, db: Database, accepts: nat, ghost t: Tree, ghost all: map<nat, Mailbox>)
    returns (deleted: seq<string>)
    requires Indexed(all) && Represents(all, t) && item == all[t.id] && Ids(t) <= all.Keys
    requires forall i :: i in Ids(t) ==> !Blank(all[i].name)
    modifies db
    ensures Snapshot(db, all) == AfterDeletes(old(Snapshot(db, all)), t, accepts)
    ensures |deleted| == if accepts < |Subtrees(t)| then accepts else |Subtrees(t)|
    ensures AreNames(deleted, Subtrees(t), all)
  {
    hide *;
    deleted := [];
    var items := Descendants(item, t, all);
    ghost var ts, before := Subtrees(t), Snapshot(db, all);
    FirstSubtree(t, items, all);
    SnapshotNames(db, all, t);
    NoNames(ts, all);
    NoDelete(before, t);
    for k := 0 to |items|
      invariant |deleted| == k <= accepts && |items| == |ts|
      invariant AreNames(deleted, ts, all) && Snapshot(db, all) == AfterDeletes(before, t, k)
    {
      hide *;
      RecordAt(items, ts, all, k);
      OneMoreDelete(before, t, k);
      DeleteMailbox(items[k], db, k < accepts, ts[k], all);
      if k == accepts { return; }
      OneMoreName(deleted, ts, all, k);
      deleted := deleted + [items[k].name];
    }
    SameAfter(before, t, |items|, accepts);
  }

  /** The tables after n deletions. */
  ghost function AfterDeletes(p: Picture, t: Tree, n: nat): (q: Picture)
    requires Ids(t) <= p.mem.Keys
    ensures q.mem == p.mem
  {
    if n == 0 then p else DestroySpec(p, t)
  }

  ghost predicate AreNames(names: seq<string>, ts: seq<Tree>, all: map<nat, Mailbox>)
    reads all.Values`name
  {
    |names| <= |ts| && forall k :: 0 <= k < |names| ==> ts[k].id in all && names[k] == all[ts[k].id].name
  }

  lemma NoNames(ts: seq<Tree>, all: map<nat, Mailbox>)
    ensures AreNames([], ts, all)
  {
  }

  lemma OneMoreName(names: seq<string>, ts: seq<Tree>, all: map<nat, Mailbox>, k: nat)
    requires AreNames(names, ts, all) && |names| == k < |ts| && ts[k].id in all
    ensures AreNames(names + [all[ts[k].id].name], ts, all)
  {
  }

  lemma FirstSubtree(t: Tree, items: seq<Mailbox>, all: map<nat, Mailbox>)
    requires Records(items, Subtrees(t), all)
    ensures |items| == |Subtrees(t)| > 0 && Subtrees(t)[0] == t
  {
  }

  lemma SnapshotNames(db: Database, all: map<nat, Mailbox>, t: Tree)
    requires Ids(t) <= all.Keys && forall i :: i in Ids(t) ==> !Blank(all[i].name)
    ensures Ids(t) <= Snapshot(db, all).mem.Keys && forall i :: i in Ids(t) ==> !Blank(Snapshot(db, all).mem[i].name)
  {
    hide Ids; hide Blank;
  }

  lemma OneMoreDelete(p: Picture, t: Tree, k: nat)
    requires Ids(t) <= p.mem.Keys && (forall i :: i in Ids(t) ==> !Blank(p.mem[i].name)) && k < |Subtrees(t)|
    ensures Ids(Subtrees(t)[k]) <= Ids(t)
    ensures DestroySpec(AfterDeletes(p, t, k), Subtrees(t)[k]) == AfterDeletes(p, t, k + 1)
  {
    assert Subtrees(t)[k] in Subtrees(t) && Subtrees(t)[0] == t;
    hide DestroySpec; hide Ids; hide Blank; hide Subtrees;
    DestroyAgain(p, t, Subtrees(t)[k]);
  }

  lemma NoDelete(p: Picture, t: Tree)
    requires Ids(t) <= p.mem.Keys
    ensures AfterDeletes(p, t, 0) == p
  {
  }

  lemma SameAfter(p: Picture, t: Tree, m: nat, n: nat)
    requires Ids(t) <= p.mem.Keys && 0 < m <= n
    ensures AfterDeletes(p, t, m) == AfterDeletes(p, t, n)
  {
  }

  lemma RecordAt(items: seq<Mailbox>, ts: seq<Tree>, all: map<nat, Mailbox>, k: nat)
    requires Records(items, ts, all) && k < |ts|
    ensures |items| == |ts| && Represents(all, ts[k]) && ts[k].id in all && items[k] == all[ts[k].id]
  {
  }

  /** A delete request: load, find record `top`, run the loop. */
  method DeleteRequest(db: Database, order: seq<nat>, top: nat, accepts: nat, d: char) returns (deleted: seq<string>)
    requires AllWellNamed(db.rows, d) && Lists(order, db.rows) && top in db.rows
    requires (forall i :: i in order ==> i in db.rows) && forall i :: i in db.rows ==> !Blank(db.rows[i].name)
    modifies db
    ensures AllWellNamed(old(db.rows), d) && Ids(LoadedTree(old(db.rows), order, top, d)) <= old(db.rows).Keys
    ensures var t := LoadedTree(old(db.rows), order, top, d);
      var q := AfterDeletes(Picture(old(db.rows), old(db.filters), old(db.nodes), old(db.rows)), t, accepts);
      && db.rows == q.rows && db.filters == q.filters && db.nodes == q.nodes
      && AreNamesOf(deleted, Subtrees(t), old(db.rows))
      && |deleted| == if accepts < |Subtrees(t)| then accepts else |Subtrees(t)|
  {
    hide *;
    LoadedTreeShaped(db.rows, order, top, d);
    ghost var t, rows := LoadedTree(db.rows, order, top, d), db.rows;
    var items, all := Load(db, order, d);
    LoadedSnapshot(db, all, items, order);
    ListedIn(order, db.rows, all, items, top);
    RepresentsTop(all, t, items, order);
    NamesLoaded(items, order, rows, all, t);
    var item := Detect(items, order, top);
    deleted := DeleteDescendants(item, db, accepts, t, all);
    SnapshotFields(db, all);
    NamesFromRows(deleted, Subtrees(t), items, order, rows, all);
  }

  ghost predicate AreNamesOf(names: seq<string>, ts: seq<Tree>, rows: map<nat, Row>) {
    |names| <= |ts| && forall k :: 0 <= k < |names| ==> ts[k].id in rows && names[k] == rows[ts[k].id].name
  }

  lemma NamesLoaded(items: seq<Mailbox>, order: seq<nat>, rows: map<nat, Row>, all: map<nat, Mailbox>, t: Tree)
    requires LoadedItems(items, order, rows) && ById(all, items, order) && Ids(t) <= rows.Keys && Lists(order, rows)
    requires forall i :: i in rows ==> !Blank(rows[i].name)
    ensures Ids(t) <= all.Keys && forall i :: i in Ids(t) ==> !Blank(all[i].name)
  {
    hide Ids; hide Blank;
    forall i | i in Ids(t) ensures i in all && all[i].name == rows[i].name {
      assert i in rows && i in order;
      var j :| 0 <= j < |order| && order[j] == i;
    }
  }

  lemma NamesFromRows(names: seq<string>, ts: seq<Tree>, items: seq<Mailbox>, order: seq<nat>, rows: map<nat, Row>,
                      all: map<nat, Mailbox>)
    requires LoadedItems(items, order, rows) && ById(all, items, order) && AreNames(names, ts, all)
    ensures AreNamesOf(names, ts, rows)
  {
    forall k | 0 <= k < |names| ensures ts[k].id in rows && names[k] == rows[ts[k].id].name {
      assert ts[k].id in all && ts[k].id in order;
      var j :| 0 <= j < |order| && order[j] == ts[k].id;
    }
  }

  // ----- Runs -----

  datatype Account = Account(rows: map<nat, Row>, filters: seq<Filter>, nodes: seq<CacheRow>)

  /** One request. `accepted` is the server's answer; without it the transaction is rolled back. Delete is the loop over
      the descendants of a record, of which the server deletes the first n. */
  datatype Step =
    | Create(id: nat, row: Row, accepted: bool)
    | Rename(order: seq<nat>, top: nat, title: string, name: string, accepted: bool)
    | Delete(order: seq<nat>, top: nat, n: nat)
    | Sync(boxes: seq<string>, titleOf: string -> string)
    | CacheHeader(node: CacheRow)

  ghost function LoadedPicture(a: Account): Picture {
    Picture(a.rows, a.filters, a.nodes, a.rows)
  }

  ghost predicate Sane(a: Account, d: char) {
    AllWellNamed(a.rows, d) && forall i :: i in a.rows ==> !Blank(a.rows[i].name)
  }

  /** What a request asks for; the table may hold the new name already. */
  ghost predicate Allowed(a: Account, s: Step, d: char) {
    match s
    case Create(id, row, ok) => id !in a.rows && WellNamed(row.name, d) && !Blank(row.name)
    case Rename(order, top, title, name, ok) =>
      Lists(order, a.rows) && top in a.rows && (ok ==> WellNamed(name, d) && !Blank(name) && name != a.rows[top].name)
    case Delete(order, top, n) => Lists(order, a.rows) && top in a.rows
    case Sync(boxes, titleOf) => NoRepeats(boxes) && forall b :: b in boxes ==> WellNamed(b, d) && !Blank(b)
    case CacheHeader(node) => HasRow(a.rows, node.mailbox)
  }

  /** The tables after a sync, as SyncMailboxes leaves them. */
  ghost predicate Synced(a: Account, b: Account, boxes: seq<string>, titleOf: string -> string) {
    && (forall i :: i in b.rows ==> b.rows[i].name in boxes || (i in a.rows && b.rows[i] == a.rows[i]))
    && (forall x :: x in boxes ==> HasRow(b.rows, x))
    && (UniqueNames(a.rows) ==> UniqueNames(b.rows) && forall i :: i in b.rows ==> b.rows[i].name in boxes)
    && FiltersDropped(a.filters, b.filters, Gone(a.rows, boxes))
    && NodesDropped(a.nodes, b.nodes, Gone(a.rows, boxes))
  }

  ghost predicate Next(a: Account, s: Step, b: Account, d: char)
    requires Sane(a, d) && Allowed(a, s, d)
  {
    match s
    case Create(id, row, ok) =>
      b == if ok && ValidTitle(row.title) then a.(rows := a.rows[id := row]) else a
    case Rename(order, top, title, name, ok) =>
      if ok then
        var q := RequestSpec(a.rows, a.filters, a.nodes, order, top, title, name, d);
        b == Account(q.rows, q.filters, q.nodes)
      else b == a
    case Delete(order, top, n) =>
      Ids(LoadedTree(a.rows, order, top, d)) <= a.rows.Keys &&
      var q := AfterDeletes(LoadedPicture(a), LoadedTree(a.rows, order, top, d), n);
      b == Account(q.rows, q.filters, q.nodes)
    case Sync(boxes, titleOf) => Synced(a, b, boxes, titleOf)
    case CacheHeader(node) => b == a.(nodes := a.nodes + [node])
  }

  ghost predicate HasRow(rows: map<nat, Row>, s: string) {
    Names(rows, rows.Keys, s)
  }

  /** The filters in `tracked` that are enabled, and all cached headers, name a mailbox of the table. */
  ghost predicate Live(a: Account, tracked: set<nat>) {
    && (forall j :: j in tracked ==>
           j < |a.filters| && (a.filters[j].enabled ==> HasRow(a.rows, a.filters[j].mailboxName)))
    && (forall n :: n in a.nodes ==> HasRow(a.rows, n.mailbox))
  }

  /** What SyncMailboxes ensures is this step; the rows are then the listed mailboxes, each once, if and only if no
      name was repeated before. */
  lemma SyncMethodIsStep(a: Account, b: Account, order: seq<nat>, sortNo: map<nat, nat>, ids: seq<nat>,
                         boxes: seq<string>, titleOf: string -> string)
    requires |ids| == |boxes| && NoRepeats(boxes) && Placed(b.rows, sortNo, ids, boxes, titleOf)
    requires (forall i :: i in order <==> i in a.rows) && SyncedRows(a.rows, order, b.rows, ids, boxes)
    requires FiltersDropped(a.filters, b.filters, Gone(a.rows, boxes))
    requires NodesDropped(a.nodes, b.nodes, Gone(a.rows, boxes))
    ensures Synced(a, b, boxes, titleOf)
    ensures UniqueNames(b.rows) && NameSet(b.rows) == (set x | x in boxes) <==> UniqueNames(a.rows)
  {
    hide FiltersDropped; hide NodesDropped; hide IsIndexed; hide UniqueNames; hide Gone;
    forall i | i in ids ensures b.rows[i].name in boxes {
      var j :| 0 <= j < |ids| && ids[j] == i;
    }
    forall x | x in boxes ensures HasRow(b.rows, x) && x in NameSet(b.rows) {
      var j :| 0 <= j < |boxes| && boxes[j] == x;
      assert ids[j] in b.rows.Keys && b.rows[ids[j]].name == x;
    }
    AllIndexed(a.rows, order);
    if UniqueNames(a.rows) {
      SyncedDistinct(b, sortNo, ids, boxes, titleOf);
    } else {
      var i :| i in a.rows && !IsIndexed(a.rows, order, i);
      assert i in b.rows && i !in ids && b.rows[i].name in NameSet(b.rows);
      if b.rows[i].name in boxes { CopyLeft(b, sortNo, ids, boxes, titleOf, i); }
    }
  }

  lemma AllIndexed(rows: map<nat, Row>, order: seq<nat>)
    requires forall i :: i in rows ==> i in order
    ensures UniqueNames(rows) <==> forall i :: i in rows ==> IsIndexed(rows, order, i)
  {
  }

  /** A copy that was not indexed keeps its name beside the row that is. */
  lemma CopyLeft(b: Account, sortNo: map<nat, nat>, ids: seq<nat>, boxes: seq<string>, titleOf: string -> string,
                 i: nat)
    requires |ids| == |boxes| && Placed(b.rows, sortNo, ids, boxes, titleOf)
    requires i in b.rows && i !in ids && b.rows[i].name in boxes
    ensures !UniqueNames(b.rows)
  {
    var j :| 0 <= j < |boxes| && boxes[j] == b.rows[i].name;
    assert ids[j] in b.rows && b.rows[ids[j]].name == b.rows[i].name && ids[j] in ids;
  }

  lemma SyncedDistinct(b: Account, sortNo: map<nat, nat>, ids: seq<nat>, boxes: seq<string>, titleOf: string -> string)
    requires |ids| == |boxes| && NoRepeats(boxes) && Placed(b.rows, sortNo, ids, boxes, titleOf)
    requires forall i :: i in b.rows ==> i in ids
    ensures UniqueNames(b.rows)
  {
    forall i, k | i in b.rows && k in b.rows && b.rows[i].name == b.rows[k].name ensures i == k {
      var j :| 0 <= j < |ids| && ids[j] == i;
      var l :| 0 <= l < |ids| && ids[l] == k;
      assert boxes[j] == boxes[l];
    }
  }

  // ----- Each step -----

  lemma DroppedLive(a: Account, b: Account, gone: set<string>, tracked: set<nat>)
    requires Live(a, tracked)
    requires FiltersDropped(a.filters, b.filters, gone) && NodesDropped(a.nodes, b.nodes, gone)
    requires forall i :: i in a.rows && a.rows[i].name !in gone ==> HasRow(b.rows, a.rows[i].name)
    ensures Live(b, tracked)
  {
    forall n | n in b.nodes ensures HasRow(b.rows, n.mailbox) {
      assert multiset(b.nodes)[n] > 0;
      assert multiset(a.nodes)[n] > 0 && n.mailbox !in gone;
      assert n in a.nodes;
    }
  }

  lemma DeleteLive(a: Account, order: seq<nat>, top: nat, n: nat, b: Account, d: char, tracked: set<nat>)
    requires n > 0 && Sane(a, d) && Allowed(a, Delete(order, top, n), d) && Next(a, Delete(order, top, n), b, d)
    requires Live(a, tracked)
    ensures Sane(b, d) && Live(b, tracked)
  {
    var t := LoadedTree(a.rows, order, top, d);
    hide *;
    DeletedFields(a, order, top, n, b, d);
    DroppedLive(a, b, MemNames(LoadedPicture(a), Ids(t)), tracked);
  }

  lemma DeleteIs(a: Account, order: seq<nat>, top: nat, n: nat, b: Account, d: char, t: Tree)
    requires n > 0 && Sane(a, d) && Allowed(a, Delete(order, top, n), d) && Next(a, Delete(order, top, n), b, d)
    requires t == LoadedTree(a.rows, order, top, d)
    ensures Ids(t) <= LoadedPicture(a).mem.Keys && b.rows == a.rows - Ids(t)
    ensures FiltersDropped(a.filters, b.filters, MemNames(LoadedPicture(a), Ids(t)))
    ensures NodesDropped(a.nodes, b.nodes, MemNames(LoadedPicture(a), Ids(t)))
  {
    hide WellNamed; hide DestroySpec; hide Ids; hide LoadedTree; hide FiltersDropped; hide NodesDropped; hide Lists;
    hide Blank; hide AllWellNamed;
    hide MemNames;
    DestroyEffect(LoadedPicture(a), t);
  }

  lemma RowsLeft(a: Account, b: Account, ids: set<nat>, d: char)
    requires Sane(a, d) && ids <= LoadedPicture(a).mem.Keys && b.rows == a.rows - ids
    ensures Sane(b, d)
    ensures forall i :: i in a.rows && a.rows[i].name !in MemNames(LoadedPicture(a), ids) ==>
      HasRow(b.rows, a.rows[i].name)
  {
    hide WellNamed; hide Blank;
    forall i | i in a.rows && a.rows[i].name !in MemNames(LoadedPicture(a), ids) ensures HasRow(b.rows,
      a.rows[i].name) {
      assert i !in ids;
      assert i in b.rows.Keys && b.rows[i] == a.rows[i];
    }
  }

  lemma DeletedFields(a: Account, order: seq<nat>, top: nat, n: nat, b: Account, d: char)
    requires n > 0 && Sane(a, d) && Allowed(a, Delete(order, top, n), d) && Next(a, Delete(order, top, n), b, d)
    ensures Sane(b, d)
    ensures Ids(LoadedTree(a.rows, order, top, d)) <= LoadedPicture(a).mem.Keys
    ensures var gone := MemNames(LoadedPicture(a), Ids(LoadedTree(a.rows, order, top, d)));
      && FiltersDropped(a.filters, b.filters, gone) && NodesDropped(a.nodes, b.nodes, gone)
      && forall i :: i in a.rows && a.rows[i].name !in gone ==> HasRow(b.rows, a.rows[i].name)
  {
    var t := LoadedTree(a.rows, order, top, d);
    hide *;
    DeleteIs(a, order, top, n, b, d, t);
    RowsLeft(a, b, Ids(t), d);
  }

  lemma SyncLive(a: Account, boxes: seq<string>, titleOf: string -> string, b: Account, d: char, tracked: set<nat>)
    requires Sane(a, d) && Allowed(a, Sync(boxes, titleOf), d) && Next(a, Sync(boxes, titleOf), b, d)
    requires Live(a, tracked)
    ensures Sane(b, d) && Live(b, tracked)
  {
    hide WellNamed; hide FiltersDropped; hide NodesDropped; hide Names;
    forall i | i in a.rows && a.rows[i].name !in Gone(a.rows, boxes) ensures HasRow(b.rows, a.rows[i].name) {
      assert a.rows[i].name in boxes;
    }
    DroppedLive(a, b, Gone(a.rows, boxes), tracked);
  }

  lemma RenameRows(p: Picture, q: Picture, walk: seq<nat>, was: string, name: string, d: char)
    requires AllWellNamed(p.rows, d) && SameKeys(p, p.rows) && WellNamed(name, d) && WellNamed(was, d) && !Blank(name)
    requires forall i :: i in p.rows ==> !Blank(p.rows[i].name)
    requires q.rows == MovedRows(p, p.rows, walk, was, name, d) && WalksUnder(p.rows, walk, was, d) && was != name
    ensures AllWellNamed(q.rows, d) && forall i :: i in q.rows ==> !Blank(q.rows[i].name)
  {
    forall i | i in q.rows ensures WellNamed(q.rows[i].name, d) && !Blank(q.rows[i].name) {
      if i in walk {
        RenamedNotBlank(p.rows[i].name, was, name, d);
        if p.rows[i].name != was { AncestorRenamed(p.rows[i].name, was, name, d); }
          else { assert q.rows[i].name == name; }
      }
    }
  }

  /** Wherever a reference to a row is taken along, it names a row, renamed or not yet. */
  lemma {:induction false} FollowHasRow(rows: map<nat, Row>, walk: seq<nat>, n: nat, x: string, was: string,
                                        name: string, d: char) returns (i: nat)
    requires NoRepeats(walk) && n <= |walk| && HasRow(rows, x)
    ensures i in rows && Follow(rows, walk[..n], x, was, name, d)
      == if i in walk[..n] then RenamePath(rows[i].name, was, name, d) else rows[i].name
  {
    if n == 0 {
      i :| i in rows && rows[i].name == x;
    } else {
      hide *;
      i := FollowHasRow(rows, walk, n - 1, x, was, name, d);
      FollowNext(rows, walk, n - 1, x, was, name, d);
      var last := walk[n - 1];
      assert walk[..n] == walk[..n - 1] + [last];
      if last in rows && rows[last].name == Follow(rows, walk[..n - 1], x, was, name, d) { i := last; }
    }
  }

  lemma FollowNext(rows: map<nat, Row>, walk: seq<nat>, n: nat, x: string, was: string, name: string, d: char)
    requires n < |walk|
    ensures var y := Follow(rows, walk[..n], x, was, name, d);
      Follow(rows, walk[..n + 1], x, was, name, d)
      == if walk[n] in rows && rows[walk[n]].name == y then RenamePath(y, was, name, d) else y
  {
    hide RenamePath;
    assert walk[..n + 1][..n] == walk[..n];
  }

  lemma MovedHasRow(p: Picture, q: Picture, walk: seq<nat>, x: string, was: string, name: string, d: char)
    requires SameKeys(p, p.rows) && NoRepeats(walk) && q.rows == MovedRows(p, p.rows, walk, was, name, d)
    requires HasRow(p.rows, x)
    ensures HasRow(q.rows, Follow(p.rows, walk, x, was, name, d))
  {
    var i := FollowHasRow(p.rows, walk, |walk|, x, was, name, d);
    assert walk[..|walk|] == walk;
    hide Follow;
    assert q.rows[i].name == Follow(p.rows, walk, x, was, name, d);
  }

  /** The rows an accepted rename reaches. */
  ghost function Reached(a: Account, order: seq<nat>, top: nat, title: string, d: char): seq<nat>
    requires Sane(a, d) && top in a.rows
  {
    Walk(LoadedTree(a.rows, order, top, d), Ok(Titled(LoadedPicture(a), top, title)))
  }

  /** An accepted rename moves the rows it reaches and what is stored about them. */
  lemma RenameMoves(a: Account, order: seq<nat>, top: nat, title: string, name: string, b: Account, d: char)
    returns (p: Picture, q: Picture)
    requires Sane(a, d) && Allowed(a, Rename(order, top, title, name, true), d)
    requires Next(a, Rename(order, top, title, name, true), b, d)
    ensures p == Titled(LoadedPicture(a), top, title) && b == Account(q.rows, q.filters, q.nodes)
    ensures SameKeys(p, p.rows) && Effect(p, q, p.rows, Reached(a, order, top, title, d), a.rows[top].name, name, d)
    ensures NoRepeats(Reached(a, order, top, title, d))
    ensures WalksUnder(a.rows, Reached(a, order, top, title, d), a.rows[top].name, d)
  {
    p := Titled(LoadedPicture(a), top, title);
    hide AllWellNamed; hide WellNamed; hide Lists; hide Blank; hide RenameSpec; hide LoadedTree; hide Ids; hide Walk;
    hide Hangs; hide Shaped; hide Complete; hide Ok; hide Effect;
    q := RenameEffect(p, order, top, name, d);
    LoadedTreeShaped(a.rows, order, top, d);
    WalkOnce(a.rows, LoadedTree(a.rows, order, top, d), Ok(p), d);
    WalkBelow(a.rows, LoadedTree(a.rows, order, top, d), Ok(p), d);
  }

  lemma LoadedRows(a: Account, top: nat, title: string)
    requires top in a.rows
    ensures var p := Titled(LoadedPicture(a), top, title);
      p.rows == a.rows && p.filters == a.filters && p.nodes == a.nodes
  {
  }

  lemma RenameLive(a: Account, order: seq<nat>, top: nat, title: string, name: string, b: Account, d: char,
                   tracked: set<nat>)
    requires Sane(a, d) && Allowed(a, Rename(order, top, title, name, true), d)
    requires Next(a, Rename(order, top, title, name, true), b, d)
    requires Live(a, tracked)
    ensures Sane(b, d) && Live(b, tracked)
  {
    assert WellNamed(a.rows[top].name, d);
    var p, q := RenameMoves(a, order, top, title, name, b, d);
    var walk, was := Reached(a, order, top, title, d), a.rows[top].name;
    hide WellNamed; hide AllWellNamed; hide Lists; hide Blank; hide Next; hide Reached; hide Live; hide WalksUnder;
    EffectRows(p, q, p.rows, walk, was, name, d);
    RenameRows(p, q, walk, was, name, d);
    RefsLive(a, b, p, q, walk, was, name, d, tracked);
  }

  lemma RefsLive(a: Account, b: Account, p: Picture, q: Picture, walk: seq<nat>, was: string, name: string, d: char,
                 tracked: set<nat>)
    requires p.rows == a.rows && p.filters == a.filters && p.nodes == a.nodes
    requires b == Account(q.rows, q.filters, q.nodes)
    requires SameKeys(p, p.rows) && NoRepeats(walk) && Effect(p, q, p.rows, walk, was, name, d)
    requires Live(a, tracked)
    ensures Live(b, tracked)
  {
    hide HasRow; hide Follow; hide MovedRows; hide NoRepeats;
    forall j | j in tracked && b.filters[j].enabled ensures HasRow(b.rows, b.filters[j].mailboxName) {
      MovedHasRow(p, q, walk, a.filters[j].mailboxName, was, name, d);
    }
    forall n | n in b.nodes ensures HasRow(b.rows, n.mailbox) {
      var j :| 0 <= j < |b.nodes| && b.nodes[j] == n;
      assert a.nodes[j] in a.nodes;
      MovedHasRow(p, q, walk, a.nodes[j].mailbox, was, name, d);
    }
  }

  lemma MoreRowsLive(a: Account, b: Account, tracked: set<nat>)
    requires Live(a, tracked) && b.filters == a.filters
    requires forall i :: i in a.rows ==> i in b.rows && b.rows[i] == a.rows[i]
    requires forall n :: n in b.nodes ==> n in a.nodes || HasRow(b.rows, n.mailbox)
    ensures Live(b, tracked)
  {
    forall s | HasRow(a.rows, s) ensures HasRow(b.rows, s) {
      var i :| i in a.rows && a.rows[i].name == s;
      assert i in b.rows.Keys && b.rows[i].name == s;
    }
  }

  lemma StepKeepsLive(a: Account, s: Step, b: Account, d: char, tracked: set<nat>)
    requires Sane(a, d) && Allowed(a, s, d) && Next(a, s, b, d) && Live(a, tracked)
    ensures Sane(b, d) && Live(b, tracked)
  {
    hide WellNamed; hide Live; hide Blank; hide Synced; hide DestroySpec; hide RequestSpec;
    match s {
      case Create(id, row, ok) => MoreRowsLive(a, b, tracked);
      case Rename(order, top, title, name, ok) => if ok { RenameLive(a, order, top, title, name, b, d, tracked); }
      case Delete(order, top, n) => if n > 0 { DeleteLive(a, order, top, n, b, d, tracked); }
      case Sync(boxes, titleOf) => SyncLive(a, boxes, titleOf, b, d, tracked);
      case CacheHeader(node) => MoreRowsLive(a, b, tracked);
    }
  }

  /** states[0], states[1], ... joined by the steps. */
  ghost predicate IsRun(states: seq<Account>, steps: seq<Step>, d: char) {
    && |states| == |steps| + 1
    && forall k :: 0 <= k < |steps| ==>
         (Sane(states[k], d) ==> Allowed(states[k], steps[k], d) && Next(states[k], steps[k], states[k + 1], d))
  }

  /** Over every run, rolled-back requests included: a filter whose target was live at the start is
      disabled or still names a mailbox of the table, and so does every cached header. */
  lemma {:induction false} RunKeepsLive(states: seq<Account>, steps: seq<Step>, n: nat, d: char, tracked: set<nat>)
    requires IsRun(states, steps, d) && n <= |steps|
    requires Sane(states[0], d) && Live(states[0], tracked)
    ensures Sane(states[n], d) && Live(states[n], tracked)
  {
    hide Live; hide Sane; hide Next; hide Allowed;
    if n > 0 {
      RunKeepsLive(states, steps, n - 1, d, tracked);
      StepKeepsLive(states[n - 1], steps[n - 1], states[n], d, tracked);
    }
  }
}
