/** The mailbox records as objects: loading builds parent and child links, saving a renamed record cascades through
    them and through the filter and cache tables. */
module MailboxRecords {
  import opened Collections
  import opened MailboxForest
  import opened MailboxNames
  import opened MailboxTree
  import opened Text
  import opened Wrappers

  class Database {
    var rows: map<nat, Row>
    var filters: seq<Filter>
    var nodes: seq<CacheRow>

    var sortNo: map<nat, nat>
    var nextId: nat

    constructor (rows: map<nat, Row>, filters: seq<Filter>, nodes: seq<CacheRow>, sortNo: map<nat, nat>, nextId: nat)
      ensures this.rows == rows && this.filters == filters && this.nodes == nodes
      ensures this.sortNo == sortNo && this.nextId == nextId
    {
      this.rows, this.filters, this.nodes, this.sortNo, this.nextId := rows, filters, nodes, sortNo, nextId;
    }

    /** update_filters and update_mail_nodes. */
    method Retarget(was: string, name: string, d: char)
      modifies this`filters, this`nodes
      ensures filters == RetargetFilters(old(filters), was, name, d)
      ensures nodes == RetargetNodes(old(nodes), was, name)
    {
      filters := RetargetFilters(filters, was, name, d);
      nodes := RetargetNodes(nodes, was, name);
    }
  }

  class Mailbox {
    const id: nat
    var name: string
    var title: string
    var parent: Mailbox?
    var children: seq<Mailbox>

    constructor (id: nat, row: Row)
      ensures this.id == id && name == row.name && title == row.title && parent == null && children == []
    {
      this.id, name, title, parent, children := id, row.name, row.title, null, [];
    }

    method Assign(newName: string, ghost db: Database, ghost all: map<nat, Mailbox>)
      requires Indexed(all) && id in all && all[id] == this
      modifies this`name
      ensures Snapshot(db, all) == SetMem(old(Snapshot(db, all)), id, newName)
    {
      name := newName;
    }

    /** Saves this record after its name or title was assigned: validation, the before_update
        callbacks when the name changed, then the row. */
    method Save(db: Database, d: char, ghost t: Tree, ghost all: map<nat, Mailbox>)
      requires Indexed(all) && Represents(all, t) && this == all[t.id]
      requires Ids(t) <= db.rows.Keys && Ids(t) <= all.Keys
      modifies db, all.Values`name
      ensures Snapshot(db, all) == SaveSpec(old(Snapshot(db, all)), t, d)
      decreases t
    {
      hide Represents; hide SaveKids; hide IdsUpTo; hide RetargetFilters; hide RetargetNodes; hide ValidTitle;
      hide Blank;
      if !ValidTitle(title) { return; }
      var was := db.rows[id].name;
      if !Blank(name) && name != was {
        db.Retarget(was, name, d);
        assert Snapshot(db, all) == MailboxTree.Retarget(old(Snapshot(db, all)), was, name, d);
        UpdateChildren(db, was, name, d, t, all);
      }
      db.rows := db.rows[id := Row(name, title)];
    }

    /** Attributes assigned from the form, then saved. */
    method SetAndSave(newTitle: string, newName: string, db: Database, d: char, ghost t: Tree,
                      ghost all: map<nat, Mailbox>)
      requires Indexed(all) && Represents(all, t) && this == all[t.id]
      requires Ids(t) <= db.rows.Keys && Ids(t) <= all.Keys
      modifies db, all.Values`name, this`title
      ensures Snapshot(db, all) == RenameSpec(Titled(old(Snapshot(db, all)), id, newTitle), t, newName, d)
    {
      assert t.id in all && t.id == id;
      hide Represents; hide SaveSpec; hide Ids;
      title := newTitle;
      assert Snapshot(db, all) == Titled(old(Snapshot(db, all)), id, newTitle);
      Assign(newName, db, all);
      Save(db, d, t, all);
    }

    method UpdateChildren(db: Database, was: string, newName: string, d: char, ghost t: Tree,
                          ghost all: map<nat, Mailbox>)
      requires Indexed(all) && Represents(all, t) && this == all[t.id]
      requires Ids(t) <= db.rows.Keys && Ids(t) <= all.Keys
      modifies db, all.Values`name
      ensures Snapshot(db, all) == SaveKids(old(Snapshot(db, all)), t, |t.kids|, was, newName, d)
      decreases t, 0
    {
      hide *;
      ghost var before := Snapshot(db, all);
      SnapshotIs(db, all);
      NoKidSaved(before, t, was, newName, d);
      RepresentsKids(all, t);
      for k := 0 to |children|
        invariant Snapshot(db, all) == SaveKids(before, t, k, was, newName, d)
      {
        hide *;
        RepresentsKid(all, t, k);
        KidIndexed(all, t.kids[k].id);
        var child := children[k];
        KidSaved(before, t, k, was, newName, d);
        SnapshotIs(db, all);
        SnapshotAt(db, all, child.id);
        child.Assign(RenamePath(child.name, was, newName, d), db, all);
        SnapshotIs(db, all);
        child.Save(db, d, t.kids[k], all);
      }
    }
  }

  ghost function Titled(p: Picture, id: nat, title: string): (q: Picture)
    requires id in p.mem
    ensures q.mem.Keys == p.mem.Keys
  {
    p.(mem := p.mem[id := p.mem[id].(title := title)])
  }

  lemma RepresentsKids(all: map<nat, Mailbox>, t: Tree)
    requires Represents(all, t)
    ensures |all[t.id].children| == |t.kids|
    ensures forall i :: 0 <= i < |t.kids| ==>
      t.kids[i].id in all && all[t.id].children[i] == all[t.kids[i].id] && Represents(all, t.kids[i])
  {
  }

  lemma RepresentsKid(all: map<nat, Mailbox>, t: Tree, i: nat)
    requires Represents(all, t) && i < |t.kids|
    ensures t.id in all && t.kids[i].id in all && |all[t.id].children| == |t.kids|
    ensures all[t.id].children[i] == all[t.kids[i].id] && Represents(all, t.kids[i])
  {
  }

  ghost predicate Indexed(all: map<nat, Mailbox>) {
    forall i :: i in all ==> all[i].id == i
  }

  lemma KidIndexed(all: map<nat, Mailbox>, i: nat)
    requires Indexed(all) && i in all
    ensures all[i].id == i
  {
  }

  /** The child links below all[t.id] are those of `t`. */
  ghost predicate Represents(all: map<nat, Mailbox>, t: Tree)
    reads all.Values`children
    decreases t
  {
    && t.id in all
    && |all[t.id].children| == |t.kids|
    && forall i :: 0 <= i < |t.kids| ==>
         t.kids[i].id in all && all[t.id].children[i] == all[t.kids[i].id] && Represents(all, t.kids[i])
  }

  ghost function Snapshot(db: Database, all: map<nat, Mailbox>): Picture
    reads db, all.Values`name, all.Values`title
  {
    Picture(db.rows, db.filters, db.nodes, map i | i in all :: Row(all[i].name, all[i].title))
  }

  lemma SnapshotIs(db: Database, all: map<nat, Mailbox>)
    ensures Snapshot(db, all).rows == db.rows && Snapshot(db, all).mem.Keys == all.Keys
  {
  }

  lemma SnapshotAt(db: Database, all: map<nat, Mailbox>, i: nat)
    requires i in all
    ensures i in Snapshot(db, all).mem && Snapshot(db, all).mem[i].name == all[i].name
  {
  }

  lemma NoKidSaved(p: Picture, t: Tree, was: string, name: string, d: char)
    requires Ids(t) <= p.rows.Keys && Ids(t) <= p.mem.Keys
    ensures SaveKids(p, t, 0, was, name, d) == p
  {
  }

  /** The next child gets its renamed name and is saved. */
  lemma KidSaved(p: Picture, t: Tree, k: nat, was: string, name: string, d: char)
    requires k < |t.kids| && Ids(t) <= p.rows.Keys && Ids(t) <= p.mem.Keys
    ensures var (kid, q) := (t.kids[k], SaveKids(p, t, k, was, name, d));
      && kid.id in q.mem && Ids(kid) <= q.rows.Keys && Ids(kid) <= q.mem.Keys
      && SaveKids(p, t, k + 1, was, name, d)
         == SaveSpec(SetMem(q, kid.id, RenamePath(q.mem[kid.id].name, was, name, d)), kid, d)
  {
    KidIds(t, |t.kids|, k);
    IdIn(t.kids[k]);
    hide SaveSpec; hide Ids; hide RenamePath;
  }

  // ----- make_tree -----

  ghost function NamesOf(items: seq<Mailbox>): (r: seq<string>)
    reads items`name
    ensures |r| == |items| && forall i :: 0 <= i < |items| ==> r[i] == items[i].name
  {
    if items == [] then [] else NamesOf(items[..|items| - 1]) + [items[|items| - 1].name]
  }

  /** Among the first n items, those whose parent name is `name`, in order. */
  ghost function Below(items: seq<Mailbox>, names: seq<string>, n: nat, name: string, d: char): seq<Mailbox>
    requires n <= |items| == |names|
  {
    if n == 0 then []
    else
      var rest := Below(items, names, n - 1, name, d);
      if AncestorName(names[n - 1], d) == name then rest + [items[n - 1]] else rest
  }

  /** The last item of that name, if there is one. */
  ghost function Named(items: seq<Mailbox>, names: seq<string>, x: string): (r: Mailbox?)
    requires |items| == |names|
    ensures r == null <==> x !in names
    ensures r != null ==> exists i :: 0 <= i < |items| && items[i] == r && names[i] == x
  {
    if names == [] then null
    else
      var n := |names| - 1;
      assert names == names[..n] + [names[n]];
      if names[n] == x then items[n] else Named(items[..n], names[..n], x)
  }

  ghost predicate IsIndex(byName: map<string, Mailbox>, items: seq<Mailbox>, names: seq<string>)
    requires |items| == |names|
  {
    && (forall x :: x in byName <==> x in names)
    && (forall x :: x in byName ==> byName[x] == Named(items, names, x))
  }

  lemma IndexOneMore(byName: map<string, Mailbox>, items: seq<Mailbox>, names: seq<string>, k: nat)
    requires k < |items| == |names| && IsIndex(byName, items[..k], names[..k])
    ensures IsIndex(byName[names[k] := items[k]], items[..k + 1], names[..k + 1])
  {
    assert items[..k + 1][..k] == items[..k] && names[..k + 1][..k] == names[..k];
    assert names[..k + 1] == names[..k] + [names[k]];
  }

  method IndexByName(items: seq<Mailbox>) returns (byName: map<string, Mailbox>)
    ensures IsIndex(byName, items, NamesOf(items))
  {
    byName := map[];
    for k := 0 to |items|
      invariant IsIndex(byName, items[..k], NamesOf(items)[..k])
    {
      assert NamesOf(items)[k] == items[k].name;
      IndexOneMore(byName, items, NamesOf(items), k);
      byName := byName[items[k].name := items[k]];
    }
    assert items[..|items|] == items && NamesOf(items)[..|items|] == NamesOf(items);
  }

  /** The children of record j: an index by name finds only the last record of a name. */
  ghost function KidsOf(items: seq<Mailbox>, names: seq<string>, k: nat, j: nat, d: char): seq<Mailbox>
    requires k <= |items| == |names| && j < |items|
  {
    if Named(items, names, names[j]) == items[j] then Below(items, names, k, names[j], d) else []
  }

  /** The first k records have been pushed onto the record their parent name indexes, if any. */
  ghost predicate LinkedUpTo(items: seq<Mailbox>, names: seq<string>, k: nat, d: char)
    requires k <= |items| == |names|
    reads items`children, items`parent
  {
    && (forall j :: 0 <= j < |items| ==> items[j].children == KidsOf(items, names, k, j, d))
    && (forall j :: 0 <= j < |items| ==> items[j].parent == if j < k
       then Named(items, names, AncestorName(names[j], d)) else null)
  }

  /** One step: record k is pushed onto the record its parent name indexes, if any. */
  method Push(items: seq<Mailbox>, k: nat, byName: map<string, Mailbox>, d: char, ghost names: seq<string>)
    requires NoRepeats(items) && k < |items| == |names| && IsIndex(byName, items, names)
    requires items[k].name == names[k] && items[k].parent == null
    modifies items`children, {items[k]}`parent
    ensures forall j :: 0 <= j < |items| ==>
      items[j].children == if items[j] == Named(items, names, AncestorName(names[k], d))
        then old(items[j].children) + [items[k]] else old(items[j].children)
    ensures items[k].parent == Named(items, names, AncestorName(names[k], d))
    ensures forall j :: 0 <= j < |items| && j != k ==> items[j].parent == old(items[j].parent)
  {
    hide AncestorName;
    var above := AncestorName(items[k].name, d);
    if above in byName {
      var p := byName[above];
      p.children := p.children + [items[k]];
      items[k].parent := p;
    }
  }

  method Link(items: seq<Mailbox>, k: nat, byName: map<string, Mailbox>, d: char, ghost names: seq<string>)
    requires NoRepeats(items) && k < |items| == |names| && IsIndex(byName, items, names)
    requires items[k].name == names[k] && LinkedUpTo(items, names, k, d)
    modifies items`children, items`parent
    ensures LinkedUpTo(items, names, k + 1, d) && NamesOf(items) == old(NamesOf(items))
  {
    hide AncestorName; hide KidsOf; hide NoRepeats; hide IsIndex; hide Named;
    Push(items, k, byName, d, names);
    forall j | 0 <= j < |items| ensures items[j].children == KidsOf(items, names, k + 1, j, d) {
      OneKidMore(items, names, k, j, d);
    }
  }

  ghost predicate Unlinked(items: seq<Mailbox>)
    reads items`children, items`parent
  {
    forall j :: 0 <= j < |items| ==> items[j].children == [] && items[j].parent == null
  }

  /** The children of each record are the records with its name as parent name, in list order, unless a later record
      has the same name. */
  ghost predicate ChildrenLinked(items: seq<Mailbox>, d: char)
    reads items`children, items`name
  {
    forall j :: 0 <= j < |items| ==> items[j].children == KidsOf(items, NamesOf(items), |items|, j, d)
  }

  /** The parent of each record is the last record with its parent name, if there is one. */
  ghost predicate ParentsLinked(items: seq<Mailbox>, d: char)
    reads items`parent, items`name
  {
    forall j :: 0 <= j < |items| ==> items[j].parent == Named(items, NamesOf(items), AncestorName(items[j].name, d))
  }

  /** Links each loaded record to its parent, in list order. */
  method MakeTree(items: seq<Mailbox>, d: char)
    requires NoRepeats(items) && Unlinked(items)
    modifies items`children, items`parent
    ensures ChildrenLinked(items, d) && ParentsLinked(items, d)
  {
    hide *;
    var byName := IndexByName(items);
    NothingLinked(items, d);
    LinkAll(items, byName, d, NamesOf(items));
    AllLinked(items, d);
  }

  method LinkAll(items: seq<Mailbox>, byName: map<string, Mailbox>, d: char, ghost names: seq<string>)
    requires NoRepeats(items) && names == NamesOf(items) && IsIndex(byName, items, names)
    requires LinkedUpTo(items, names, 0, d)
    modifies items`children, items`parent
    ensures NamesOf(items) == names && LinkedUpTo(items, names, |items|, d)
  {
    hide *;
    for k := 0 to |items|
      invariant NamesOf(items) == names && LinkedUpTo(items, names, k, d)
    {
      NameAt(items, k);
      Link(items, k, byName, d, names);
    }
  }

  lemma NameAt(items: seq<Mailbox>, k: nat)
    requires k < |items|
    ensures NamesOf(items)[k] == items[k].name
  {
  }

  lemma AllLinked(items: seq<Mailbox>, d: char)
    requires LinkedUpTo(items, NamesOf(items), |items|, d)
    ensures ChildrenLinked(items, d) && ParentsLinked(items, d)
  {
    hide AncestorName; hide KidsOf; hide Named;
  }

  lemma NothingLinked(items: seq<Mailbox>, d: char)
    requires Unlinked(items)
    ensures LinkedUpTo(items, NamesOf(items), 0, d)
  {
    hide AncestorName; hide Named;
  }

  lemma OneKidMore(items: seq<Mailbox>, names: seq<string>, k: nat, j: nat, d: char)
    requires NoRepeats(items) && k < |items| == |names| && j < |items|
    ensures KidsOf(items, names, k + 1, j, d) ==
      if items[j] == Named(items, names, AncestorName(names[k], d)) then KidsOf(items, names, k, j, d) + [items[k]]
      else KidsOf(items, names, k, j, d)
  {
    hide AncestorName;
    if items[j] == Named(items, names, AncestorName(names[k], d)) {
      var i :| 0 <= i < |items| && items[i] == items[j] && names[i] == AncestorName(names[k], d);
    }
  }

  // ----- A whole request: load, rename inside a transaction -----

  /** Record i of the list carries id order[i] and that row's attributes. */
  ghost predicate LoadedItems(items: seq<Mailbox>, order: seq<nat>, rows: map<nat, Row>)
    reads items`name, items`title
  {
    && |items| == |order|
    && forall i :: 0 <= i < |order| ==>
         order[i] in rows && items[i].id == order[i] && items[i].name == rows[order[i]].name
           && items[i].title == rows[order[i]].title
  }

  ghost predicate Rowed(items: seq<Mailbox>, names: seq<string>, order: seq<nat>, rows: map<nat, Row>) {
    && |items| == |names| == |order|
    && forall i :: 0 <= i < |order| ==>
         order[i] in rows && items[i].id == order[i] && names[i] == rows[order[i]].name
  }

  /** The record an index by name finds is the one of the row it finds. */
  lemma {:induction false} NamedIsIndexed(items: seq<Mailbox>, names: seq<string>, order: seq<nat>,
                                          rows: map<nat, Row>, x: string)
    requires Rowed(items, names, order, rows)
    ensures Named(items, names, x) == null <==> IndexBy(rows, order, x) == None
    ensures Named(items, names, x) != null ==> IndexBy(rows, order, x) == Some(Named(items, names, x).id)
  {
    if order != [] {
      var n := |order| - 1;
      NamedIsIndexed(items[..n], names[..n], order[..n], rows, x);
    }
  }

  lemma {:induction false} BelowIsChildIds(items: seq<Mailbox>, names: seq<string>, order: seq<nat>,
                                           rows: map<nat, Row>, n: nat, top: nat, d: char)
    requires AllWellNamed(rows, d) && n <= |items| && Rowed(items, names, order, rows) && IsIndexed(rows, order, top)
    ensures var b := Below(items, names, n, rows[top].name, d);
      var c := ChildIds(ForestOf(rows, order, d), order[..n], top);
      |b| == |c| && forall j :: 0 <= j < |b| ==> b[j].id == c[j] && b[j] in items
  {
    hide AncestorName; hide WellNamed; hide ForestOf; hide IsIndexed;
    if n > 0 {
      BelowIsChildIds(items, names, order, rows, n - 1, top, d);
      assert order[..n][..n - 1] == order[..n - 1];
      LinkIff(rows, order, order[n - 1], top, d);
    }
  }

  lemma LinkIff(rows: map<nat, Row>, order: seq<nat>, c: nat, top: nat, d: char)
    requires AllWellNamed(rows, d) && c in rows && IsIndexed(rows, order, top)
    ensures (c in ForestOf(rows, order, d).par && ForestOf(rows, order, d).par[c] == top) <==>
      AncestorName(rows[c].name, d) == rows[top].name
  {
    hide AncestorName; hide AllWellNamed; hide IndexBy;
    if c in ForestOf(rows, order, d).par { LinkIsParent(rows, order, c, d); }
  }

  lemma {:induction false} NoChildIds(rows: map<nat, Row>, order: seq<nat>, some: seq<nat>, top: nat, d: char)
    requires AllWellNamed(rows, d) && !IsIndexed(rows, order, top)
    ensures ChildIds(ForestOf(rows, order, d), some, top) == []
  {
    hide AllWellNamed; hide ForestOf; hide IsIndexed;
    forall c | c in ForestOf(rows, order, d).par ensures ForestOf(rows, order, d).par[c] != top {
      LinkIsParent(rows, order, c, d);
    }
    if some != [] { NoChildIds(rows, order, some[..|some| - 1], top, d); }
  }

  /** The records by id. */
  ghost predicate ById(all: map<nat, Mailbox>, items: seq<Mailbox>, order: seq<nat>) {
    && |items| == |order| && NoRepeats(order)
    && (forall i :: i in all <==> i in order)
    && (forall j :: 0 <= j < |order| ==> order[j] in all && all[order[j]] == items[j] && items[j].id == order[j])
  }

  /** The records of a table with their children linked. */
  ghost predicate Linked(all: map<nat, Mailbox>, items: seq<Mailbox>, names: seq<string>, order: seq<nat>,
                         rows: map<nat, Row>, d: char)
    reads all.Values, items
  {
    && AllWellNamed(rows, d) && ById(all, items, order) && Rowed(items, names, order, rows)
    && forall j :: 0 <= j < |items| ==> items[j].children == KidsOf(items, names, |items|, j, d)
  }

  /** The linked children of a record are those of the forest. */
  lemma LinkedKids(all: map<nat, Mailbox>, items: seq<Mailbox>, names: seq<string>, order: seq<nat>,
                   rows: map<nat, Row>, id: nat, d: char)
    requires Linked(all, items, names, order, rows, d) && id in order
    ensures id in all
    ensures var c := ChildIds(ForestOf(rows, order, d), order, id);
      && |all[id].children| == |c|
      && forall i :: 0 <= i < |c| ==> c[i] in order && c[i] in all && all[id].children[i] == all[c[i]]
  {
    hide AncestorName; hide AllWellNamed; hide Below; hide ForestOf; hide Named; hide IndexBy;
    var j :| 0 <= j < |order| && order[j] == id;
    NamedIsIndexed(items, names, order, rows, names[j]);
    assert order[..|order|] == order;
    var c := ChildIds(ForestOf(rows, order, d), order, id);
    if IsIndexed(rows, order, id) {
      SameRecord(items, names, order, rows, j);
      BelowIsChildIds(items, names, order, rows, |items|, id, d);
    } else {
      NoChildIds(rows, order, order, id, d);
    }
    forall i | 0 <= i < |c| ensures c[i] in order && c[i] in all && all[id].children[i] == all[c[i]] {
      assert all[id].children[i] in items;
    }
  }

  lemma SameRecord(items: seq<Mailbox>, names: seq<string>, order: seq<nat>, rows: map<nat, Row>, j: nat)
    requires Rowed(items, names, order, rows) && j < |order| && IsIndexed(rows, order, order[j]) && NoRepeats(order)
    ensures Named(items, names, names[j]) == items[j]
  {
    NamedIsIndexed(items, names, order, rows, names[j]);
    var i :| 0 <= i < |items| && items[i] == Named(items, names, names[j]) && names[i] == names[j];
    assert order[i] == order[j];
  }

  lemma TreeKids(f: Forest, order: seq<nat>, id: nat)
    requires Sound(f) && id in f.below
    ensures var c, t := ChildIds(f, order, id), TreeOf(f, order, id);
      && |t.kids| == |c|
      && forall i :: 0 <= i < |c| ==>
             c[i] in f.below && f.below[c[i]] < f.below[id] && t.kids[i] == TreeOf(f, order, c[i])
  {
    var c := ChildIds(f, order, id);
    forall i | 0 <= i < |c| ensures c[i] in f.below && f.below[c[i]] < f.below[id]
      && TreeOf(f, order, id).kids[i] == TreeOf(f, order, c[i]) {
      TreesAt(f, order, c, id, i);
      KidBelow(f, c[i], id);
    }
  }

  lemma RepresentsFrom(all: map<nat, Mailbox>, t: Tree)
    requires t.id in all && |all[t.id].children| == |t.kids|
    requires forall i :: 0 <= i < |t.kids| ==>
                  t.kids[i].id in all && all[t.id].children[i] == all[t.kids[i].id] && Represents(all, t.kids[i])
    ensures Represents(all, t)
  {
  }

  lemma {:induction false} LinkedRepresents(all: map<nat, Mailbox>, items: seq<Mailbox>, names: seq<string>,
                                            order: seq<nat>,
                                            rows: map<nat, Row>, id: nat, d: char)
    requires Sound(ForestOf(rows, order, d)) && id in ForestOf(rows, order, d).below
    requires Linked(all, items, names, order, rows, d)
    requires id in order
    ensures Represents(all, TreeOf(ForestOf(rows, order, d), order, id))
    decreases ForestOf(rows, order, d).below[id]
  {
    hide *;
    var f := ForestOf(rows, order, d);
    var t, kids := TreeOf(f, order, id), ChildIds(f, order, id);
    LinkedKids(all, items, names, order, rows, id, d);
    TreeKids(f, order, id);
    forall i | 0 <= i < |t.kids| ensures Represents(all, t.kids[i]) {
      LinkedRepresents(all, items, names, order, rows, kids[i], d);
    }
    RepresentsFrom(all, t);
  }

  lemma KidBelow(f: Forest, k: nat, top: nat)
    requires Sound(f) && k in f.par && f.par[k] == top
    ensures k in f.below && top in f.below && f.below[k] < f.below[top]
  {
    assert top !in f.below[k];
  }

  method Instantiate(db: Database, order: seq<nat>) returns (items: seq<Mailbox>)
    requires NoRepeats(order) && forall i :: i in order ==> i in db.rows
    ensures LoadedItems(items, order, db.rows) && NoRepeats(items)
    ensures (forall j :: 0 <= j < |items| ==> fresh(items[j])) && Unlinked(items)
  {
    items := [];
    for k := 0 to |order|
      invariant |items| == k
      invariant forall j :: 0 <= j < k ==>
        fresh(items[j]) && items[j].id == order[j] && items[j].name == db.rows[order[j]].name
          && items[j].title == db.rows[order[j]].title
      invariant forall j :: 0 <= j < k ==> items[j].children == [] && items[j].parent == null
    {
      var m := new Mailbox(order[k], db.rows[order[k]]);
      items := items + [m];
    }
  }

  lemma IndexById(items: seq<Mailbox>, order: seq<nat>) returns (all: map<nat, Mailbox>)
    requires |items| == |order| && NoRepeats(order) && forall j :: 0 <= j < |order| ==> items[j].id == order[j]
    ensures ById(all, items, order) && Indexed(all)
    ensures forall i :: i in all ==> all[i] in items
  {
    all := map i | i in order :: var j :| 0 <= j < |order| && order[j] == i; items[j];
    forall j | 0 <= j < |order| ensures order[j] in all && all[order[j]] == items[j] {}
    forall i | i in all ensures all[i] in items && all[i].id == i {
      var j :| 0 <= j < |order| && order[j] == i;
      assert all[order[j]] == items[j];
    }
  }

  /** make_tree on the records just loaded. */
  method LinkLoaded(items: seq<Mailbox>, ghost order: seq<nat>, ghost rows: map<nat, Row>, d: char)
    requires LoadedItems(items, order, rows) && NoRepeats(items) && Unlinked(items)
    modifies items`children, items`parent
    ensures LoadedItems(items, order, rows) && ChildrenLinked(items, d)
  {
    hide *;
    MakeTree(items, d);
  }

  /** load_mailboxes: one record per row, linked. */
  method Load(db: Database, order: seq<nat>, d: char) returns (items: seq<Mailbox>, ghost all: map<nat, Mailbox>)
    requires AllWellNamed(db.rows, d) && Lists(order, db.rows) && forall i :: i in order ==> i in db.rows
    ensures LoadedItems(items, order, db.rows) && ById(all, items, order) && Indexed(all)
    ensures forall i :: i in all ==> fresh(all[i])
    ensures forall i :: i in db.rows ==> Represents(all, LoadedTree(db.rows, order, i, d))
  {
    assert NoRepeats(order);
    hide *;
    items := Instantiate(db, order);
    LinkLoaded(items, order, db.rows, d);
    all := IndexLoaded(items, order, db.rows, d);
    forall i | i in all ensures fresh(all[i]) {
      var j :| 0 <= j < |items| && items[j] == all[i];
    }
  }

  lemma IndexLoaded(items: seq<Mailbox>, order: seq<nat>, rows: map<nat, Row>, d: char) returns (all: map<nat, Mailbox>)
    requires AllWellNamed(rows, d) && Lists(order, rows) && LoadedItems(items, order, rows)
    requires ChildrenLinked(items, d)
    ensures ById(all, items, order) && Indexed(all) && forall i :: i in all ==> all[i] in items
    ensures forall i :: i in rows ==> Represents(all, LoadedTree(rows, order, i, d))
  {
    hide AllWellNamed; hide LoadedTree; hide Represents; hide ChildrenLinked;
    all := IndexById(items, order);
    AllRepresent(all, items, order, rows, d);
  }

  lemma AllRepresent(all: map<nat, Mailbox>, items: seq<Mailbox>, order: seq<nat>, rows: map<nat, Row>, d: char)
    requires AllWellNamed(rows, d) && Lists(order, rows) && LoadedItems(items, order, rows) && ById(all, items, order)
    requires ChildrenLinked(items, d)
    ensures forall i :: i in rows ==> Represents(all, LoadedTree(rows, order, i, d))
  {
    hide *;
    LoadedLinked(all, items, order, rows, d);
    forall i | i in rows ensures Represents(all, LoadedTree(rows, order, i, d)) {
      LoadedTreeIs(rows, order, i, d);
      LinkedRepresents(all, items, NamesOf(items), order, rows, i, d);
    }
  }

  lemma LoadedTreeIs(rows: map<nat, Row>, order: seq<nat>, i: nat, d: char)
    requires AllWellNamed(rows, d) && Lists(order, rows) && i in rows
    ensures i in order && Sound(ForestOf(rows, order, d)) && i in ForestOf(rows, order, d).below
    ensures LoadedTree(rows, order, i, d) == TreeOf(ForestOf(rows, order, d), order, i)
  {
    ForestSound(rows, order, d);
    hide AllWellNamed; hide Sound;
  }

  lemma LoadedLinked(all: map<nat, Mailbox>, items: seq<Mailbox>, order: seq<nat>, rows: map<nat, Row>, d: char)
    requires AllWellNamed(rows, d) && LoadedItems(items, order, rows) && ById(all, items, order)
    requires ChildrenLinked(items, d)
    ensures Linked(all, items, NamesOf(items), order, rows, d)
  {
    hide AllWellNamed; hide KidsOf;
  }

  method Detect(items: seq<Mailbox>, order: seq<nat>, top: nat) returns (item: Mailbox)
    requires |items| == |order| && top in order
    requires forall j :: 0 <= j < |order| ==> items[j].id == order[j]
    ensures item in items && item.id == top
  {
    var k := 0;
    while items[k].id != top
      invariant k < |order| && top in order[k..]
      decreases |order| - k
    {
      assert order[k..] == [order[k]] + order[k + 1..];
      k := k + 1;
    }
    item := items[k];
  }

  lemma LoadedSnapshot(db: Database, all: map<nat, Mailbox>, items: seq<Mailbox>, order: seq<nat>)
    requires LoadedItems(items, order, db.rows) && ById(all, items, order) && Lists(order, db.rows)
    ensures Snapshot(db, all) == Picture(db.rows, db.filters, db.nodes, db.rows)
  {
    var mem := Snapshot(db, all).mem;
    forall i ensures i in mem <==> i in db.rows {
      if i in order { var j :| 0 <= j < |order| && order[j] == i; }
    }
    forall i | i in mem ensures mem[i] == db.rows[i] {
      var j :| 0 <= j < |order| && order[j] == i;
    }
  }

  /** What an accepted update request leaves: the rename of record `top` as loaded, with the typed title. */
  ghost function RequestSpec(rows: map<nat, Row>, filters: seq<Filter>, nodes: seq<CacheRow>, order: seq<nat>,
                             top: nat, title: string, name: string, d: char): Picture
    requires AllWellNamed(rows, d) && Lists(order, rows) && top in rows
  {
    LoadedTreeShaped(rows, order, top, d);
    RenameSpec(Titled(Picture(rows, filters, nodes, rows), top, title), LoadedTree(rows, order, top, d), name, d)
  }

  /** An update request: load, assign the typed title and the new name to record `top`, save it and
      rename on the server in one transaction; a server error rolls the tables back. */
  method RenameMailbox(db: Database, order: seq<nat>, top: nat, title: string, name: string, serverAccepts: bool,
                       d: char)
    requires AllWellNamed(db.rows, d) && Lists(order, db.rows) && top in db.rows
    requires forall i :: i in order ==> i in db.rows
    modifies db
    ensures !serverAccepts ==> db.rows == old(db.rows) && db.filters == old(db.filters) && db.nodes == old(db.nodes)
    ensures serverAccepts ==>
      var q := RequestSpec(old(db.rows), old(db.filters), old(db.nodes), order, top, title, name, d);
      db.rows == q.rows && db.filters == q.filters && db.nodes == q.nodes
  {
    hide *;
    var rows, filters, nodes := db.rows, db.filters, db.nodes;
    var items, all := Load(db, order, d);
    SaveLoadedItem(db, items, order, top, title, name, d, all);
    if !serverAccepts {
      db.rows, db.filters, db.nodes := rows, filters, nodes;
    }
  }

  method SaveLoadedItem(db: Database, items: seq<Mailbox>, order: seq<nat>, top: nat, title: string, name: string,
                        d: char,
                        ghost all: map<nat, Mailbox>)
    requires AllWellNamed(db.rows, d) && Lists(order, db.rows) && top in db.rows
    requires LoadedItems(items, order, db.rows) && ById(all, items, order) && Indexed(all)
    requires Represents(all, LoadedTree(db.rows, order, top, d))
    modifies db, all.Values`name, all.Values`title
    ensures var q := RequestSpec(old(db.rows), old(db.filters), old(db.nodes), order, top, title, name, d);
      db.rows == q.rows && db.filters == q.filters && db.nodes == q.nodes
  {
    hide *;
    ghost var t := RequestIs(db.rows, db.filters, db.nodes, order, top, title, name, d);
    LoadedSnapshot(db, all, items, order);
    ListedIn(order, db.rows, all, items, top);
    RepresentsTop(all, t, items, order);
    var item := Detect(items, order, top);
    item.SetAndSave(title, name, db, d, t, all);
    SnapshotFields(db, all);
  }

  lemma RequestIs(rows: map<nat, Row>, filters: seq<Filter>, nodes: seq<CacheRow>, order: seq<nat>,
                  top: nat, title: string, name: string, d: char) returns (t: Tree)
    requires AllWellNamed(rows, d) && Lists(order, rows) && top in rows
    ensures t == LoadedTree(rows, order, top, d) && t.id == top && Ids(t) <= rows.Keys
    ensures RequestSpec(rows, filters, nodes, order, top, title, name, d)
         == RenameSpec(Titled(Picture(rows, filters, nodes, rows), top, title), t, name, d)
  {
    hide RenameSpec; hide AllWellNamed; hide ForestOf; hide Shaped; hide Complete;
    t := LoadedTree(rows, order, top, d);
    LoadedTreeShaped(rows, order, top, d);
  }

  lemma ListedIn(order: seq<nat>, rows: map<nat, Row>, all: map<nat, Mailbox>, items: seq<Mailbox>, top: nat)
    requires Lists(order, rows) && ById(all, items, order) && top in rows
    ensures top in order && |items| == |order| && rows.Keys <= all.Keys
    ensures forall j :: 0 <= j < |order| ==> items[j].id == order[j]
  {
  }

  lemma RepresentsTop(all: map<nat, Mailbox>, t: Tree, items: seq<Mailbox>, order: seq<nat>)
    requires Represents(all, t) && ById(all, items, order) && Indexed(all)
    ensures t.id in all && forall m :: m in items && m.id == t.id ==> m == all[t.id]
  {
  }

  lemma SnapshotFields(db: Database, all: map<nat, Mailbox>)
    ensures var p := Snapshot(db, all); p.rows == db.rows && p.filters == db.filters && p.nodes == db.nodes
  {
  }
}
