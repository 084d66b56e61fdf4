/** sync_mailboxes: bringing the mailbox table in line with the server's sorted listing, and the callbacks that run
    when a mailbox is destroyed. */
module MailboxSync {
  import opened Collections
  import opened MailboxForest
  import opened MailboxRecords
  import opened MailboxTree
  import opened Wrappers

  /** disable_filters */
  function DisableFilters(fs: seq<Filter>, name: string): (r: seq<Filter>)
    ensures |r| == |fs|
    ensures forall j :: 0 <= j < |fs| ==> r[j] == if fs[j].mailboxName == name then Filter(false, "") else fs[j]
  {
    if fs == [] then []
    else [if fs[0].mailboxName == name then Filter(false, "") else fs[0]] + DisableFilters(fs[1..], name)
  }

  /** destroy_mail_nodes */
  function DeleteNodes(ns: seq<CacheRow>, name: string): seq<CacheRow> {
    if ns == [] then []
    else
      var init, last := ns[..|ns| - 1], ns[|ns| - 1];
      DeleteNodes(init, name) + if last.mailbox == name then [] else [last]
  }

  lemma {:induction false} DeleteNodesDrops(ns: seq<CacheRow>, name: string)
    ensures forall n :: multiset(DeleteNodes(ns, name))[n] == if n.mailbox == name then 0 else multiset(ns)[n]
  {
    if ns != [] {
      DeleteNodesDrops(ns[..|ns| - 1], name);
      assert ns == ns[..|ns| - 1] + [ns[|ns| - 1]];
    }
  }

  /** Destroys a record, which may have been destroyed before. */
  method Destroy(db: Database, id: nat, name: string)
    modifies db
    ensures db.rows == old(db.rows) - {id} && db.sortNo == old(db.sortNo) && db.nextId == old(db.nextId)
    ensures db.filters == DisableFilters(old(db.filters), name)
    ensures db.nodes == DeleteNodes(old(db.nodes), name)
  {
    db.filters := DisableFilters(db.filters, name);
    db.nodes := DeleteNodes(db.nodes, name);
    db.rows := db.rows - {id};
  }

  /** Filters after the mailboxes in `gone` went away. */
  ghost predicate FiltersDropped(before: seq<Filter>, after: seq<Filter>, gone: set<string>) {
    && |after| == |before|
    && forall j :: 0 <= j < |before| ==>
         after[j] == if before[j].mailboxName in gone then Filter(false, "") else before[j]
  }

  ghost predicate NodesDropped(before: seq<CacheRow>, after: seq<CacheRow>, gone: set<string>) {
    forall n :: multiset(after)[n] == if n.mailbox in gone then 0 else multiset(before)[n]
  }

  lemma DropOneMore(before: seq<Filter>, mid: seq<Filter>, nodes: seq<CacheRow>, midNodes: seq<CacheRow>,
                    gone: set<string>, name: string)
    requires FiltersDropped(before, mid, gone) && NodesDropped(nodes, midNodes, gone) && name != ""
    ensures FiltersDropped(before, DisableFilters(mid, name), gone + {name})
    ensures NodesDropped(nodes, DeleteNodes(midNodes, name), gone + {name})
  {
    DeleteNodesDrops(midNodes, name);
  }

  /** The rows still there when the rows an index finds for the names in `gone` went away. */
  ghost function Kept(rows: map<nat, Row>, order: seq<nat>, gone: set<string>): map<nat, Row> {
    map i | i in rows && !(rows[i].name in gone && IsIndexed(rows, order, i)) :: rows[i]
  }

  /** The names the server does not list. */
  ghost function Gone(rows: map<nat, Row>, boxes: seq<string>): set<string> {
    set i | i in rows && rows[i].name !in boxes :: rows[i].name
  }

  ghost function GoneUpTo(rows: map<nat, Row>, order: seq<nat>, k: nat, boxes: seq<string>): set<string>
    requires k <= |order| && forall i :: i in order ==> i in rows
  {
    set j | 0 <= j < k && rows[order[j]].name !in boxes :: rows[order[j]].name
  }

  lemma GoneNext(rows: map<nat, Row>, order: seq<nat>, k: nat, boxes: seq<string>)
    requires k < |order| && forall i :: i in order ==> i in rows
    ensures GoneUpTo(rows, order, k + 1, boxes) == GoneUpTo(rows, order, k, boxes)
      + if rows[order[k]].name in boxes then {} else {rows[order[k]].name}
  {
    var now, next := GoneUpTo(rows, order, k, boxes), GoneUpTo(rows, order, k + 1, boxes);
    forall x | x in next ensures x in now || (x == rows[order[k]].name && rows[order[k]].name !in boxes) {
      var j :| 0 <= j < k + 1 && rows[order[j]].name !in boxes && rows[order[j]].name == x;
      if j < k { assert rows[order[j]].name in now; }
    }
    forall x | x in now ensures x in next {
      var j :| 0 <= j < k && rows[order[j]].name !in boxes && rows[order[j]].name == x;
      assert rows[order[j]].name in next;
    }
  }

  lemma GoneAll(rows: map<nat, Row>, order: seq<nat>, boxes: seq<string>)
    requires forall i :: i in order <==> i in rows
    ensures GoneUpTo(rows, order, |order|, boxes) == Gone(rows, boxes)
  {
    forall x | x in Gone(rows, boxes) ensures x in GoneUpTo(rows, order, |order|, boxes) {
      var i :| i in rows && rows[i].name !in boxes && rows[i].name == x;
      var j :| 0 <= j < |order| && order[j] == i;
      assert rows[order[j]].name in GoneUpTo(rows, order, |order|, boxes);
    }
  }

  lemma KeptStep(rows: map<nat, Row>, order: seq<nat>, gone: set<string>, id: nat, name: string)
    requires IndexBy(rows, order, name) == Some(id)
    ensures Kept(rows, order, gone + {name}) == Kept(rows, order, gone) - {id}
  {
    hide IndexBy;
  }

  /** item_by_name */
  ghost predicate IsRowIndex(byName: map<string, nat>, rows: map<nat, Row>, order: seq<nat>) {
    forall x :: IndexBy(rows, order, x) == if x in byName then Some(byName[x]) else None
  }

  method IndexRows(rows: map<nat, Row>, order: seq<nat>) returns (byName: map<string, nat>)
    requires forall i :: i in order ==> i in rows
    ensures IsRowIndex(byName, rows, order)
  {
    byName := map[];
    for k := 0 to |order|
      invariant IsRowIndex(byName, rows, order[..k])
    {
      assert order[..k + 1][..k] == order[..k];
      byName := byName[rows[order[k]].name := order[k]];
    }
    assert order[..|order|] == order;
  }

  /** Destroys the row an index finds for every name the server no longer lists. */
  method DestroyMissing(db: Database, order: seq<nat>, boxes: seq<string>, byName: map<string, nat>)
    requires (forall i :: i in order <==> i in db.rows) && IsRowIndex(byName, db.rows, order)
    requires forall i :: i in db.rows ==> db.rows[i].name != ""
    modifies db
    ensures db.sortNo == old(db.sortNo) && db.nextId == old(db.nextId)
    ensures db.rows == Kept(old(db.rows), order, Gone(old(db.rows), boxes))
    ensures FiltersDropped(old(db.filters), db.filters, Gone(old(db.rows), boxes))
    ensures NodesDropped(old(db.nodes), db.nodes, Gone(old(db.rows), boxes))
  {
    var rows := db.rows;
    NothingGone(db.rows, db.filters, db.nodes, order, boxes);
    GoneAll(db.rows, order, boxes);
    for k := 0 to |order|
      invariant db.sortNo == old(db.sortNo) && db.nextId == old(db.nextId)
      invariant db.rows == Kept(rows, order, GoneUpTo(rows, order, k, boxes))
      invariant FiltersDropped(old(db.filters), db.filters, GoneUpTo(rows, order, k, boxes))
      invariant NodesDropped(old(db.nodes), db.nodes, GoneUpTo(rows, order, k, boxes))
    {
      hide FiltersDropped; hide NodesDropped; hide GoneUpTo; hide Gone; hide Kept; hide IndexBy;
      GoneNext(rows, order, k, boxes);
      var name := rows[order[k]].name;
      if name !in boxes {
        FoundByName(rows, order, order[k]);
        KeptStep(rows, order, GoneUpTo(rows, order, k, boxes), byName[name], name);
        DropOneMore(old(db.filters), db.filters, old(db.nodes), db.nodes, GoneUpTo(rows, order, k, boxes), name);
        Destroy(db, byName[name], name);
      }
    }
  }

  lemma NothingGone(rows: map<nat, Row>, filters: seq<Filter>, nodes: seq<CacheRow>, order: seq<nat>,
                    boxes: seq<string>)
    requires forall i :: i in order ==> i in rows
    ensures rows == Kept(rows, order, GoneUpTo(rows, order, 0, boxes))
    ensures FiltersDropped(filters, filters, GoneUpTo(rows, order, 0, boxes))
    ensures NodesDropped(nodes, nodes, GoneUpTo(rows, order, 0, boxes))
  {
    hide IsIndexed;
    assert GoneUpTo(rows, order, 0, boxes) == {};
  }

  lemma FoundByName(rows: map<nat, Row>, order: seq<nat>, i: nat)
    requires i in order && i in rows
    ensures IndexBy(rows, order, rows[i].name).Some?
  {
  }

  /** ids[j] is the row of boxes[j], with the attributes the listing gives it. */
  ghost predicate Placed(rows: map<nat, Row>, sortNo: map<nat, nat>, ids: seq<nat>, boxes: seq<string>,
                         titleOf: string -> string) {
    && |ids| <= |boxes|
    && forall j :: 0 <= j < |ids| ==>
         && ids[j] in rows && rows[ids[j]] == Row(boxes[j], titleOf(boxes[j]))
         && ids[j] in sortNo && sortNo[ids[j]] == j + 1
  }

  /** The index finds a row for a listed name if there is one. */
  ghost predicate FindsBoxes(byName: map<string, nat>, rows: map<nat, Row>, next: nat, boxes: seq<string>) {
    && (forall i :: i in rows ==> i < next)
    && (forall b :: b in boxes && b in byName ==> byName[b] in rows && rows[byName[b]].name == b)
  }

  /** Which row each box has been given: its old one, or a new id. Other rows are as they were. */
  ghost predicate Assigned(byName: map<string, nat>, rows: map<nat, Row>, next: nat, after: map<nat, Row>, next': nat,
                           ids: seq<nat>, boxes: seq<string>) {
    && |ids| <= |boxes| && next <= next'
    && (forall j :: 0 <= j < |ids| ==>
          if boxes[j] in byName then ids[j] == byName[boxes[j]] else next <= ids[j] < next')
    && (forall i :: i in rows ==> i in after && after[i].name == rows[i].name && (i !in ids ==> after[i] == rows[i]))
    && (forall i :: i in after ==> i < next' && (i in rows || i in ids))
  }

  lemma AssignOne(byName: map<string, nat>, rows: map<nat, Row>, next: nat, after: map<nat, Row>, next': nat,
                  ids: seq<nat>, boxes: seq<string>, id: nat, title: string)
    requires FindsBoxes(byName, rows, next, boxes) && NoRepeats(boxes) && NoRepeats(ids)
    requires Assigned(byName, rows, next, after, next', ids, boxes) && |ids| < |boxes|
    requires id == if boxes[|ids|] in byName then byName[boxes[|ids|]] else next'
    ensures Assigned(byName, rows, next, after[id := Row(boxes[|ids|], title)], if id == next' then next' + 1
      else next', ids + [id], boxes)
    ensures NoRepeats(ids + [id])
    ensures id == next' ==> boxes[|ids|] !in byName
  {
    var k := |ids|;
    forall j | 0 <= j < k ensures ids[j] != id {
      assert boxes[j] != boxes[k] && boxes[j] in boxes && boxes[k] in boxes;
    }
    assert boxes[k] in boxes;
  }

  lemma PlaceOne(rows: map<nat, Row>, sortNo: map<nat, nat>, ids: seq<nat>, boxes: seq<string>,
                 titleOf: string -> string, id: nat)
    requires Placed(rows, sortNo, ids, boxes, titleOf) && |ids| < |boxes| && NoRepeats(ids + [id])
    ensures Placed(rows[id := Row(boxes[|ids|], titleOf(boxes[|ids|]))], sortNo[id := |ids| + 1], ids + [id], boxes,
      titleOf)
  {
    forall j | 0 <= j < |ids| ensures ids[j] != id { assert (ids + [id])[j] != (ids + [id])[|ids|]; }
  }

  /** One box: its row, or a new one, gets its attributes. */
  method SaveBox(db: Database, byName: map<string, nat>, boxes: seq<string>, titleOf: string -> string, ids: seq<nat>,
                 ghost rows: map<nat, Row>, ghost next: nat) returns (r: seq<nat>)
    requires FindsBoxes(byName, rows, next, boxes) && NoRepeats(boxes) && NoRepeats(ids) && |ids| < |boxes|
    requires Placed(db.rows, db.sortNo, ids, boxes, titleOf)
    requires Assigned(byName, rows, next, db.rows, db.nextId, ids, boxes)
    modifies db`rows, db`sortNo, db`nextId
    ensures |r| == |ids| + 1 && NoRepeats(r)
    ensures Placed(db.rows, db.sortNo, r, boxes, titleOf) && Assigned(byName, rows, next, db.rows, db.nextId, r, boxes)
  {
    hide *;
    var k := |ids|;
    var id := db.nextId;
    if boxes[k] in byName { id := byName[boxes[k]]; }
    AssignOne(byName, rows, next, db.rows, db.nextId, ids, boxes, id, titleOf(boxes[k]));
    PlaceOne(db.rows, db.sortNo, ids, boxes, titleOf, id);
    if id == db.nextId { db.nextId := db.nextId + 1; }
    r := ids + [id];
    db.rows := db.rows[id := Row(boxes[k], titleOf(boxes[k]))];
    db.sortNo := db.sortNo[id := k + 1];
  }

  method SaveBoxes(db: Database, byName: map<string, nat>, boxes: seq<string>, titleOf: string -> string)
    returns (ids: seq<nat>)
    requires NoRepeats(boxes) && FindsBoxes(byName, db.rows, db.nextId, boxes)
    modifies db`rows, db`sortNo, db`nextId
    ensures |ids| == |boxes| && NoRepeats(ids) && Placed(db.rows, db.sortNo, ids, boxes, titleOf)
    ensures Assigned(byName, old(db.rows), old(db.nextId), db.rows, db.nextId, ids, boxes)
  {
    ids := [];
    ghost var rows, next := db.rows, db.nextId;
    for k := 0 to |boxes|
      invariant |ids| == k && NoRepeats(ids) && Placed(db.rows, db.sortNo, ids, boxes, titleOf)
      invariant Assigned(byName, rows, next, db.rows, db.nextId, ids, boxes)
    {
      ids := SaveBox(db, byName, boxes, titleOf, ids, rows, next);
    }
  }

  /** The rows after a sync: those of the listed mailboxes, and of rows with one name all but the one an index finds. */
  ghost predicate SyncedRows(rows: map<nat, Row>, order: seq<nat>, after: map<nat, Row>, ids: seq<nat>,
                             boxes: seq<string>) {
    && (forall i :: i in after <==> i in ids || (i in rows && !IsIndexed(rows, order, i)))
    && (forall i :: i in after && i !in ids ==> after[i] == rows[i])
    && (forall i :: i in ids && i in rows ==> IsIndexed(rows, order, i))
    && (forall i :: i in rows && rows[i].name in boxes ==> i in after && after[i].name == rows[i].name)
  }

  lemma KeptFinds(byName: map<string, nat>, rows: map<nat, Row>, order: seq<nat>, next: nat, boxes: seq<string>)
    requires IsRowIndex(byName, rows, order) && forall i :: i in rows ==> i < next
    ensures FindsBoxes(byName, Kept(rows, order, Gone(rows, boxes)), next, boxes)
  {
    hide IsIndexed;
    forall b | b in boxes && b in byName ensures byName[b] in rows && rows[byName[b]].name == b {
      assert IndexBy(rows, order, b) == Some(byName[b]);
    }
  }

  lemma AssignedSynced(byName: map<string, nat>, rows: map<nat, Row>, order: seq<nat>, next: nat,
                       after: map<nat, Row>, next': nat, ids: seq<nat>, boxes: seq<string>)
    requires IsRowIndex(byName, rows, order) && (forall i :: i in rows ==> i < next) && |ids| == |boxes|
    requires Assigned(byName, Kept(rows, order, Gone(rows, boxes)), next, after, next', ids, boxes)
    requires forall j :: 0 <= j < |ids| ==> ids[j] in after
    ensures SyncedRows(rows, order, after, ids, boxes)
  {
    hide IndexBy;
    var kept := Kept(rows, order, Gone(rows, boxes));
    forall i | i in kept && IsIndexed(rows, order, i) ensures i in ids {
      assert rows[i].name in boxes && IndexBy(rows, order, rows[i].name) == Some(i);
      var j :| 0 <= j < |boxes| && boxes[j] == rows[i].name;
      assert ids[j] == i;
    }
    forall i | i in ids && i in rows ensures IsIndexed(rows, order, i) {
      var j :| 0 <= j < |ids| && ids[j] == i;
      assert IndexBy(rows, order, boxes[j]) == Some(i);
    }
  }

  /** Returns the ids in listing order, which is the order a later load by sort_no finds them in. */
  method SyncMailboxes(db: Database, order: seq<nat>, boxes: seq<string>, titleOf: string -> string)
    returns (ids: seq<nat>)
    requires (forall i :: i in order <==> i in db.rows) && NoRepeats(boxes)
    requires forall i :: i in db.rows ==> i < db.nextId && db.rows[i].name != ""
    modifies db
    ensures |ids| == |boxes| && NoRepeats(ids) && Placed(db.rows, db.sortNo, ids, boxes, titleOf)
    ensures SyncedRows(old(db.rows), order, db.rows, ids, boxes)
    ensures forall i :: i in db.rows ==> i < db.nextId
    ensures FiltersDropped(old(db.filters), db.filters, Gone(old(db.rows), boxes))
    ensures NodesDropped(old(db.nodes), db.nodes, Gone(old(db.rows), boxes))
  {
    hide FiltersDropped; hide NodesDropped; hide Gone; hide Kept; hide IsRowIndex; hide FindsBoxes; hide SyncedRows;
    var byName := IndexRows(db.rows, order);
    KeptFinds(byName, db.rows, order, db.nextId, boxes);
    DestroyMissing(db, order, boxes, byName);
    ids := SaveBoxes(db, byName, boxes, titleOf);
    AssignedSynced(byName, old(db.rows), order, old(db.nextId), db.rows, db.nextId, ids, boxes);
  }
}
