/** Runs that keep cache, tables and server in step. */
module CacheRuns {
  // The steps are those of the user, of MailboxRuns and of other clients. UIDVALIDITY is taken as fixed.
  import opened CacheTable
  import opened HeaderCache
  import opened MailMoves
  import opened MailServer
  import opened MailStore
  import opened MailboxNames
  import Boxes = MailboxRuns
  import Forest = MailboxForest
  import Records = MailboxRecords
  import Rename = MailboxRename
  import Sync = MailboxSync
  import Table = MailboxTree
  import opened Text

  /** The server, and one account's tables of mailboxes, filters and cached headers. */
  datatype State = State(server: Server, account: Boxes.Account)

  datatype Step =
    | Fetch(mailbox: string, uids: seq<nat>)
    | Move(src: string, dst: string, uids: seq<nat>)
    | Copy(src: string, dst: string, uids: seq<nat>)
    | Delete(box: string, uids: seq<nat>)
    | Trash(box: string, inTrash: bool, trash: string, uids: seq<nat>)
    | Store(box: string, uids: seq<nat>, add: set<Flag>, remove: set<Flag>)
    // a request that creates, renames or deletes a mailbox, or a sync
    | Request(step: Boxes.Step)
    // other clients and deliveries
    | Arrive(box: string, msg: Message)
    | ExpungedElsewhere(box: string, gone: set<nat>)
    | CreatedElsewhere(box: string)

  /** Mailboxes named exist; what a request or another client creates is new to the server. */
  ghost predicate Allowed(st: State, s: Step, d: char) {
    match s
    case Fetch(mailbox, uids) => mailbox in st.server && Boxes.HasRow(st.account.rows, mailbox)
    case Move(src, dst, uids) => src in st.server && dst in st.server
    case Copy(src, dst, uids) => src in st.server && dst in st.server
    case Delete(box, uids) => box in st.server
    case Trash(box, inTrash, trash, uids) => box in st.server && trash in st.server
    case Store(box, uids, add, remove) => box in st.server
    case Request(step) => Boxes.Allowed(st.account, step, d) && Boxes.Sane(st.account, d) && Accepts(st, step, d)
    case Arrive(box, msg) => box in st.server
    case ExpungedElsewhere(box, uids) => box in st.server
    case CreatedElsewhere(box) => box !in st.server
  }

  /** The server's answer to the commands of a request. It creates no mailbox twice, moves none below itself and
      merges none, and deletes only what it has. */
  ghost predicate Accepts(st: State, step: Boxes.Step, d: char)
    requires Boxes.Allowed(st.account, step, d) && Boxes.Sane(st.account, d)
  {
    match step
    case Create(id, row, ok) => ok ==> row.name !in st.server
    case Rename(order, top, title, name, ok) =>
      ok ==> var was := st.account.rows[top].name;
        was in st.server && !IsInbox(was) && !Under(name, was, d) && NoMerge(st.server, was, name, d)
    case Delete(order, top, n) => Deleted(st.account, order, top, n, d) <= st.server.Keys
    case Sync(boxes, titleOf) => forall x :: x in boxes <==> x in st.server
    case CacheHeader(node) => false
  }

  ghost predicate NoMerge(s: Server, was: string, name: string, d: char) {
    forall x, y :: x in s && y in s && RenamePath(x, was, name, d) == RenamePath(y, was, name, d) ==> x == y
  }

  /** RENAME of a mailbox other than INBOX moves it and its inferiors with their UIDs (section 6.3.5
      of RFC 3501). */
  ghost function RenamedServer(s: Server, was: string, name: string, d: char): Server {
    map y | y in RenamedNames(s, was, name, d) :: s[Origin(s, was, name, d, y)]
  }

  ghost function RenamedNames(s: Server, was: string, name: string, d: char): set<string> {
    set x | x in s :: RenamePath(x, was, name, d)
  }

  ghost function Origin(s: Server, was: string, name: string, d: char, y: string): (x: string)
    requires y in RenamedNames(s, was, name, d)
    ensures x in s && RenamePath(x, was, name, d) == y
  {
    var x :| x in s && RenamePath(x, was, name, d) == y;
    x
  }

  /** The names that n deletions, from `top` downwards, take from the server. */
  ghost function Deleted(a: Boxes.Account, order: seq<nat>, top: nat, n: nat, d: char): set<string>
    requires Boxes.Sane(a, d) && top in a.rows
  {
    var ts := Boxes.Subtrees(Forest.LoadedTree(a.rows, order, top, d));
    set k | 0 <= k < n && k < |ts| && ts[k].id in a.rows :: a.rows[ts[k].id].name
  }

  /** The server after the commands of a request; DELETE leaves inferiors. */
  ghost function Commanded(st: State, step: Boxes.Step, d: char): Server
    requires Boxes.Allowed(st.account, step, d) && Boxes.Sane(st.account, d)
  {
    match step
    case Create(id, row, ok) => if ok then st.server[row.name := Box(1, map[])] else st.server
    case Rename(order, top, title, name, ok) => if ok then RenamedServer(st.server, st.account.rows[top].name, name, d)
      else st.server
    case Delete(order, top, n) => st.server - Deleted(st.account, order, top, n, d)
    case Sync(boxes, titleOf) => st.server
    case CacheHeader(node) => st.server
  }

  /** Server and cached headers after a mail operation. */
  ghost function Mailed(st: State, s: Step, hasMove: bool, d: char): (Server, seq<Node>)
    requires Allowed(st, s, d) && !s.Request?
  {
    var nodes := st.account.nodes;
    match s
    case Fetch(mailbox, uids) => (st.server, FetchSpec(st.server[mailbox], nodes, mailbox, uids).1)
    case Move(src, dst, uids) => (MoveAll(st.server, hasMove, src, dst, uids).0, DeleteNodes(nodes, src, uids))
    case Copy(src, dst, uids) => (CopyAll(st.server, src, dst, uids).0, nodes)
    case Delete(box, uids) => (DeleteAll(st.server, box, uids).0, DeleteNodes(nodes, box, uids))
    case Trash(box, inTrash, trash, uids) =>
      (TrashAll(st.server, hasMove, box, inTrash, trash, uids).0, DeleteNodes(nodes, box, uids))
    case Store(box, uids, add, remove) => (UidStore(st.server, box, AsSet(uids), add, remove), nodes)
    case Arrive(box, msg) => (st.server[box := Deliver(st.server[box], [msg])], nodes)
    case ExpungedElsewhere(box, uids) => (st.server[box := Without(st.server[box], uids)], nodes)
    case CreatedElsewhere(box) => (st.server[box := Box(1, map[])], nodes)
  }

  ghost predicate Next(st: State, s: Step, st': State, hasMove: bool, d: char)
    requires Allowed(st, s, d) && Boxes.Sane(st.account, d)
  {
    if s.Request? then Boxes.Next(st.account, s.step, st'.account, d) && st'.server == Commanded(st, s.step, d)
    else var (server, nodes) := Mailed(st, s, hasMove, d); st' == State(server, st.account.(nodes := nodes))
  }

  /** Cached headers are sound, and they and the tracked filters name mailboxes of the table. */
  ghost predicate Inv(st: State, d: char, tracked: set<nat>) {
    ServerOk(st.server) && CacheOk(st.server, st.account.nodes) && Boxes.Sane(st.account, d)
      && Boxes.Live(st.account, tracked)
  }

  /** Every cached header is one of a mailbox the server has. */
  ghost predicate OnServer(st: State) {
    forall n :: n in st.account.nodes ==> n.mailbox in st.server
  }

  // ----- What a rename or a new mailbox must not meet -----

  /** Each mailbox at or below the old name that has cached headers hangs on records that validate. */
  ghost predicate CachedLinked(a: Boxes.Account, order: seq<nat>, top: nat, title: string, d: char)
    requires top in a.rows
  {
    forall n :: n in a.nodes && Under(n.mailbox, a.rows[top].name, d) ==>
      Forest.LinkedTo(a.rows, order, Table.Ok(Records.Titled(Boxes.LoadedPicture(a), top, title)), top, n.mailbox, d)
  }

  /** A cached header is taken along twice. */
  ghost predicate HeaderCaptured(a: Boxes.Account, order: seq<nat>, top: nat, title: string, name: string, d: char)
    requires Boxes.Sane(a, d) && top in a.rows
  {
    exists n :: n in a.nodes
      && Rename.Captured(a.rows, Boxes.Reached(a, order, top, title, d), n.mailbox, a.rows[top].name, name, d)
  }

  /** A rename that leaves a cached header behind or takes one too far. */
  ghost predicate LeavesBehind(st: State, s: Step, d: char) {
    && s.Request? && s.step.Rename? && s.step.accepted && s.step.top in st.account.rows && Boxes.Sane(st.account, d)
    && (!CachedLinked(st.account, s.step.order, s.step.top, s.step.title, d)
        || HeaderCaptured(st.account, s.step.order, s.step.top, s.step.title, s.step.name, d))
  }

  /** Neither a cached header nor a mailbox of the server is at or below that name. */
  ghost predicate NothingUnder(st: State, name: string, d: char) {
    && (forall n :: n in st.account.nodes ==> !Under(n.mailbox, name, d))
    && forall x :: x in st.server ==> !Under(x, name, d)
  }

  /** No cached header comes to be taken for one of a mailbox that is created or renamed. */
  ghost predicate Clean(st: State, s: Step, d: char) {
    match s
    case CreatedElsewhere(box) => forall n :: n in st.account.nodes ==> n.mailbox != box
    case Request(Create(id, row, ok)) => ok ==> forall n :: n in st.account.nodes ==> n.mailbox != row.name
    case Request(Rename(order, top, title, name, ok)) =>
      ok ==> NothingUnder(st, name, d) || (OnServer(st) && !LeavesBehind(st, s, d))
    case _ => true
  }

  /** With every cached header on the server only a rename can be unclean, whatever the table holds. */
  lemma CleanOnServer(st: State, s: Step, d: char)
    requires OnServer(st) && Allowed(st, s, d) && !LeavesBehind(st, s, d)
    ensures Clean(st, s, d)
  {
    hide Boxes.Allowed; hide Boxes.Sane; hide LeavesBehind; hide NothingUnder; hide NoMerge; hide Deleted;
  }

  // ----- Server changes that keep cached rows true -----

  /** Below the old UIDNEXT no message appears or changes its header. */
  ghost predicate Later(a: Box, b: Box) {
    && a.uidNext <= b.uidNext
    && forall u :: u < a.uidNext && u in b.msgs ==> u in a.msgs && b.msgs[u].header == a.msgs[u].header
  }

  ghost predicate LaterServer(s: Server, t: Server) {
    s.Keys == t.Keys && forall x :: x in s ==> Later(s[x], t[x])
  }

  lemma LaterKeepsCache(s: Server, t: Server, nodes: seq<Node>)
    requires CacheOk(s, nodes) && LaterServer(s, t)
    ensures CacheOk(t, nodes)
  {
    hide WriteRow;
    forall n | n in nodes ensures NodeOk(t, n) { assert NodeOk(s, n); }
  }

  ghost predicate Unique(nodes: seq<Node>) {
    forall i, j :: 0 <= i < j < |nodes| ==> nodes[i].mailbox != nodes[j].mailbox || nodes[i].uid != nodes[j].uid
  }

  lemma UniqueFewer(nodes: seq<Node>, init: seq<Node>, last: Node, r: seq<Node>)
    requires nodes == init + [last] && Unique(nodes) && Unique(r)
    requires forall n :: n in r ==> n in init
    ensures Unique(r + [last])
  {
    forall i | 0 <= i < |r| ensures r[i].mailbox != last.mailbox || r[i].uid != last.uid {
      assert r[i] in r;
      var k :| 0 <= k < |init| && init[k] == r[i];
      assert nodes[k] == r[i] && nodes[|init|] == last;
    }
  }

  lemma {:induction false} DeleteNodesUnique(nodes: seq<Node>, mailbox: string, uids: seq<nat>)
    requires Unique(nodes)
    ensures Unique(DeleteNodes(nodes, mailbox, uids))
  {
    if nodes != [] {
      var init, last := nodes[..|nodes| - 1], nodes[|nodes| - 1];
      assert nodes == init + [last];
      assert forall i :: 0 <= i < |init| ==> init[i] == nodes[i];
      DeleteNodesUnique(init, mailbox, uids);
      UniqueFewer(nodes, init, last, DeleteNodes(init, mailbox, uids));
      assert DeleteNodes(init, mailbox, uids) + [] == DeleteNodes(init, mailbox, uids);
    }
  }

  lemma FewerNodesOk(s: Server, nodes: seq<Node>, mailbox: string, uids: seq<nat>)
    requires CacheOk(s, nodes)
    ensures CacheOk(s, DeleteNodes(nodes, mailbox, uids))
  {
    hide NodeOk;
    DeleteNodesUnique(nodes, mailbox, uids);
  }

  lemma DeliverLater(b: Box, ms: seq<Message>)
    requires BoxOk(b)
    ensures Later(b, Deliver(b, ms)) && BoxOk(Deliver(b, ms))
  {
    DeliverKeeps(b, ms);
  }

  lemma CopyLater(s: Server, src: string, dst: string, uids: set<nat>)
    requires ServerOk(s) && src in s && dst in s
    ensures ServerOk(UidCopy(s, src, dst, uids)) && LaterServer(s, UidCopy(s, src, dst, uids))
  {
    DeliverLater(s[dst], Picked(s[src], uids));
  }

  lemma StoreExpungeLater(s: Server, box: string, uids: set<nat>)
    requires ServerOk(s) && box in s
    ensures ServerOk(StoreExpunge(s, box, uids)) && LaterServer(s, StoreExpunge(s, box, uids))
  {
    StoreExpungeIs(s, box, uids);
  }

  lemma LaterTwice(s: Server, t: Server, r: Server)
    requires LaterServer(s, t) && LaterServer(t, r)
    ensures LaterServer(s, r)
  {
    forall x | x in s ensures Later(s[x], r[x]) {
      assert Later(s[x], t[x]) && Later(t[x], r[x]);
    }
  }

  lemma MoveLater(s: Server, hasMove: bool, src: string, dst: string, uids: seq<nat>)
    requires ServerOk(s) && src in s && dst in s
    ensures var t := MoveAll(s, hasMove, src, dst, uids).0; ServerOk(t) && LaterServer(s, t)
  {
    if src != dst && |uids| > 0 {
      CopyLater(s, src, dst, AsSet(uids));
      var t := UidCopy(s, src, dst, AsSet(uids));
      if !hasMove {
        StoreExpungeLater(t, src, AsSet(uids));
        LaterTwice(s, t, StoreExpunge(t, src, AsSet(uids)));
      }
    }
  }

  // ----- Mail operations -----

  lemma FetchKeepsCache(s: Server, nodes: seq<Node>, mailbox: string, uids: seq<nat>)
    requires CacheOk(s, nodes) && ServerOk(s) && mailbox in s
    ensures CacheOk(s, FetchSpec(s[mailbox], nodes, mailbox, uids).1)
    ensures forall n :: n in FetchSpec(s[mailbox], nodes, mailbox, uids).1 ==> n in nodes || n.mailbox == mailbox
  {
    FetchForm(s[mailbox], nodes, mailbox, uids);
    var live := FromServer(s[mailbox], Missing(uids, UidsOf(CachedFor(nodes, mailbox, uids))), s[mailbox].uidNext);
    NewNodesIs(mailbox, live);
    hide WriteRow; hide NodeOk;
    if NewNodes(mailbox, live).Some? { NewRows(s, nodes, mailbox, uids, live); }
  }

  /** A mailbox nothing is cached for may appear. */
  lemma NewBoxKeepsCache(s: Server, nodes: seq<Node>, box: string)
    requires CacheOk(s, nodes) && box !in s && forall n :: n in nodes ==> n.mailbox != box
    ensures CacheOk(s[box := Box(1, map[])], nodes)
  {
    hide WriteRow;
    forall n | n in nodes ensures NodeOk(s[box := Box(1, map[])], n) { assert NodeOk(s, n); }
  }

  /** The mail part of the state stays sound; no mailbox disappears, and headers are only cached for the mailbox
      fetched. */
  lemma MailedOk(st: State, s: Step, hasMove: bool, d: char, tracked: set<nat>)
    requires Inv(st, d, tracked) && Allowed(st, s, d) && !s.Request? && Clean(st, s, d)
    ensures var (server, nodes) := Mailed(st, s, hasMove, d);
      && ServerOk(server) && CacheOk(server, nodes) && st.server.Keys <= server.Keys
      && forall n :: n in nodes ==> n in st.account.nodes || (s.Fetch? && n.mailbox == s.mailbox)
  {
    hide CacheOk; hide ServerOk; hide Boxes.Sane; hide Boxes.Live; hide Boxes.HasRow; hide LaterServer;
    if s.Fetch? {
      FetchKeepsCache(st.server, st.account.nodes, s.mailbox, s.uids);
    } else if s.CreatedElsewhere? {
      NewBoxOk(st.server, st.account.nodes, s.box);
    } else {
      MailedLater(st, s, hasMove, d);
      MailedFewer(st, s, hasMove, d);
      hide Mailed;
      LaterKeys(st.server, Mailed(st, s, hasMove, d).0);
      LaterKeepsCache(st.server, Mailed(st, s, hasMove, d).0, Mailed(st, s, hasMove, d).1);
    }
  }

  lemma NewBoxOk(s: Server, nodes: seq<Node>, box: string)
    requires ServerOk(s) && CacheOk(s, nodes) && box !in s && forall n :: n in nodes ==> n.mailbox != box
    ensures ServerOk(s[box := Box(1, map[])]) && CacheOk(s[box := Box(1, map[])], nodes)
  {
    NewBoxKeepsCache(s, nodes, box);
    hide CacheOk;
  }

  lemma LaterKeys(s: Server, t: Server)
    requires LaterServer(s, t)
    ensures s.Keys == t.Keys
  {
  }

  /** What neither fetches nor creates only lets mailboxes go on. */
  lemma MailedLater(st: State, s: Step, hasMove: bool, d: char)
    requires ServerOk(st.server) && Allowed(st, s, d) && !s.Request? && !s.Fetch? && !s.CreatedElsewhere?
    ensures ServerOk(Mailed(st, s, hasMove, d).0) && LaterServer(st.server, Mailed(st, s, hasMove, d).0)
  {
    match s {
      case Move(src, dst, uids) => MoveLater(st.server, hasMove, src, dst, uids);
      case Copy(src, dst, uids) => CopyLater(st.server, src, dst, AsSet(uids));
      case Delete(box, uids) => StoreExpungeLater(st.server, box, AsSet(uids));
      case Trash(box, inTrash, trash, uids) =>
        StoreExpungeLater(st.server, box, AsSet(uids));
        MoveLater(st.server, hasMove, box, trash, uids);
      case Arrive(box, msg) => DeliverLater(st.server[box], [msg]);
      case Store(box, uids, add, remove) =>
      case ExpungedElsewhere(box, uids) =>
    }
  }

  lemma MailedFewer(st: State, s: Step, hasMove: bool, d: char)
    requires CacheOk(st.server, st.account.nodes) && Allowed(st, s, d)
    requires !s.Request? && !s.Fetch? && !s.CreatedElsewhere?
    ensures CacheOk(st.server, Mailed(st, s, hasMove, d).1)
    ensures forall n :: n in Mailed(st, s, hasMove, d).1 ==> n in st.account.nodes
  {
    hide CacheOk;
    match s {
      case Move(src, dst, uids) => FewerNodesOk(st.server, st.account.nodes, src, uids);
      case Delete(box, uids) => FewerNodesOk(st.server, st.account.nodes, box, uids);
      case Trash(box, inTrash, trash, uids) => FewerNodesOk(st.server, st.account.nodes, box, uids);
      case _ =>
    }
  }

  // ----- Renaming -----

  lemma RenamedAt(s: Server, was: string, name: string, d: char, x: string)
    requires NoMerge(s, was, name, d) && x in s
    ensures RenamePath(x, was, name, d) in RenamedServer(s, was, name, d)
    ensures RenamedServer(s, was, name, d)[RenamePath(x, was, name, d)] == s[x]
  {
    hide RenamePath;
  }

  lemma RenamedFrom(s: Server, was: string, name: string, d: char, y: string) returns (x: string)
    requires NoMerge(s, was, name, d) && y in RenamedServer(s, was, name, d)
    ensures x in s && RenamePath(x, was, name, d) == y && RenamedServer(s, was, name, d)[y] == s[x]
  {
    hide RenamePath;
    x := Origin(s, was, name, d, y);
  }

  /** A mailbox of the server that the walk does not move is there after the rename exactly when it was not to move. */
  lemma StaysNamed(s: Server, was: string, name: string, d: char, x: string)
    requires NoMerge(s, was, name, d) && x in s && Rename.Apart(was, name, d)
    ensures x in RenamedServer(s, was, name, d) <==> !Under(x, was, d)
  {
    if !Under(x, was, d) {
      RenamedAt(s, was, name, d, x);
    } else {
      forall z | z in s ensures RenamePath(z, was, name, d) != x { Rename.NotTwice(z, x, was, name, d); }
    }
  }

  /** Where nothing lies under the new name, a name outside it that is on the server afterwards was there before. */
  lemma NotMoved(s: Server, was: string, name: string, d: char, x: string)
    requires NoMerge(s, was, name, d) && x in RenamedServer(s, was, name, d) && !Under(x, name, d)
    ensures x in s && RenamedServer(s, was, name, d)[x] == s[x]
  {
    var z := RenamedFrom(s, was, name, d, x);
    if Under(z, was, d) { RenamedIsUnder(z, was, name, d); }
  }

  lemma MovedThere(s: Server, was: string, name: string, d: char, x: string)
    requires NoMerge(s, was, name, d) && Under(x, was, d) && forall y :: y in s ==> !Under(y, name, d)
    requires RenamePath(x, was, name, d) in RenamedServer(s, was, name, d)
    ensures x in s && RenamedServer(s, was, name, d)[RenamePath(x, was, name, d)] == s[x]
  {
    var z := RenamedFrom(s, was, name, d, RenamePath(x, was, name, d));
    RenamedIsUnder(x, was, name, d);
    Rename.MovedBackPath(x, was, name, d);
    if Under(z, was, d) { Rename.MovedBackPath(z, was, name, d); }
  }

  /** What a cached header's mailbox becomes when nothing lies under the new name. */
  lemma NodeMoves(s: Server, rows: map<nat, Table.Row>, walk: seq<nat>, was: string, name: string, d: char, n: Node)
    requires NodeOk(s, n) && NoMerge(s, was, name, d) && Forest.WalksUnder(rows, walk, was, d)
    requires Rename.NoClash(rows, walk, was, name, d)
    requires !Under(n.mailbox, name, d) && forall y :: y in s ==> !Under(y, name, d)
    ensures NodeOk(RenamedServer(s, was, name, d),
      n.(mailbox := Table.Follow(rows, walk, n.mailbox, was, name, d)))
  {
    Rename.FollowIsMoved(rows, walk, n.mailbox, was, name, d);
    var x, server := Table.Follow(rows, walk, n.mailbox, was, name, d), RenamedServer(s, was, name, d);
    hide WriteRow; hide RenamedServer; hide Under; hide RenamePath; hide Table.Follow; hide NoMerge;
    hide Rename.NoClash;
    if x in server {
      if Table.Names(rows, Table.Visited(walk), n.mailbox) {
        MovedThere(s, was, name, d, n.mailbox);
      } else {
        NotMoved(s, was, name, d, n.mailbox);
      }
    }
  }

  lemma MovedInjective(rows: map<nat, Table.Row>, walk: seq<nat>, was: string, name: string, d: char, x: string,
                       y: string)
    requires !Under(x, name, d) && !Under(y, name, d) && Forest.WalksUnder(rows, walk, was, d)
    requires Rename.NoClash(rows, walk, was, name, d)
    requires Table.Follow(rows, walk, x, was, name, d) == Table.Follow(rows, walk, y, was, name, d)
    ensures x == y
  {
    Rename.FollowIsMoved(rows, walk, x, was, name, d);
    Rename.FollowIsMoved(rows, walk, y, was, name, d);
    var saved := Table.Visited(walk);
    hide Table.Follow; hide Rename.NoClash;
    if Table.Names(rows, saved, x) { RenamedIsUnder(x, was, name, d); }
    if Table.Names(rows, saved, y) { RenamedIsUnder(y, was, name, d); }
    if Table.Names(rows, saved, x) && Table.Names(rows, saved, y) { Rename.RenameInjective(x, y, was, name, d); }
  }

  lemma NodesMoveClean(s: Server, rows: map<nat, Table.Row>, walk: seq<nat>, was: string, name: string, d: char,
                       before: seq<Node>, after: seq<Node>)
    requires CacheOk(s, before) && NoMerge(s, was, name, d) && Forest.WalksUnder(rows, walk, was, d)
    requires Rename.NoClash(rows, walk, was, name, d)
    requires (forall n :: n in before ==> !Under(n.mailbox, name, d)) && forall y :: y in s ==> !Under(y, name, d)
    requires after == Table.MovedNodes(before, rows, walk, was, name, d)
    ensures CacheOk(RenamedServer(s, was, name, d), after)
  {
    hide NodeOk; hide RenamedServer; hide Under; hide Table.Follow; hide NoMerge; hide Rename.NoClash;
    hide Forest.WalksUnder;
    forall i | 0 <= i < |before| ensures NodeOk(RenamedServer(s, was, name, d), after[i]) {
      assert before[i] in before;
      NodeMoves(s, rows, walk, was, name, d, before[i]);
    }
    forall i, j | 0 <= i < j < |after| ensures after[i].mailbox != after[j].mailbox || after[i].uid != after[j].uid {
      assert before[i] in before && before[j] in before;
      if after[i].mailbox == after[j].mailbox {
        MovedInjective(rows, walk, was, name, d, before[i].mailbox, before[j].mailbox);
      }
    }
  }

  /** With every header on the server and each going where its mailbox goes. */
  lemma NodesMoveAlong(s: Server, rows: map<nat, Table.Row>, walk: seq<nat>, was: string, name: string, d: char,
                       before: seq<Node>, after: seq<Node>)
    requires CacheOk(s, before) && NoMerge(s, was, name, d) && forall n :: n in before ==> n.mailbox in s
    requires forall n :: n in before ==>
               Table.Follow(rows, walk, n.mailbox, was, name, d) == RenamePath(n.mailbox, was, name, d)
    requires after == Table.MovedNodes(before, rows, walk, was, name, d)
    ensures CacheOk(RenamedServer(s, was, name, d), after)
    ensures forall n :: n in after ==> n.mailbox in RenamedServer(s, was, name, d)
  {
    hide RenamedServer; hide RenamePath; hide Table.Follow; hide WriteRow;
    forall i | 0 <= i < |before|
      ensures after[i].mailbox == RenamePath(before[i].mailbox, was, name, d) && before[i].mailbox in s
      ensures after[i].mailbox in RenamedServer(s, was, name, d) && NodeOk(RenamedServer(s, was, name, d), after[i])
    {
      assert before[i] in before && NodeOk(s, before[i]);
      RenamedAt(s, was, name, d, before[i].mailbox);
    }
    hide NodeOk;
    forall i, j | 0 <= i < j < |after| ensures after[i].mailbox != after[j].mailbox || after[i].uid != after[j].uid {
      assert before[i].mailbox in s && before[j].mailbox in s;
    }
  }

  /** With names that do not lie under each other, headers of mailboxes that move and are not reached stay behind. */
  lemma NodesOnServer(s: Server, rows: map<nat, Table.Row>, walk: seq<nat>, was: string, name: string, d: char,
                      before: seq<Node>, after: seq<Node>)
    requires NoMerge(s, was, name, d) && Rename.Apart(was, name, d) && forall n :: n in before ==> n.mailbox in s
    requires Forest.WalksUnder(rows, walk, was, d) && after == Table.MovedNodes(before, rows, walk, was, name, d)
    ensures (forall n :: n in after ==> n.mailbox in RenamedServer(s, was, name, d)) <==>
      (forall n :: n in before && Under(n.mailbox, was, d) ==> Table.Names(rows, Table.Visited(walk), n.mailbox))
  {
    Rename.ApartNoClash(rows, walk, was, name, d);
    var saved := Table.Visited(walk);
    hide RenamedServer; hide Table.Follow; hide Rename.NoClash; hide RenamePath; hide Under; hide NoMerge;
    hide Rename.Apart;
    forall i | 0 <= i < |before|
      ensures after[i].mailbox in RenamedServer(s, was, name, d) <==>
        (Under(before[i].mailbox, was, d) ==> Table.Names(rows, saved, before[i].mailbox))
    {
      assert before[i] in before;
      Rename.FollowIsMoved(rows, walk, before[i].mailbox, was, name, d);
      RenamedAt(s, was, name, d, before[i].mailbox);
      StaysNamed(s, was, name, d, before[i].mailbox);
      WalkedUnder(rows, walk, was, d, before[i].mailbox);
    }
    if forall n :: n in after ==> n.mailbox in RenamedServer(s, was, name, d) {
      forall n | n in before && Under(n.mailbox, was, d) ensures Table.Names(rows, saved, n.mailbox) {
        var i :| 0 <= i < |before| && before[i] == n;
        assert after[i] in after;
      }
    }
    if forall n :: n in before && Under(n.mailbox, was, d) ==> Table.Names(rows, saved, n.mailbox) {
      forall n | n in after ensures n.mailbox in RenamedServer(s, was, name, d) {
        var i :| 0 <= i < |after| && after[i] == n;
        assert before[i] in before;
      }
    }
  }

  lemma WalkedUnder(rows: map<nat, Table.Row>, walk: seq<nat>, was: string, d: char, x: string)
    requires Forest.WalksUnder(rows, walk, was, d)
    ensures Table.Names(rows, Table.Visited(walk), x) ==> Under(x, was, d)
  {
    hide Under;
  }

  lemma ReachedLinked(a: Boxes.Account, order: seq<nat>, top: nat, title: string, d: char, x: string)
    requires Boxes.Sane(a, d) && top in a.rows && Forest.Lists(order, a.rows)
    ensures Table.Names(a.rows, Table.Visited(Boxes.Reached(a, order, top, title, d)), x) <==>
      Forest.LinkedTo(a.rows, order, Table.Ok(Records.Titled(Boxes.LoadedPicture(a), top, title)), top, x, d)
  {
    hide Forest.AllWellNamed; hide Forest.LoadedTree; hide Table.Walk; hide Forest.Lists; hide Forest.LinkedTo;
    hide Table.Names; hide Table.Ok;
    Forest.ReachedIff(a.rows, order, top, Table.Ok(Records.Titled(Boxes.LoadedPicture(a), top, title)), x, d);
  }

  /** A header's mailbox that is linked and not captured goes where the server puts it. */
  lemma GoesAlong(a: Boxes.Account, order: seq<nat>, top: nat, title: string, name: string, d: char, x: string)
    requires Boxes.Sane(a, d) && top in a.rows && Forest.Lists(order, a.rows) && name != a.rows[top].name
    requires Forest.WalksUnder(a.rows, Boxes.Reached(a, order, top, title, d), a.rows[top].name, d)
    requires !Rename.Captured(a.rows, Boxes.Reached(a, order, top, title, d), x, a.rows[top].name, name, d)
    requires Under(x, a.rows[top].name, d) ==>
      Forest.LinkedTo(a.rows, order, Table.Ok(Records.Titled(Boxes.LoadedPicture(a), top, title)), top, x, d)
    ensures Table.Follow(a.rows, Boxes.Reached(a, order, top, title, d), x, a.rows[top].name, name, d)
      == RenamePath(x, a.rows[top].name, name, d)
  {
    var walk := Boxes.Reached(a, order, top, title, d);
    ReachedLinked(a, order, top, title, d, x);
    hide Boxes.Sane; hide Boxes.Reached; hide Forest.WalksUnder; hide Rename.Captured; hide Forest.LinkedTo;
    hide Table.Follow; hide RenamePath; hide Under; hide Table.Ok;
    Rename.FollowIs(a.rows, walk, x, a.rows[top].name, name, d);
  }

  lemma RenameParts(st: State, order: seq<nat>, top: nat, title: string, name: string, st': State, d: char,
                    tracked: set<nat>)
    requires Inv(st, d, tracked) && Allowed(st, Request(Boxes.Rename(order, top, title, name, true)), d)
    requires Next(st, Request(Boxes.Rename(order, top, title, name, true)), st', true, d)
    ensures CacheOk(st.server, st.account.nodes) && Boxes.Sane(st.account, d) && top in st.account.rows
    ensures Forest.Lists(order, st.account.rows) && name != st.account.rows[top].name
    ensures var was := st.account.rows[top].name;
      && was in st.server && !Under(name, was, d) && NoMerge(st.server, was, name, d)
      && st'.server == RenamedServer(st.server, was, name, d)
    ensures var walk := Boxes.Reached(st.account, order, top, title, d);
      && Forest.WalksUnder(st.account.rows, walk, st.account.rows[top].name, d)
      && st'.account.nodes
         == Table.MovedNodes(st.account.nodes, st.account.rows, walk, st.account.rows[top].name, name, d)
  {
    hide *;
    RenameAsked(st, order, top, title, name, st', d, tracked);
    var p, q := Boxes.RenameMoves(st.account, order, top, title, name, st'.account, d);
    Boxes.LoadedRows(st.account, top, title);
    NodesOf(p, q, st.account.rows, Boxes.Reached(st.account, order, top, title, d), st.account.rows[top].name, name, d);
  }

  lemma NodesOf(p: Table.Picture, q: Table.Picture, rows: map<nat, Table.Row>, walk: seq<nat>, was: string,
                name: string, d: char)
    requires Table.SameKeys(p, rows) && Table.Effect(p, q, rows, walk, was, name, d)
    ensures q.nodes == Table.MovedNodes(p.nodes, rows, walk, was, name, d)
  {
    hide Table.MovedRows; hide Table.MovedNodes; hide Table.MovedFilters;
  }

  lemma RenameAsked(st: State, order: seq<nat>, top: nat, title: string, name: string, st': State, d: char,
                    tracked: set<nat>)
    requires Inv(st, d, tracked) && Allowed(st, Request(Boxes.Rename(order, top, title, name, true)), d)
    requires Next(st, Request(Boxes.Rename(order, top, title, name, true)), st', true, d)
    ensures CacheOk(st.server, st.account.nodes) && Boxes.Sane(st.account, d) && top in st.account.rows
    ensures Forest.Lists(order, st.account.rows) && name != st.account.rows[top].name
    ensures Boxes.Allowed(st.account, Boxes.Rename(order, top, title, name, true), d)
    ensures Boxes.Next(st.account, Boxes.Rename(order, top, title, name, true), st'.account, d)
    ensures var was := st.account.rows[top].name;
      && was in st.server && !Under(name, was, d) && NoMerge(st.server, was, name, d)
      && st'.server == RenamedServer(st.server, was, name, d)
  {
    hide Boxes.Sane; hide Boxes.Live; hide Boxes.Next; hide CacheOk; hide ServerOk; hide Forest.Lists;
    hide RenamedServer; hide NoMerge; hide Under; hide WellNamed; hide Blank; hide Deleted;
  }

  /** An accepted rename keeps every cached header on a mailbox of the server, for names that do not lie under each
      other exactly when each mailbox at or below the old one that has cached headers is linked. */
  lemma RenameKeepsOnServer(st: State, order: seq<nat>, top: nat, title: string, name: string, st': State, d: char,
                            tracked: set<nat>)
    requires Inv(st, d, tracked) && Allowed(st, Request(Boxes.Rename(order, top, title, name, true)), d)
    requires Next(st, Request(Boxes.Rename(order, top, title, name, true)), st', true, d) && OnServer(st)
    ensures top in st.account.rows
    ensures Rename.Apart(st.account.rows[top].name, name, d) ==>
      (OnServer(st') <==> CachedLinked(st.account, order, top, title, d))
    ensures !LeavesBehind(st, Request(Boxes.Rename(order, top, title, name, true)), d) ==>
      OnServer(st') && CacheOk(st'.server, st'.account.nodes)
  {
    RenameParts(st, order, top, title, name, st', d, tracked);
    var a, walk, was := st.account, Boxes.Reached(st.account, order, top, title, d), st.account.rows[top].name;
    hide Inv; hide Allowed; hide Next; hide Boxes.Sane; hide Boxes.Reached; hide Forest.Lists; hide NoMerge;
    hide Forest.WalksUnder; hide Table.MovedNodes; hide CacheOk; hide RenamedServer; hide Rename.Captured; hide Under;
    hide Table.Names; hide Forest.LinkedTo; hide Table.Follow; hide Table.Ok; hide RenamePath;
    if Rename.Apart(was, name, d) {
      NodesOnServer(st.server, a.rows, walk, was, name, d, a.nodes, st'.account.nodes);
      forall n | n in a.nodes ensures Table.Names(a.rows, Table.Visited(walk), n.mailbox) <==>
        Forest.LinkedTo(a.rows, order, Table.Ok(Records.Titled(Boxes.LoadedPicture(a), top, title)), top, n.mailbox, d)
      {
        ReachedLinked(a, order, top, title, d, n.mailbox);
      }
    }
    if !LeavesBehind(st, Request(Boxes.Rename(order, top, title, name, true)), d) {
      forall n | n in a.nodes ensures
        Table.Follow(a.rows, walk, n.mailbox, was, name, d) == RenamePath(n.mailbox, was, name, d) {
        GoesAlong(a, order, top, title, name, d, n.mailbox);
      }
      NodesMoveAlong(st.server, a.rows, walk, was, name, d, a.nodes, st'.account.nodes);
    }
  }

  /** A clean rename keeps the cache sound. */
  lemma RenameKeepsCache(st: State, order: seq<nat>, top: nat, title: string, name: string, st': State, d: char,
                         tracked: set<nat>)
    requires Inv(st, d, tracked) && Allowed(st, Request(Boxes.Rename(order, top, title, name, true)), d)
    requires Next(st, Request(Boxes.Rename(order, top, title, name, true)), st', true, d)
    requires Clean(st, Request(Boxes.Rename(order, top, title, name, true)), d)
    ensures CacheOk(st'.server, st'.account.nodes)
  {
    RenameParts(st, order, top, title, name, st', d, tracked);
    var a, walk, was := st.account, Boxes.Reached(st.account, order, top, title, d), st.account.rows[top].name;
    hide Inv; hide Allowed; hide Next; hide Boxes.Sane; hide Boxes.Reached; hide Forest.Lists; hide NoMerge;
    hide Forest.WalksUnder; hide Table.MovedNodes; hide CacheOk; hide RenamedServer; hide Under; hide LeavesBehind;
    hide OnServer;
    if NothingUnder(st, name, d) {
      Rename.ApartNoClash(a.rows, walk, was, name, d);
      NodesMoveClean(st.server, a.rows, walk, was, name, d, a.nodes, st'.account.nodes);
    } else {
      RenameKeepsOnServer(st, order, top, title, name, st', d, tracked);
    }
  }

  // ----- Destroying and syncing -----

  lemma {:induction false} CountedOnce(nodes: seq<Node>, n: Node)
    requires Unique(nodes)
    ensures multiset(nodes)[n] <= 1
  {
    if nodes != [] {
      var init, last := nodes[..|nodes| - 1], nodes[|nodes| - 1];
      assert nodes == init + [last];
      assert forall i :: 0 <= i < |init| ==> init[i] == nodes[i];
      CountedOnce(init, n);
    }
  }

  lemma CountedTwice(nodes: seq<Node>, i: nat, j: nat)
    requires i < j < |nodes| && nodes[i] == nodes[j]
    ensures multiset(nodes)[nodes[i]] >= 2
  {
    assert nodes == nodes[..i] + [nodes[i]] + nodes[i + 1..j] + [nodes[j]] + nodes[j + 1..];
  }

  /** Taking headers out keeps them unique. */
  lemma UniqueWithin(nodes: seq<Node>, after: seq<Node>)
    requires Unique(nodes) && forall n :: multiset(after)[n] <= multiset(nodes)[n]
    ensures Unique(after) && forall n :: n in after ==> n in nodes
  {
    forall n | n in after ensures n in nodes { assert multiset(after)[n] > 0; }
    forall i, j | 0 <= i < j < |after| ensures after[i].mailbox != after[j].mailbox || after[i].uid != after[j].uid {
      if after[i] == after[j] {
        CountedTwice(after, i, j);
        CountedOnce(nodes, after[i]);
        assert false;
      } else {
        assert after[i] in after && after[j] in after;
        var k :| 0 <= k < |nodes| && nodes[k] == after[i];
        var l :| 0 <= l < |nodes| && nodes[l] == after[j];
        assert if k < l then nodes[k] != nodes[l] else nodes[l] != nodes[k];
      }
    }
  }

  /** The headers of the mailboxes `gone` go, and the server loses at most those mailboxes. */
  lemma DroppedOk(s: Server, t: Server, nodes: seq<Node>, after: seq<Node>, gone: set<string>)
    requires CacheOk(s, nodes) && Sync.NodesDropped(nodes, after, gone)
    requires forall x :: x in t ==> x in s && t[x] == s[x]
    ensures CacheOk(t, after) && forall n :: n in after ==> n in nodes && n.mailbox !in gone
  {
    hide WriteRow;
    assert Unique(nodes);
    UniqueWithin(nodes, after);
    forall n | n in after ensures NodeOk(t, n) && n.mailbox !in gone {
      assert multiset(after)[n] > 0;
      assert NodeOk(s, n);
    }
  }

  lemma DeletedGone(a: Boxes.Account, order: seq<nat>, top: nat, n: nat, d: char)
    requires Boxes.Sane(a, d) && top in a.rows
    requires Table.Ids(Forest.LoadedTree(a.rows, order, top, d)) <= Boxes.LoadedPicture(a).mem.Keys
    ensures Deleted(a, order, top, n, d) <= Boxes.MemNames(Boxes.LoadedPicture(a),
      Table.Ids(Forest.LoadedTree(a.rows, order, top, d)))
  {
    var t := Forest.LoadedTree(a.rows, order, top, d);
    var ts := Boxes.Subtrees(t);
    Boxes.SubtreeIds(t);
    hide Forest.LoadedTree; hide Table.Ids; hide Boxes.Subtrees; hide Boxes.Sane;
    forall k | 0 <= k < |ts| ensures ts[k].id in Table.Ids(t) {
      assert ts[k] in ts;
      Table.IdIn(ts[k]);
    }
  }

  lemma DeleteParts(st: State, order: seq<nat>, top: nat, n: nat, st': State, d: char, tracked: set<nat>)
    requires Inv(st, d, tracked) && Allowed(st, Request(Boxes.Delete(order, top, n)), d)
    requires Next(st, Request(Boxes.Delete(order, top, n)), st', true, d)
    ensures CacheOk(st.server, st.account.nodes) && Boxes.Sane(st.account, d)
    ensures Boxes.Allowed(st.account, Boxes.Delete(order, top, n), d)
    ensures Boxes.Next(st.account, Boxes.Delete(order, top, n), st'.account, d)
    ensures Forest.AllWellNamed(st.account.rows, d) && top in st.account.rows
    ensures st'.server == st.server - Deleted(st.account, order, top, n, d)
  {
    hide CacheOk; hide Boxes.Live; hide Boxes.Next; hide Forest.Lists; hide Forest.AllWellNamed; hide Blank;
    hide Deleted;
  }

  /** Deleting a mailbox takes the cached headers of its subtree, with the first name the server deletes. */
  lemma DeleteStep(st: State, order: seq<nat>, top: nat, n: nat, st': State, d: char, tracked: set<nat>)
    requires Inv(st, d, tracked) && Allowed(st, Request(Boxes.Delete(order, top, n)), d) && n > 0
    requires Next(st, Request(Boxes.Delete(order, top, n)), st', true, d)
    ensures CacheOk(st'.server, st'.account.nodes) && (OnServer(st) ==> OnServer(st'))
  {
    hide *;
    DeleteParts(st, order, top, n, st', d, tracked);
    Boxes.DeletedFields(st.account, order, top, n, st'.account, d);
    DeletedGone(st.account, order, top, n, d);
    var gone := Boxes.MemNames(Boxes.LoadedPicture(st.account),
      Table.Ids(Forest.LoadedTree(st.account.rows, order, top, d)));
    DroppedOk(st.server, st'.server, st.account.nodes, st'.account.nodes, gone);
    OthersOnServer(st, st', Deleted(st.account, order, top, n, d));
  }

  lemma OthersOnServer(st: State, st': State, boxes: set<string>)
    requires st'.server == st.server - boxes
    requires forall n :: n in st'.account.nodes ==> n in st.account.nodes && n.mailbox !in boxes
    ensures OnServer(st) ==> OnServer(st')
  {
  }

  /** A sync keeps the cache sound and leaves no header of a mailbox the server does not have. */
  lemma SyncStep(st: State, boxes: seq<string>, titleOf: string -> string, st': State, d: char, tracked: set<nat>)
    requires Inv(st, d, tracked) && Allowed(st, Request(Boxes.Sync(boxes, titleOf)), d)
    requires Next(st, Request(Boxes.Sync(boxes, titleOf)), st', true, d)
    ensures CacheOk(st'.server, st'.account.nodes) && OnServer(st')
  {
    var gone := Sync.Gone(st.account.rows, boxes);
    hide Boxes.Sane; hide CacheOk; hide Sync.NodesDropped; hide Sync.FiltersDropped; hide ServerOk; hide WellNamed;
    DroppedOk(st.server, st'.server, st.account.nodes, st'.account.nodes, gone);
    forall n | n in st'.account.nodes ensures n.mailbox in st'.server {
      var i :| i in st.account.rows && st.account.rows[i].name == n.mailbox;
      assert n.mailbox in boxes;
    }
  }

  /** A new mailbox keeps the cache sound exactly when no cached header was left under its name. */
  lemma CreateStep(st: State, id: nat, row: Table.Row, st': State, d: char, tracked: set<nat>)
    requires Inv(st, d, tracked) && Allowed(st, Request(Boxes.Create(id, row, true)), d)
    requires Next(st, Request(Boxes.Create(id, row, true)), st', true, d)
    ensures CacheOk(st'.server, st'.account.nodes) <==> Clean(st, Request(Boxes.Create(id, row, true)), d)
    ensures OnServer(st) ==> OnServer(st')
  {
    hide Boxes.Sane; hide Boxes.Live; hide WellNamed; hide WriteRow;
    assert st'.account.nodes == st.account.nodes && st'.server == st.server[row.name := Box(1, map[])];
    if Clean(st, Request(Boxes.Create(id, row, true)), d) {
      NewBoxKeepsCache(st.server, st.account.nodes, row.name);
    } else {
      var n :| n in st.account.nodes && n.mailbox == row.name;
      HeaderReused(st.server, st.account.nodes, n);
    }
  }

  /** A cached header whose mailbox is created anew is taken for one of a message to come. */
  lemma HeaderReused(s: Server, nodes: seq<Node>, n: Node)
    requires n in nodes && n.mailbox !in s && n.uid >= 1
    ensures !CacheOk(s[n.mailbox := Box(1, map[])], nodes)
  {
    hide WriteRow;
    assert !NodeOk(s[n.mailbox := Box(1, map[])], n);
  }

  // ----- Every step, every run -----

  lemma CommandedOk(st: State, step: Boxes.Step, d: char)
    requires ServerOk(st.server) && Boxes.Allowed(st.account, step, d) && Boxes.Sane(st.account, d)
    ensures ServerOk(Commanded(st, step, d))
  {
    hide Boxes.Allowed; hide Boxes.Sane; hide Deleted; hide RenamePath;
  }

  lemma RequestKeepsCache(st: State, step: Boxes.Step, st': State, d: char, tracked: set<nat>)
    requires Inv(st, d, tracked) && Allowed(st, Request(step), d) && Next(st, Request(step), st', true, d)
    ensures Clean(st, Request(step), d) ==> CacheOk(st'.server, st'.account.nodes)
    ensures OnServer(st) && !LeavesBehind(st, Request(step), d) ==> OnServer(st')
  {
    hide Boxes.Sane; hide Boxes.Live; hide CacheOk; hide WellNamed; hide NothingUnder; hide Forest.Lists;
    hide Boxes.DestroySpec; hide Records.RequestSpec; hide Deleted; hide LeavesBehind; hide NoMerge;
    match step {
      case Create(id, row, ok) => if ok { CreateStep(st, id, row, st', d, tracked); }
      case Rename(order, top, title, name, ok) =>
        if ok {
          if OnServer(st) { RenameKeepsOnServer(st, order, top, title, name, st', d, tracked); }
          if Clean(st, Request(step), d) { RenameKeepsCache(st, order, top, title, name, st', d, tracked); }
        }
      case Delete(order, top, n) =>
        if n > 0 { DeleteStep(st, order, top, n, st', d, tracked); } else { NothingDeleted(st, order, top, d); }
      case Sync(boxes, titleOf) => SyncStep(st, boxes, titleOf, st', d, tracked);
      case CacheHeader(node) =>
    }
  }

  lemma NothingDeleted(st: State, order: seq<nat>, top: nat, d: char)
    requires Boxes.Sane(st.account, d) && top in st.account.rows
    ensures st.server - Deleted(st.account, order, top, 0, d) == st.server
  {
    assert Deleted(st.account, order, top, 0, d) == {};
  }

  lemma MailKeepsLive(st: State, s: Step, st': State, hasMove: bool, d: char, tracked: set<nat>)
    requires Inv(st, d, tracked) && Allowed(st, s, d) && !s.Request? && Next(st, s, st', hasMove, d)
    requires Clean(st, s, d)
    ensures Inv(st', d, tracked) && (OnServer(st) ==> OnServer(st'))
  {
    hide CacheOk; hide ServerOk; hide Mailed; hide Boxes.Live; hide Boxes.Sane;
    MailedOk(st, s, hasMove, d, tracked);
    assert forall n :: n in st'.account.nodes ==> n in st.account.nodes || Boxes.HasRow(st.account.rows, n.mailbox);
    Boxes.MoreRowsLive(st.account, st'.account, tracked);
    SaneRows(st.account, st'.account, d);
  }

  lemma SaneRows(a: Boxes.Account, b: Boxes.Account, d: char)
    requires Boxes.Sane(a, d) && b.rows == a.rows
    ensures Boxes.Sane(b, d)
  {
  }

  /** A request does not depend on whether the server can MOVE. */
  lemma SameForMove(st: State, step: Boxes.Step, st': State, hasMove: bool, d: char)
    requires Allowed(st, Request(step), d) && Boxes.Sane(st.account, d) && Next(st, Request(step), st', hasMove, d)
    ensures Next(st, Request(step), st', true, d)
  {
  }

  lemma RequestParts(st: State, step: Boxes.Step, st': State, d: char, tracked: set<nat>)
    requires Inv(st, d, tracked) && Allowed(st, Request(step), d) && Next(st, Request(step), st', true, d)
    ensures ServerOk(st.server) && Boxes.Sane(st.account, d) && Boxes.Live(st.account, tracked)
    ensures Boxes.Allowed(st.account, step, d) && Boxes.Next(st.account, step, st'.account, d)
    ensures st'.server == Commanded(st, step, d)
  {
    hide CacheOk; hide ServerOk; hide Boxes.Live; hide Boxes.Sane; hide Boxes.Allowed; hide Boxes.Next;
    hide Commanded; hide Accepts;
  }

  lemma RequestKeepsInv(st: State, step: Boxes.Step, st': State, d: char, tracked: set<nat>)
    requires Inv(st, d, tracked) && Allowed(st, Request(step), d) && Next(st, Request(step), st', true, d)
    requires Clean(st, Request(step), d)
    ensures Inv(st', d, tracked)
    ensures OnServer(st) && !LeavesBehind(st, Request(step), d) ==> OnServer(st')
  {
    hide *;
    RequestParts(st, step, st', d, tracked);
    RequestKeepsCache(st, step, st', d, tracked);
    Boxes.StepKeepsLive(st.account, step, st'.account, d, tracked);
    CommandedOk(st, step, d);
    PartsMakeInv(st', d, tracked);
  }

  lemma PartsMakeInv(st: State, d: char, tracked: set<nat>)
    requires ServerOk(st.server) && CacheOk(st.server, st.account.nodes) && Boxes.Sane(st.account, d)
    requires Boxes.Live(st.account, tracked)
    ensures Inv(st, d, tracked)
  {
  }

  /** Every clean step keeps the invariant, whatever a rename reaches. */
  lemma StepKeepsInv(st: State, s: Step, st': State, hasMove: bool, d: char, tracked: set<nat>)
    requires Inv(st, d, tracked) && Allowed(st, s, d) && Next(st, s, st', hasMove, d) && Clean(st, s, d)
    ensures Inv(st', d, tracked)
    ensures OnServer(st) && !LeavesBehind(st, s, d) ==> OnServer(st')
  {
    if s.Request? {
      SameForMove(st, s.step, st', hasMove, d);
      hide *;
      RequestKeepsInv(st, s.step, st', d, tracked);
    } else {
      hide *;
      MailKeepsLive(st, s, st', hasMove, d, tracked);
    }
  }

  /** A step from a table with well-formed names is allowed and made. */
  ghost predicate Steps(st: State, s: Step, st': State, hasMove: bool, d: char) {
    Boxes.Sane(st.account, d) ==> Allowed(st, s, d) && Next(st, s, st', hasMove, d)
  }

  ghost predicate IsRun(states: seq<State>, steps: seq<Step>, hasMove: bool, d: char) {
    && |states| == |steps| + 1
    && forall k :: 0 <= k < |steps| ==> Steps(states[k], steps[k], states[k + 1], hasMove, d)
  }

  /** Each cached (mailbox, uid) stays unique, below UIDNEXT and true to its message's header, and it and
      every filter that was live name a mailbox of the table, as long as every step is clean. */
  lemma {:induction false} RunKeepsInv(states: seq<State>, steps: seq<Step>, n: nat, hasMove: bool, d: char,
                                       tracked: set<nat>)
    requires IsRun(states, steps, hasMove, d) && n <= |steps| && Inv(states[0], d, tracked)
    requires forall k :: 0 <= k < n ==> Clean(states[k], steps[k], d)
    ensures Inv(states[n], d, tracked)
  {
    if n > 0 {
      RunStep(states, steps, n - 1, hasMove, d, tracked);
      hide *;
      RunKeepsInv(states, steps, n - 1, hasMove, d, tracked);
      StepKeepsInv(states[n - 1], steps[n - 1], states[n], hasMove, d, tracked);
    }
  }

  lemma RunStep(states: seq<State>, steps: seq<Step>, k: nat, hasMove: bool, d: char, tracked: set<nat>)
    requires IsRun(states, steps, hasMove, d) && k < |steps|
    ensures |states| == |steps| + 1
    ensures Inv(states[k], d, tracked) ==>
      && Allowed(states[k], steps[k], d) && Boxes.Sane(states[k].account, d)
      && Next(states[k], steps[k], states[k + 1], hasMove, d)
  {
    hide Next; hide Allowed; hide CacheOk; hide ServerOk; hide Boxes.Live; hide Boxes.Sane;
    assert Steps(states[k], steps[k], states[k + 1], hasMove, d);
  }

  /** From a state in which every cached header is of a mailbox the server has, for example after a sync, all of this
      holds and goes on over every run in which no rename leaves a header behind. */
  lemma {:induction false} RunStaysOnServer(states: seq<State>, steps: seq<Step>, n: nat, hasMove: bool,
                                            d: char, tracked: set<nat>)
    requires IsRun(states, steps, hasMove, d) && n <= |steps| && Inv(states[0], d, tracked) && OnServer(states[0])
    requires forall k :: 0 <= k < n ==> !LeavesBehind(states[k], steps[k], d)
    ensures Inv(states[n], d, tracked) && OnServer(states[n])
  {
    if n > 0 {
      RunStep(states, steps, n - 1, hasMove, d, tracked);
      hide *;
      RunStaysOnServer(states, steps, n - 1, hasMove, d, tracked);
      CleanOnServer(states[n - 1], steps[n - 1], d);
      StepKeepsInv(states[n - 1], steps[n - 1], states[n], hasMove, d, tracked);
    }
  }

  // ----- When a header is left behind -----

  /** Where names are not repeated, a subtree whose titles validate and whose mailboxes hang on rows leaves nothing
      behind. */
  lemma RenamableLinked(a: Boxes.Account, order: seq<nat>, top: nat, title: string, d: char, tracked: set<nat>)
    requires Boxes.Sane(a, d) && Forest.UniqueNames(a.rows) && top in a.rows && Forest.Lists(order, a.rows)
    requires Boxes.Live(a, tracked)
    requires Forest.Renamable(a.rows, top, Table.Ok(Records.Titled(Boxes.LoadedPicture(a), top, title)), d)
    ensures CachedLinked(a, order, top, title, d)
  {
    var ok := Table.Ok(Records.Titled(Boxes.LoadedPicture(a), top, title));
    Forest.ReachesAll(a.rows, order, top, ok, d);
    hide Forest.AllWellNamed; hide Forest.LinkedTo; hide Forest.Renamable; hide Forest.LoadedTree; hide Table.Walk;
    hide Under; hide Table.Ok; hide Forest.UniqueNames; hide Forest.Lists;
    forall n | n in a.nodes && Under(n.mailbox, a.rows[top].name, d)
      ensures Forest.LinkedTo(a.rows, order, ok, top, n.mailbox, d) {
      var i :| i in a.rows && a.rows[i].name == n.mailbox;
      assert i in Table.Visited(Table.Walk(Forest.LoadedTree(a.rows, order, top, d), ok));
      Forest.ReachedIff(a.rows, order, top, ok, n.mailbox, d);
    }
  }

  /** Mailbox A with A.b below it, whose title does not validate, and a cached header of A.b. */
  function Before(): State {
    State(map["A" := Box(1, map[]), "A.b" := Box(2, map[])],
          Boxes.Account(Rename.TwoBoxes(), [], [Node("A.b", 1, Row("", "", "", "", "", ""))]))
  }

  lemma BeforeHolds()
    ensures Inv(Before(), '.', {}) && OnServer(Before()) && 1 in Before().account.rows
    ensures Before().account.rows[1].name == "A"
  {
    var st, n := Before(), Node("A.b", 1, Row("", "", "", "", "", ""));
    Rename.TwoBoxesWellFormed();
    assert st.account.rows[1].name == "A" && st.account.rows[2] == Table.Row("A.b", "b/c") && st.account.nodes == [n];
    hide Blank; hide Forest.WellFormed; hide WriteRow;
    assert Boxes.HasRow(st.account.rows, "A.b");
    assert NodeOk(st.server, n);
  }

  lemma BeforeNotLinked()
    requires 1 in Before().account.rows
    ensures !CachedLinked(Before().account, [1, 2], 1, "A", '.')
  {
    var st, n := Before(), Node("A.b", 1, Row("", "", "", "", "", ""));
    Rename.TwoBoxesWellFormed();
    hide Forest.WellFormed; hide Table.ValidTitle; hide Blank;
    assert st.account.rows[1].name == "A" && st.account.rows[2] == Table.Row("A.b", "b/c") && st.account.nodes == [n];
    var ok := Table.Ok(Records.Titled(Boxes.LoadedPicture(st.account), 1, "A"));
    assert 2 !in ok && !Table.Names(st.account.rows, ok, "A.b");
    assert Under("A.b", "A.b", '.');
    assert n in st.account.nodes && !Forest.LinkedTo(st.account.rows, [1, 2], ok, 1, "A.b", '.');
  }

  /** Renaming A to B leaves the header under a name the server no longer has. */
  lemma HeaderLeftBehind(st': State)
    requires Boxes.Sane(Before().account, '.')
    requires Allowed(Before(), Request(Boxes.Rename([1, 2], 1, "A", "B", true)), '.')
    requires Next(Before(), Request(Boxes.Rename([1, 2], 1, "A", "B", true)), st', true, '.')
    ensures Inv(Before(), '.', {}) && OnServer(Before()) && !OnServer(st')
  {
    hide *;
    BeforeHolds();
    BeforeNotLinked();
    ApartNames();
    HeaderLeft(Before(), [1, 2], 1, "A", "B", st', '.', {});
  }

  lemma ApartNames()
    ensures Rename.Apart("A", "B", '.')
  {
    assert "A"[..1] == "A" && "B"[..1] == "B" && "A"[0] != "B"[0];
  }

  lemma HeaderLeft(st: State, order: seq<nat>, top: nat, title: string, name: string, st': State, d: char,
                   tracked: set<nat>)
    requires Inv(st, d, tracked) && OnServer(st) && top in st.account.rows && Boxes.Sane(st.account, d)
    requires Allowed(st, Request(Boxes.Rename(order, top, title, name, true)), d)
    requires Next(st, Request(Boxes.Rename(order, top, title, name, true)), st', true, d)
    requires Rename.Apart(st.account.rows[top].name, name, d) && !CachedLinked(st.account, order, top, title, d)
    ensures !OnServer(st')
  {
    hide *;
    RenameKeepsOnServer(st, order, top, title, name, st', d, tracked);
  }

  /** The request is one the server accepts. */
  lemma HeaderCanBeLeft()
    ensures Boxes.Sane(Before().account, '.')
    ensures Allowed(Before(), Request(Boxes.Rename([1, 2], 1, "A", "B", true)), '.')
  {
    Rename.TwoBoxesWellFormed();
    Indivisible("B", '.');
    assert WellNamed("B", '.');
    assert Rename.TwoBoxes()[1].name == "A" && Rename.TwoBoxes()[2].name == "A.b";
  }
}
