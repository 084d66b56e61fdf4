/** The session: server and header cache changed and read together. */
module MailStore {
  import opened CacheTable
  import opened Collections
  import opened HeaderCache
  import opened MailMoves
  import opened MailServer
  import opened Wrappers

  /** MailNode.delete_nodes */
  function DeleteNodes(nodes: seq<Node>, mailbox: string, uids: seq<nat>): (r: seq<Node>)
    ensures forall n :: n in r <==> n in nodes && !(n.mailbox == mailbox && n.uid in uids)
  {
    if nodes == [] then []
    else
      var last := nodes[|nodes| - 1];
      assert nodes == nodes[..|nodes| - 1] + [last];
      DeleteNodes(nodes[..|nodes| - 1], mailbox, uids) + if last.mailbox == mailbox && last.uid in uids then []
        else [last]
  }

  function IndexOf(uids: seq<nat>, u: nat): (i: nat)
    requires u in uids
    ensures i < |uids| && uids[i] == u && forall j :: 0 <= j < i ==> uids[j] != u
  {
    if uids[0] == u then 0 else 1 + IndexOf(uids[1..], u)
  }

  ghost predicate SortedByIndex(items: seq<Item>, uids: seq<nat>) {
    && (forall i :: 0 <= i < |items| ==> items[i].uid in uids)
    && forall i, j :: 0 <= i < j < |items| ==> IndexOf(uids, items[i].uid) <= IndexOf(uids, items[j].uid)
  }

  /** Inserts before the first item that does not come earlier. */
  method Insert(items: seq<Item>, x: Item, uids: seq<nat>) returns (out: seq<Item>)
    requires SortedByIndex(items, uids) && x.uid in uids
    ensures SortedByIndex(out, uids) && |out| == |items| + 1
    ensures forall y :: y in out <==> y in items || y == x
  {
    hide IndexOf;
    var k := 0;
    while k < |items| && IndexOf(uids, items[k].uid) < IndexOf(uids, x.uid)
      invariant k <= |items|
      invariant forall j :: 0 <= j < k ==> IndexOf(uids, items[j].uid) < IndexOf(uids, x.uid)
    {
      k := k + 1;
    }
    out := items[..k] + [x] + items[k..];
    InsertedSorted(items, x, uids, k);
    assert items == items[..k] + items[k..];
  }

  lemma InsertedSorted(items: seq<Item>, x: Item, uids: seq<nat>, k: nat)
    requires SortedByIndex(items, uids) && x.uid in uids && k <= |items|
    requires forall j :: 0 <= j < k ==> IndexOf(uids, items[j].uid) < IndexOf(uids, x.uid)
    requires k < |items| ==> IndexOf(uids, items[k].uid) >= IndexOf(uids, x.uid)
    ensures SortedByIndex(items[..k] + [x] + items[k..], uids)
  {
    hide IndexOf;
    var out := items[..k] + [x] + items[k..];
    forall i | 0 <= i < |out| ensures out[i] == if i < k then items[i] else if i == k then x else items[i - 1] {}
    forall i, j | 0 <= i < j < |out| ensures IndexOf(uids, out[i].uid) <= IndexOf(uids, out[j].uid) {
      if i == k { assert IndexOf(uids, items[k].uid) <= IndexOf(uids, items[j - 1].uid); }
    }
  }

  /** The items, put in the order in which their UIDs were requested. */
  method SortItems(items: seq<Item>, uids: seq<nat>) returns (out: seq<Item>)
    requires forall it :: it in items ==> it.uid in uids
    ensures SortedByIndex(out, uids) && |out| == |items|
    ensures forall y :: y in out <==> y in items
  {
    out := [];
    for k := 0 to |items|
      invariant SortedByIndex(out, uids) && |out| == k
      invariant forall y :: y in out <==> y in items[..k]
    {
      hide SortedByIndex;
      assert items[..k + 1] == items[..k] + [items[k]];
      out := Insert(out, items[k], uids);
    }
    assert items[..|items|] == items;
  }

  /** A listing in request order: view and current flags of each message. */
  ghost predicate Lists(out: seq<Item>, b: Box, nodes: seq<Node>, mailbox: string, uids: seq<nat>) {
    && |out| == |uids|
    && forall i :: 0 <= i < |uids| ==>
         && uids[i] in b.msgs && out[i].uid == uids[i] && out[i].flags == b.msgs[uids[i]].flags
         && View(b, nodes, mailbox, uids[i]) == Some(out[i].header)
  }

  lemma {:induction false} AtLeast(items: seq<Item>, uids: seq<nat>, i: nat)
    requires SortedByIndex(items, uids) && NoRepeats(ItemUids(items)) && i < |items|
    ensures IndexOf(uids, items[i].uid) >= i
  {
    if i > 0 {
      AtLeast(items, uids, i - 1);
      assert ItemUids(items)[i - 1] != ItemUids(items)[i];
      assert uids[IndexOf(uids, items[i - 1].uid)] == items[i - 1].uid;
      assert uids[IndexOf(uids, items[i].uid)] == items[i].uid;
    }
  }

  lemma {:induction false} AtMost(items: seq<Item>, uids: seq<nat>, i: nat)
    requires SortedByIndex(items, uids) && NoRepeats(ItemUids(items)) && i < |items| == |uids|
    ensures IndexOf(uids, items[i].uid) <= i
    decreases |items| - i
  {
    if i < |items| - 1 {
      AtMost(items, uids, i + 1);
      assert ItemUids(items)[i] != ItemUids(items)[i + 1];
      assert uids[IndexOf(uids, items[i + 1].uid)] == items[i + 1].uid;
      assert uids[IndexOf(uids, items[i].uid)] == items[i].uid;
    }
  }

  lemma SameSize(a: seq<nat>, b: seq<nat>)
    requires NoRepeats(a) && NoRepeats(b) && forall u :: u in a <==> u in b
    ensures |a| == |b|
  {
    SetSize(a);
    SetSize(b);
    assert AsSet(a) == AsSet(b);
  }

  lemma StillDistinct(items: seq<Item>, out: seq<Item>)
    requires |out| == |items| && NoRepeats(ItemUids(items)) && forall y :: y in out <==> y in items
    ensures NoRepeats(ItemUids(out))
    ensures forall u :: u in ItemUids(out) <==> u in ItemUids(items)
  {
    SameUids(items, out);
    SameUids(out, items);
    assert AsSet(ItemUids(out)) == AsSet(ItemUids(items));
    SetSize(ItemUids(items));
    SetSize(ItemUids(out));
  }

  lemma SameUids(items: seq<Item>, out: seq<Item>)
    requires forall y :: y in items ==> y in out
    ensures forall u :: u in ItemUids(items) ==> u in ItemUids(out)
  {
    forall u | u in ItemUids(items) ensures u in ItemUids(out) {
      var i :| 0 <= i < |items| && ItemUids(items)[i] == u;
      assert items[i] in items;
      UidListed(out, items[i]);
    }
  }

  /** Sorting what a fetch shows gives the listing in request order. */
  lemma SortedShowsList(items: seq<Item>, out: seq<Item>, b: Box, nodes: seq<Node>, mailbox: string, uids: seq<nat>)
    requires Shows(items, b, nodes, mailbox, uids) && NoRepeats(uids)
    requires SortedByIndex(out, uids) && |out| == |items| && forall y :: y in out <==> y in items
    ensures Lists(out, b, nodes, mailbox, uids)
  {
    hide View; hide IndexOf;
    StillDistinct(items, out);
    ShownUids(items, b, nodes, mailbox, uids);
    SameSize(ItemUids(items), uids);
    hide Shows;
    forall i | 0 <= i < |uids|
      ensures uids[i] in b.msgs && out[i].uid == uids[i] && out[i].flags == b.msgs[uids[i]].flags
      ensures View(b, nodes, mailbox, uids[i]) == Some(out[i].header)
    {
      SamePlace(out, uids, i);
      assert out[i] in out && out[i] in items;
      ShownItem(items, b, nodes, mailbox, uids, out[i]);
    }
  }

  lemma SamePlace(out: seq<Item>, uids: seq<nat>, i: nat)
    requires SortedByIndex(out, uids) && NoRepeats(ItemUids(out)) && i < |out| == |uids|
    ensures out[i].uid == uids[i]
  {
    hide *;
    AskedFor(out, uids, i);
    AtLeast(out, uids, i);
    AtMost(out, uids, i);
    assert uids[IndexOf(uids, out[i].uid)] == out[i].uid;
  }

  lemma AskedFor(out: seq<Item>, uids: seq<nat>, i: nat)
    requires SortedByIndex(out, uids) && i < |out|
    ensures out[i].uid in uids
  {
    hide IndexOf;
  }

  lemma ShownItem(items: seq<Item>, b: Box, nodes: seq<Node>, mailbox: string, uids: seq<nat>, it: Item)
    requires Shows(items, b, nodes, mailbox, uids) && it in items
    ensures it.uid in b.msgs && View(b, nodes, mailbox, it.uid) == Some(it.header) && it.flags == b.msgs[it.uid].flags
  {
  }

  lemma ShownUids(items: seq<Item>, b: Box, nodes: seq<Node>, mailbox: string, uids: seq<nat>)
    requires Shows(items, b, nodes, mailbox, uids)
    ensures forall u :: u in uids <==> u in ItemUids(items)
  {
    hide View;
    forall u | u in ItemUids(items) ensures u in uids {
      var i :| 0 <= i < |items| && ItemUids(items)[i] == u;
      assert items[i] in items;
    }
  }

  // ----- The session: server and cache table -----

  class Session {
    var server: Server
    var nodes: seq<Node>
    const hasMove: bool

    constructor (server: Server, nodes: seq<Node>, hasMove: bool)
      ensures this.server == server && this.nodes == nodes && this.hasMove == hasMove
    {
      this.server, this.nodes, this.hasMove := server, nodes, hasMove;
    }

    method LoadFromCache(mailbox: string, uids: seq<nat>) returns (items: Option<seq<Item>>)
      requires mailbox in server
      ensures items == FromCache(CachedFor(nodes, mailbox, uids), server[mailbox])
    {
      var found := CachedFor(nodes, mailbox, uids);
      var loaded: seq<Item> := [];
      hide CachedFor;
      for k := 0 to |found|
        invariant FromCache(found[..k], server[mailbox]) == Some(loaded)
      {
        hide ReadRow; hide FromCache; hide FlagsOf;
        NextCached(found, k, server[mailbox]);
        var h := ReadRow(found[k].row);
        if h.None? {
          StaysNone(found, k + 1, server[mailbox]);
          return None;
        }
        loaded := loaded + [Item(found[k].uid, h.value, FlagsOf(server[mailbox], found[k].uid))];
      }
      assert found[..|found|] == found;
      items := Some(loaded);
    }

    /** The rows for the items that came from the server; nothing is stored when one of them raises. */
    method BuildNodes(mailbox: string, items: seq<Item>, rest: seq<nat>, ghost live: seq<Item>)
      returns (r: Option<seq<Node>>)
      requires |live| <= |items| && items[|items| - |live|..] == live
      requires forall i :: 0 <= i < |items| ==> (items[i].uid in rest <==> i >= |items| - |live|)
      ensures r == NewNodes(mailbox, live)
    {
      var built: seq<Node> := [];
      ghost var m := |items| - |live|;
      for k := 0 to |items|
        invariant NewNodes(mailbox, LiveAmong(live, k, m)) == Some(built)
      {
        hide WriteRow; hide NewNodes;
        if items[k].uid in rest {
          assert live[k - m] == items[k];
          NextNode(mailbox, live, k - m, built);
          var row := WriteRow(items[k].header);
          if row.None? {
            NewStaysNone(mailbox, live, k + 1 - m);
            return None;
          }
          built := built + [Node(mailbox, items[k].uid, row.value)];
        }
      }
      assert live[..|live|] == live;
      r := Some(built);
    }

    /** The loop that parses the answer of the server. */
    method Append(items: seq<Item>, msgs: seq<Item>) returns (r: seq<Item>)
      ensures r == items + msgs
    {
      r := items;
      for k := 0 to |msgs|
        invariant r == items + msgs[..k]
      {
        r := r + [msgs[k]];
      }
    }

    /** None when a row cannot be read or built. */
    method Fetch(uids: seq<nat>, mailbox: string, useCache: bool) returns (r: Option<seq<Item>>)
      requires mailbox in server
      modifies this`nodes
      ensures useCache ==> (r, nodes) == FetchSpec(server[mailbox], old(nodes), mailbox, uids)
      ensures !useCache ==> nodes == old(nodes)
      ensures !useCache ==> r == Some(if uids == [] then []
        else FromServer(server[mailbox], uids, server[mailbox].uidNext))
    {
      hide NewNodes; hide FromServer; hide FromCache; hide CachedFor; hide Missing; hide UidsOf;
      if |uids| == 0 { return Some([]); }
      if !useCache {
        var msgs := FromServer(server[mailbox], uids, server[mailbox].uidNext);
        var items := Append([], msgs);
        assert [] + msgs == msgs;
        return Some(items);
      }
      var cached := LoadFromCache(mailbox, uids);
      if cached.None? { return None; }
      var rest := Missing(uids, UidsOf(CachedFor(nodes, mailbox, uids)));
      if |rest| == 0 { return cached; }
      var msgs := FromServer(server[mailbox], rest, server[mailbox].uidNext);
      var items := Append(cached.value, msgs);
      FetchedSplit(server[mailbox], nodes, mailbox, uids, cached.value, msgs);
      var built := BuildNodes(mailbox, items, rest, msgs);
      if built.None? { return None; }
      nodes := nodes + built.value;
      r := Some(items);
    }

    /** find: the given UIDs are the answer of a search or sort just made. */
    method Find(select: string, uids: seq<nat>) returns (r: Option<seq<Item>>)
      requires ServerOk(server) && CacheOk(server, nodes) && select in server
      requires NoRepeats(uids) && forall u :: u in uids ==> u in server[select].msgs
      modifies this`nodes
      ensures CacheOk(server, nodes)
      ensures r.Some? <==> forall u :: u in uids ==> Showable(server[select], old(nodes), select, u)
      ensures r.Some? ==> Lists(r.value, server[select], old(nodes), select, uids)
    {
      hide *;
      var items := Fetch(uids, select, true);
      FetchResult(server, old(nodes), select, uids);
      if items.None? { return None; }
      ShownWithin(items.value, server[select], old(nodes), select, uids);
      var out := SortItems(items.value, uids);
      SortedShowsList(items.value, out, server[select], old(nodes), select, uids);
      r := Some(out);
    }

    method MoveMails(box: string, dst: string, uids: seq<nat>) returns (num: nat)
      requires box in server && dst in server
      modifies this
      ensures (server, num) == MoveAll(old(server), hasMove, box, dst, uids)
      ensures nodes == DeleteNodes(old(nodes), box, uids)
    {
      nodes := DeleteNodes(nodes, box, uids);
      if box == dst || |uids| == 0 { return 0; }
      if hasMove {
        server := UidMove(server, box, dst, AsSet(uids));
        return |uids|;
      }
      server := UidCopy(server, box, dst, AsSet(uids));
      num := |Selected(server[box], AsSet(uids))|;
      server := UidStore(server, box, AsSet(uids), {Deleted}, {});
      server := MailServer.Expunge(server, box);
    }

    method DeleteMails(box: string, uids: seq<nat>) returns (num: nat)
      requires box in server
      modifies this
      ensures (server, num) == DeleteAll(old(server), box, uids)
      ensures nodes == DeleteNodes(old(nodes), box, uids)
    {
      nodes := DeleteNodes(nodes, box, uids);
      if |uids| == 0 { return 0; }
      num := |Selected(server[box], AsSet(uids))|;
      server := UidStore(server, box, AsSet(uids), {Deleted}, {});
      server := MailServer.Expunge(server, box);
    }

    method TrashMails(box: string, inTrash: bool, trash: string, uids: seq<nat>) returns (num: nat)
      requires box in server && trash in server
      modifies this
      ensures (server, num) == TrashAll(old(server), hasMove, box, inTrash, trash, uids)
      ensures nodes == DeleteNodes(old(nodes), box, uids)
    {
      if inTrash { num := DeleteMails(box, uids); } else { num := MoveMails(box, trash, uids); }
    }

    /** empty_mails; `uids` is the answer of the UNDELETED search. It empties the mailbox unless
        every message in it was already flagged deleted. */
    method EmptyMails(box: string, uids: seq<nat>) returns (num: nat)
      requires box in server && forall u :: u in uids <==> u in server[box].msgs && u !in DeletedUids(server[box])
      modifies this
      ensures server.Keys == old(server).Keys && forall y :: y in server && y != box ==> server[y] == old(server)[y]
      ensures uids != [] ==> server[box].msgs == map[]
      ensures uids == [] ==> server == old(server)
      ensures num == |Selected(old(server)[box], AsSet(uids))|
      ensures nodes == DeleteNodes(old(nodes), box, uids)
    {
      StoreExpungeIs(server, box, AsSet(uids));
      num := DeleteMails(box, uids);
      if |uids| == 0 { assert Selected(server[box], AsSet(uids)) == map[]; }
    }
  }

  lemma NextCached(ns: seq<Node>, k: nat, b: Box)
    requires k < |ns| && FromCache(ns[..k], b).Some?
    ensures var h := ReadRow(ns[k].row);
      FromCache(ns[..k + 1], b) ==
      if h.None? then None else Some(FromCache(ns[..k], b).value + [Item(ns[k].uid, h.value, FlagsOf(b, ns[k].uid))])
  {
    hide ReadRow;
    assert ns[..k + 1][..k] == ns[..k];
  }

  lemma {:induction false} StaysNone(ns: seq<Node>, k: nat, b: Box)
    requires k <= |ns| && FromCache(ns[..k], b).None?
    ensures FromCache(ns, b).None?
    decreases |ns| - k
  {
    if k < |ns| {
      assert ns[..k + 1][..k] == ns[..k];
      StaysNone(ns, k + 1, b);
    } else {
      assert ns[..k] == ns;
    }
  }

  /** The live items among the first k, the first m being cached. */
  ghost function LiveAmong(live: seq<Item>, k: nat, m: nat): seq<Item> {
    if k < m then [] else if k - m > |live| then live else live[..k - m]
  }

  lemma NextNode(mailbox: string, live: seq<Item>, j: nat, built: seq<Node>)
    requires j < |live| && NewNodes(mailbox, live[..j]) == Some(built)
    ensures var row := WriteRow(live[j].header);
      NewNodes(mailbox, live[..j + 1]) == if row.None? then None
        else Some(built + [Node(mailbox, live[j].uid, row.value)])
  {
    hide WriteRow;
    assert live[..j + 1][..j] == live[..j];
  }

  lemma {:induction false} NewStaysNone(mailbox: string, items: seq<Item>, k: nat)
    requires k <= |items| && NewNodes(mailbox, items[..k]).None?
    ensures NewNodes(mailbox, items).None?
    decreases |items| - k
  {
    if k < |items| {
      assert items[..k + 1][..k] == items[..k];
      NewStaysNone(mailbox, items, k + 1);
    } else {
      assert items[..k] == items;
    }
  }

  /** Fetched items are the ones whose UID was missing from the cache. */
  lemma FetchedSplit(b: Box, nodes: seq<Node>, mailbox: string, uids: seq<nat>, cached: seq<Item>, live: seq<Item>)
    requires FromCache(CachedFor(nodes, mailbox, uids), b) == Some(cached)
    requires live == FromServer(b, Missing(uids, UidsOf(CachedFor(nodes, mailbox, uids))), b.uidNext)
    ensures var items, rest := cached + live, Missing(uids, UidsOf(CachedFor(nodes, mailbox, uids)));
      && items[|items| - |live|..] == live
      && forall i :: 0 <= i < |items| ==> (items[i].uid in rest <==> i >= |items| - |live|)
  {
    hide ReadRow; hide FromCache; hide CachedFor;
    var found := CachedFor(nodes, mailbox, uids);
    FromCacheIs(found, b);
    FromServerIs(b, Missing(uids, UidsOf(found)), b.uidNext);
    forall i | 0 <= i < |cached| ensures cached[i].uid in UidsOf(found) { assert found[i] in found; }
    forall i | 0 <= i < |live| ensures live[i].uid in Missing(uids, UidsOf(found)) { assert live[i] in live; }
  }

  // ----- What a fetch leaves -----

  lemma {:induction false} NothingWanted(b: Box, n: nat)
    ensures FromServer(b, [], n) == []
  {
    if n > 0 { NothingWanted(b, n - 1); }
  }

  lemma {:induction false} NothingAsked(nodes: seq<Node>, mailbox: string)
    ensures CachedFor(nodes, mailbox, []) == []
  {
    if nodes != [] { NothingAsked(nodes[..|nodes| - 1], mailbox); }
  }

  /** The three early returns are instances of one formula. */
  lemma FetchForm(b: Box, nodes: seq<Node>, mailbox: string, uids: seq<nat>)
    ensures var found := CachedFor(nodes, mailbox, uids);
      var cached := FromCache(found, b);
      var live := FromServer(b, Missing(uids, UidsOf(found)), b.uidNext);
      var rows := NewNodes(mailbox, live);
      FetchSpec(b, nodes, mailbox, uids) ==
        if cached.None? || rows.None? then (None, nodes) else (Some(cached.value + live), nodes + rows.value)
  {
    NothingWanted(b, b.uidNext);
    assert NewNodes(mailbox, []) == Some([]);
    NothingAsked(nodes, mailbox);
    assert FromCache([], b) == Some([]) && Missing([], UidsOf([])) == [];
    var cached := FromCache(CachedFor(nodes, mailbox, uids), b);
    if cached.Some? { assert cached.value + [] == cached.value; }
    assert nodes + [] == nodes;
    hide CachedFor; hide FromServer; hide ReadRow; hide WriteRow;
  }

  lemma NewRows(s: Server, nodes: seq<Node>, mailbox: string, uids: seq<nat>, live: seq<Item>)
    requires CacheOk(s, nodes) && ServerOk(s) && mailbox in s
    requires live == FromServer(s[mailbox], Missing(uids, UidsOf(CachedFor(nodes, mailbox, uids))), s[mailbox].uidNext)
    requires NewNodes(mailbox, live).Some?
    ensures CacheOk(s, nodes + NewNodes(mailbox, live).value)
  {
    hide WriteRow; hide CachedFor; hide FromServer; hide NewNodes;
    var b, rest := s[mailbox], Missing(uids, UidsOf(CachedFor(nodes, mailbox, uids)));
    FromServerIs(b, rest, b.uidNext);
    NewNodesIs(mailbox, live);
    var rows := NewNodes(mailbox, live).value;
    forall k | 0 <= k < |rows|
      ensures rows[k].mailbox == mailbox && rows[k].uid == live[k].uid && NodeOk(s, rows[k])
      ensures !IsCached(nodes, mailbox, rows[k].uid)
    {
      assert live[k] in live;
      IsCachedIff(nodes, mailbox, uids, live[k].uid);
    }
    var all := nodes + rows;
    forall i, j | 0 <= i < j < |all| ensures all[i].mailbox != all[j].mailbox || all[i].uid != all[j].uid {
      if i < |nodes| <= j {
        assert nodes[i] in nodes && !IsCached(nodes, mailbox, rows[j - |nodes|].uid);
      }
    }
    forall n | n in all ensures NodeOk(s, n) {
      if n !in nodes { var k :| 0 <= k < |rows| && rows[k] == n; }
    }
  }

  /** A fetch keeps the cache sound, and raises exactly when a requested header cannot be shown. */
  lemma FetchResult(s: Server, nodes: seq<Node>, mailbox: string, uids: seq<nat>)
    requires CacheOk(s, nodes) && ServerOk(s) && mailbox in s && forall u :: u in uids ==> u in s[mailbox].msgs
    ensures var (r, after) := FetchSpec(s[mailbox], nodes, mailbox, uids);
      && CacheOk(s, after)
      && (r.Some? <==> forall u :: u in uids ==> Showable(s[mailbox], nodes, mailbox, u))
      && (r.Some? ==> Shows(r.value, s[mailbox], nodes, mailbox, uids))
  {
    FetchForm(s[mailbox], nodes, mailbox, uids);
    CachedViews(s, nodes, mailbox, uids);
    LiveViews(s, nodes, mailbox, uids);
    var found := CachedFor(nodes, mailbox, uids);
    var cached := FromCache(found, s[mailbox]);
    var live := FromServer(s[mailbox], Missing(uids, UidsOf(found)), s[mailbox].uidNext);
    hide CachedFor; hide FromCache; hide FromServer; hide NewNodes; hide View; hide CacheOk; hide ServerOk;
    hide FetchSpec; hide Shows; hide Missing;
    hide Showable; hide ShownAsSent;
    forall u | u in uids ensures View(s[mailbox], nodes, mailbox, u).Some? <==>
      Showable(s[mailbox], nodes, mailbox, u) {
      ViewIsHeader(s[mailbox], nodes, mailbox, u);
    }
    if cached.Some? && NewNodes(mailbox, live).Some? {
      FetchShows(s, nodes, mailbox, uids, cached.value, live);
      NewRows(s, nodes, mailbox, uids, live);
    }
  }

  lemma ShownWithin(items: seq<Item>, b: Box, nodes: seq<Node>, mailbox: string, uids: seq<nat>)
    requires Shows(items, b, nodes, mailbox, uids)
    ensures forall it :: it in items ==> it.uid in uids
  {
  }

  /** The server's own answer, in request order. */
  function Direct(b: Box, uids: seq<nat>): (r: seq<Item>)
    requires forall u :: u in uids ==> u in b.msgs
    ensures |r| == |uids|
    ensures forall i :: 0 <= i < |uids| ==> r[i] == Item(uids[i], b.msgs[uids[i]].header, b.msgs[uids[i]].flags)
  {
    if uids == [] then []
    else
      Direct(b, uids[..|uids| - 1]) +
      [Item(uids[|uids| - 1], b.msgs[uids[|uids| - 1]].header, b.msgs[uids[|uids| - 1]].flags)]
  }

  /** A listing through the cache is the server's own answer exactly when every cached header in it
      is clean and every reference in the others names a character. */
  lemma ListingIsDirect(b: Box, nodes: seq<Node>, mailbox: string, uids: seq<nat>, r: Option<seq<Item>>)
    requires forall u :: u in uids ==> u in b.msgs
    requires r.Some? <==> forall u :: u in uids ==> Showable(b, nodes, mailbox, u)
    requires r.Some? ==> Lists(r.value, b, nodes, mailbox, uids)
    ensures r == Some(Direct(b, uids)) <==> forall u :: u in uids ==> ShownAsSent(b, nodes, mailbox, u)
  {
    hide View; hide Showable; hide ShownAsSent;
    forall u | u in uids
      ensures View(b, nodes, mailbox, u) == Some(b.msgs[u].header) <==> ShownAsSent(b, nodes, mailbox, u)
      ensures View(b, nodes, mailbox, u).Some? <==> Showable(b, nodes, mailbox, u)
    {
      ViewIsHeader(b, nodes, mailbox, u);
    }
    if r == Some(Direct(b, uids)) {
      forall u | u in uids ensures View(b, nodes, mailbox, u) == Some(b.msgs[u].header) {
        var i := IndexOf(uids, u);
        assert r.value[i] == Direct(b, uids)[i];
      }
    }
    if forall u :: u in uids ==> View(b, nodes, mailbox, u) == Some(b.msgs[u].header) {
      assert r.Some?;
      forall i | 0 <= i < |uids| ensures r.value[i] == Direct(b, uids)[i] {
        assert uids[i] in uids;
      }
      assert r.value == Direct(b, uids);
    }
  }

  /** A mailbox whose only message somebody else had flagged deleted is left alone, for there is nothing undeleted. */
  lemma FlaggedMailStays(m: Message)
    requires Deleted in m.flags
    ensures var s := map["Trash" := Box(2, map[1 := m])];
      && (forall u :: u in s["Trash"].msgs ==> u in DeletedUids(s["Trash"]))
      && DeleteAll(s, "Trash", []) == (s, 0) && 1 in s["Trash"].msgs
  {
  }

  /** A mailbox whose only message has a subject spelling the reference of an emoji. */
  function SpelledBox(): Box {
    Box(2, map[1 := Message(Spelled(), {})])
  }

  /** The first fetch shows that subject as sent and caches it; the second shows the emoji. */
  lemma SpelledReferenceChanges()
    ensures WriteRow(Spelled()).Some?
    ensures var nodes := [Node("INBOX", 1, WriteRow(Spelled()).value)];
      && FetchSpec(SpelledBox(), [], "INBOX", [1]) == (Some([Item(1, Spelled(), {})]), nodes)
      && var (again, after) := FetchSpec(SpelledBox(), nodes, "INBOX", [1]);
      && after == nodes && again.Some? && |again.value| == 1 && again.value[0].header.subject == [128512 as char]
  {
    SpelledRow();
    hide WriteRow; hide ReadRow; hide Spelled;
    FirstFetch();
    SecondFetch(WriteRow(Spelled()).value);
  }

  lemma FirstFetch()
    requires WriteRow(Spelled()).Some?
    ensures FetchSpec(SpelledBox(), [], "INBOX", [1])
         == (Some([Item(1, Spelled(), {})]), [Node("INBOX", 1, WriteRow(Spelled()).value)])
  {
    assert SpelledBox().msgs[1] == Message(Spelled(), {}) && SpelledBox().uidNext == 2;
    hide *;
    OneMissing([]);
    OneOnServer(SpelledBox(), 1);
    OneStored("INBOX", Item(1, Spelled(), {}));
    FetchesOne(SpelledBox(), "INBOX", 1, Item(1, Spelled(), {}), WriteRow(Spelled()).value);
  }

  lemma OneStored(mailbox: string, it: Item)
    requires WriteRow(it.header).Some?
    ensures NewNodes(mailbox, [it]) == Some([Node(mailbox, it.uid, WriteRow(it.header).value)])
  {
    NewNodesIs(mailbox, [it]);
    hide WriteRow; hide NewNodes;
    assert [it][0] in [it];
    assert NewNodes(mailbox, [it]).value == [Node(mailbox, it.uid, WriteRow(it.header).value)];
  }

  /** A fetch of one message with nothing cached. */
  lemma FetchesOne(b: Box, mailbox: string, u: nat, it: Item, row: Row)
    requires Missing([u], UidsOf([])) == [u] && FromServer(b, [u], b.uidNext) == [it]
    requires NewNodes(mailbox, [it]) == Some([Node(mailbox, u, row)])
    ensures FetchSpec(b, [], mailbox, [u]) == (Some([it]), [Node(mailbox, u, row)])
  {
    hide Missing; hide FromServer; hide NewNodes;
    assert CachedFor([], mailbox, [u]) == [] && FromCache([], b) == Some([]);
    assert [] + [it] == [it] && [] + [Node(mailbox, u, row)] == [Node(mailbox, u, row)];
  }

  lemma OneOnServer(b: Box, u: nat)
    requires b.msgs.Keys == {u}
    ensures FromServer(b, [u], u + 1) == [Item(u, b.msgs[u].header, b.msgs[u].flags)]
  {
    FromServerNone(b, [u], u);
  }

  lemma {:induction false} FromServerNone(b: Box, want: seq<nat>, n: nat)
    requires forall i :: i < n ==> i !in b.msgs
    ensures FromServer(b, want, n) == []
  {
    if n > 0 { FromServerNone(b, want, n - 1); }
  }

  lemma SecondFetch(row: Row)
    requires ReadRow(row).Some?
    ensures FetchSpec(SpelledBox(), [Node("INBOX", 1, row)], "INBOX", [1])
         == (Some([Item(1, ReadRow(row).value, {})]), [Node("INBOX", 1, row)])
  {
    var b, n := SpelledBox(), Node("INBOX", 1, row);
    assert FlagsOf(b, 1) == {};
    OneCached(n, [1]);
    OneMissing([n]);
    FromCacheIs([n], b);
    assert [n][0] in [n];
    hide WriteRow; hide ReadRow; hide Spelled; hide FromServer; hide Missing; hide FromCache; hide CachedFor;
    hide FlagsOf;
    assert FromCache([n], b).value == [Item(1, ReadRow(row).value, {})];
  }

  lemma OneCached(n: Node, uids: seq<nat>)
    requires n.uid in uids
    ensures CachedFor([n], n.mailbox, uids) == [n]
  {
    assert [n][..0] == [];
    assert CachedFor([], n.mailbox, uids) == [];
  }

  lemma OneMissing(found: seq<Node>)
    ensures Missing([1], UidsOf(found)) == if 1 in UidsOf(found) then [] else [1]
    ensures 1 !in UidsOf([])
  {
    assert [1][..0] == [];
    assert Missing([], UidsOf(found)) == [];
  }
}
