/** The header cache, and the fetch that mixes it with the server. */
module HeaderCache {
  import opened CacheTable
  import opened Collections
  import opened MailServer
  import opened MailboxNames
  import opened Utf8mb4
  import opened Wrappers

  /** A mail as a listing sees it. */
  datatype Item = Item(uid: nat, header: Header, flags: set<Flag>)

  function WriteList(xs: seq<string>): Option<string> {
    WriteColumn(Join(xs, '\n'))
  }

  function ReadList(c: string): Option<seq<string>> {
    var s := ReadColumn(c);
    if s.None? then None else Some(Split(s.value, '\n'))
  }

  /** Building and storing a row; None when a character reference raises. */
  function WriteRow(h: Header): Option<Row> {
    var f, t, c, b, s := WriteColumn(h.from), WriteList(h.to), WriteList(h.cc), WriteList(h.bcc),
      WriteColumn(h.subject);
    if f.None? || t.None? || c.None? || b.None? || s.None? then None
    else Some(Row(f.value, t.value, c.value, b.value, s.value, h.rest))
  }

  function ReadRow(r: Row): Option<Header> {
    var f, t, c, b, s := ReadColumn(r.from), ReadList(r.to), ReadList(r.cc), ReadList(r.bcc), ReadColumn(r.subject);
    if f.None? || t.None? || c.None? || b.None? || s.None? then None
    else Some(Header(f.value, t.value, c.value, b.value, s.value, r.rest))
  }

  // ----- Which headers survive the cache -----

  /** No newline inside an address, and the last one is not empty. */
  predicate CleanLines(xs: seq<string>) {
    (forall i :: 0 <= i < |xs| ==> '\n' !in xs[i]) && (xs != [] ==> xs[|xs| - 1] != "")
  }

  predicate CleanList(xs: seq<string>) {
    !HasEntity(Join(xs, '\n')) && CleanLines(xs)
  }

  predicate Clean(h: Header) {
    !HasEntity(h.from) && CleanList(h.to) && CleanList(h.cc) && CleanList(h.bcc) && !HasEntity(h.subject)
  }

  /** Every reference in a column names a character. */
  ghost predicate Storable(h: Header) {
    && NamesCharacters(h.from) && NamesCharacters(Join(h.to, '\n')) && NamesCharacters(Join(h.cc, '\n'))
    && NamesCharacters(Join(h.bcc, '\n')) && NamesCharacters(h.subject)
  }

  /** And every reference that parsing a column makes. */
  ghost predicate Readable(h: Header) {
    && NamesCharactersTwice(h.from) && NamesCharactersTwice(Join(h.to, '\n')) && NamesCharactersTwice(Join(h.cc, '\n'))
    && NamesCharactersTwice(Join(h.bcc, '\n')) && NamesCharactersTwice(h.subject)
  }

  lemma {:induction false} SplitJoin(xs: seq<string>, d: char)
    requires xs != [] && forall i :: 0 <= i < |xs| ==> d !in xs[i]
    ensures SplitAll(Join(xs, d), d) == xs
  {
    Indivisible(xs[0], d);
    if |xs| > 1 {
      SplitJoin(xs[1..], d);
      SplitConcat(xs[0], Join(xs[1..], d), d);
    }
  }

  lemma {:induction false} DropShortens(xs: seq<string>, d: char)
    ensures |Join(DropTrailingEmpty(xs), d)| <= |Join(xs, d)|
    ensures |DropTrailingEmpty(xs)| <= |xs|
    ensures forall i :: 0 <= i < |DropTrailingEmpty(xs)| ==> DropTrailingEmpty(xs)[i] == xs[i]
  {
    if xs != [] && xs[|xs| - 1] == "" {
      var init := xs[..|xs| - 1];
      DropShortens(init, d);
      if init != [] {
        assert xs == init + [""];
        JoinConcat(init, [""], d);
      }
    }
  }

  /** Splitting what was joined gives the list back exactly when it is clean. */
  lemma LinesRoundTrip(xs: seq<string>)
    ensures Split(Join(xs, '\n'), '\n') == xs <==> CleanLines(xs)
  {
    var s := Join(xs, '\n');
    var all := SplitAll(s, '\n');
    if forall i :: 0 <= i < |xs| ==> '\n' !in xs[i] {
      if xs != [] {
        SplitJoin(xs, '\n');
        if xs[|xs| - 1] == "" { DropShortens(xs[..|xs| - 1], '\n'); }
      }
    } else {
      DropShortens(all, '\n');
      forall i | 0 <= i < |all| ensures '\n' !in all[i] { PieceHasNoDelim(s, i, '\n'); }
    }
  }

  lemma SplitShortens(s: string)
    ensures |Join(Split(s, '\n'), '\n')| <= |s|
  {
    DropShortens(SplitAll(s, '\n'), '\n');
    JoinSplit(s, '\n');
  }

  lemma ListRoundTrip(xs: seq<string>)
    ensures WriteList(xs).Some? && ReadList(WriteList(xs).value) == Some(xs) <==> CleanList(xs)
  {
    var s := Join(xs, '\n');
    ColumnRoundTrip(s);
    LinesRoundTrip(xs);
    if HasEntity(s) && WriteColumn(s).Some? && ReadColumn(WriteColumn(s).value).Some? {
      SplitShortens(ReadColumn(WriteColumn(s).value).value);
    }
  }

  /** A cached mail shows the header it was stored from exactly when the header is clean. */
  lemma RowRoundTrip(h: Header)
    ensures WriteRow(h).Some? && ReadRow(WriteRow(h).value) == Some(h) <==> Clean(h)
  {
    hide WriteColumn; hide ReadColumn; hide HasEntity; hide CleanLines; hide Join; hide Split;
    ColumnRoundTrip(h.from);
    ListRoundTrip(h.to);
    ListRoundTrip(h.cc);
    ListRoundTrip(h.bcc);
    ColumnRoundTrip(h.subject);
  }

  /** Storing a header raises exactly when it is not storable, and reading it back when it is not readable. */
  lemma RowRaises(h: Header)
    ensures WriteRow(h).Some? <==> Storable(h)
    ensures WriteRow(h).Some? && ReadRow(WriteRow(h).value).Some? <==> Readable(h)
  {
    hide WriteColumn; hide ReadColumn; hide NamesCharacters; hide NamesCharactersTwice; hide Join; hide Split;
    ColumnRaises(h.from);
    ColumnRaises(Join(h.to, '\n'));
    ColumnRaises(Join(h.cc, '\n'));
    ColumnRaises(Join(h.bcc, '\n'));
    ColumnRaises(h.subject);
  }

  /** A header whose subject spells the reference of an emoji. */
  function Spelled(): Header {
    Header("", [], [], [], "&#128512;", "")
  }

  /** It can be stored, and its subject is read back as the emoji. */
  lemma SpelledRow()
    ensures WriteRow(Spelled()).Some? && ReadRow(WriteRow(Spelled()).value).Some?
    ensures ReadRow(WriteRow(Spelled()).value).value.subject == [128512 as char]
  {
    BlankIsPlain("");
    SpelledEmoji();
    hide WriteColumn; hide ReadColumn; hide Split;
    PlainColumn();
  }

  lemma PlainColumn()
    ensures WriteColumn("").Some? && ReadColumn(WriteColumn("").value) == Some("")
  {
  }

  // ----- fetch -----

  /** The rows found for a request, in table order. */
  function CachedFor(nodes: seq<Node>, mailbox: string, uids: seq<nat>): (r: seq<Node>)
    ensures forall n :: n in r <==> n in nodes && n.mailbox == mailbox && n.uid in uids
  {
    if nodes == [] then []
    else
      var last := nodes[|nodes| - 1];
      assert nodes == nodes[..|nodes| - 1] + [last];
      CachedFor(nodes[..|nodes| - 1], mailbox, uids) + if last.mailbox == mailbox && last.uid in uids then [last]
        else []
  }

  function FlagsOf(b: Box, uid: nat): set<Flag> {
    if uid in b.msgs then b.msgs[uid].flags else {}
  }

  /** load_from_cache; None when reading a row raises. */
  function FromCache(ns: seq<Node>, b: Box): Option<seq<Item>> {
    if ns == [] then Some([])
    else
      var init, h := FromCache(ns[..|ns| - 1], b), ReadRow(ns[|ns| - 1].row);
      if init.None? || h.None? then None
      else Some(init.value + [Item(ns[|ns| - 1].uid, h.value, FlagsOf(b, ns[|ns| - 1].uid))])
  }

  function UidsOf(ns: seq<Node>): set<nat> {
    set n | n in ns :: n.uid
  }

  /** The requested UIDs that no cached row answered. */
  function Missing(uids: seq<nat>, have: set<nat>): (r: seq<nat>)
    ensures forall u :: u in r <==> u in uids && u !in have
  {
    if uids == [] then []
    else
      var last := uids[|uids| - 1];
      assert uids == uids[..|uids| - 1] + [last];
      Missing(uids[..|uids| - 1], have) + if last in have then [] else [last]
  }

  /** UID FETCH: the messages that exist, in UID order. */
  function FromServer(b: Box, want: seq<nat>, n: nat): seq<Item> {
    if n == 0 then []
    else FromServer(b, want, n - 1) +
         if n - 1 in b.msgs && n - 1 in want then [Item(n - 1, b.msgs[n - 1].header, b.msgs[n - 1].flags)] else []
  }

  /** The rows for freshly fetched items; None when building one raises. */
  function NewNodes(mailbox: string, items: seq<Item>): Option<seq<Node>> {
    if items == [] then Some([])
    else
      var init, row := NewNodes(mailbox, items[..|items| - 1]), WriteRow(items[|items| - 1].header);
      if init.None? || row.None? then None
      else Some(init.value + [Node(mailbox, items[|items| - 1].uid, row.value)])
  }

  /** Items shown and table afterwards. */
  function FetchSpec(b: Box, nodes: seq<Node>, mailbox: string, uids: seq<nat>): (Option<seq<Item>>, seq<Node>) {
    if uids == [] then (Some([]), nodes)
    else
      var found := CachedFor(nodes, mailbox, uids);
      var cached := FromCache(found, b);
      var rest := Missing(uids, UidsOf(found));
      if cached.None? then (None, nodes)
      else if rest == [] then (cached, nodes)
      else
        var live := FromServer(b, rest, b.uidNext);
        var built := NewNodes(mailbox, live);
        if built.None? then (None, nodes) else (Some(cached.value + live), nodes + built.value)
  }

  // ----- What the cache must satisfy -----

  /** Rows are unique, with a positive UID, and, where the server has the mailbox, below UIDNEXT and what their
      message's header is stored as. */
  ghost predicate CacheOk(s: Server, nodes: seq<Node>) {
    && (forall i, j :: 0 <= i < j < |nodes| ==> nodes[i].mailbox != nodes[j].mailbox || nodes[i].uid != nodes[j].uid)
    && (forall n :: n in nodes ==> NodeOk(s, n))
  }

  ghost predicate NodeOk(s: Server, n: Node) {
    && n.uid >= 1
    && (n.mailbox in s ==>
      && n.uid < s[n.mailbox].uidNext
      && (n.uid in s[n.mailbox].msgs ==> WriteRow(s[n.mailbox].msgs[n.uid].header) == Some(n.row)))
  }

  ghost predicate IsCached(nodes: seq<Node>, mailbox: string, uid: nat) {
    exists n :: n in nodes && n.mailbox == mailbox && n.uid == uid
  }

  /** The header a listing shows for an existing message; None when showing it raises. */
  ghost function View(b: Box, nodes: seq<Node>, mailbox: string, uid: nat): Option<Header>
    requires uid in b.msgs
  {
    var row := WriteRow(b.msgs[uid].header);
    if row.None? then None
    else if IsCached(nodes, mailbox, uid) then ReadRow(row.value)
    else Some(b.msgs[uid].header)
  }

  /** Showing the message does not raise. */
  ghost predicate Showable(b: Box, nodes: seq<Node>, mailbox: string, uid: nat)
    requires uid in b.msgs
  {
    if IsCached(nodes, mailbox, uid) then Readable(b.msgs[uid].header) else Storable(b.msgs[uid].header)
  }

  /** The header is shown as it is. */
  ghost predicate ShownAsSent(b: Box, nodes: seq<Node>, mailbox: string, uid: nat)
    requires uid in b.msgs
  {
    if IsCached(nodes, mailbox, uid) then Clean(b.msgs[uid].header) else Storable(b.msgs[uid].header)
  }

  /** The view is the server's own header exactly when the header is storable and, once cached, clean;
      it raises exactly when a reference, once cached also one that parsing makes, names no character. */
  lemma ViewIsHeader(b: Box, nodes: seq<Node>, mailbox: string, uid: nat)
    requires uid in b.msgs
    ensures View(b, nodes, mailbox, uid).Some? <==> Showable(b, nodes, mailbox, uid)
    ensures View(b, nodes, mailbox, uid) == Some(b.msgs[uid].header) <==> ShownAsSent(b, nodes, mailbox, uid)
  {
    hide WriteRow; hide ReadRow; hide Clean; hide Storable; hide Readable;
    RowRoundTrip(b.msgs[uid].header);
    RowRaises(b.msgs[uid].header);
  }

  // ----- What a fetch shows -----

  function ItemUids(items: seq<Item>): (r: seq<nat>)
    ensures |r| == |items| && forall i :: 0 <= i < |items| ==> r[i] == items[i].uid
  {
    if items == [] then [] else ItemUids(items[..|items| - 1]) + [items[|items| - 1].uid]
  }

  /** Each requested message once, with its view and its current flags. */
  ghost predicate Shows(items: seq<Item>, b: Box, nodes: seq<Node>, mailbox: string, uids: seq<nat>) {
    && NoRepeats(ItemUids(items))
    && (forall it :: it in items ==>
          it.uid in uids && it.uid in b.msgs && View(b, nodes, mailbox, it.uid) == Some(it.header)
            && it.flags == b.msgs[it.uid].flags)
    && (forall u :: u in uids ==> u in ItemUids(items))
  }

  lemma {:induction false} FromCacheIs(ns: seq<Node>, b: Box)
    ensures FromCache(ns, b).Some? <==> forall n :: n in ns ==> ReadRow(n.row).Some?
    ensures FromCache(ns, b).Some? ==>
      var r := FromCache(ns, b).value;
      |r| == |ns| && forall i :: 0 <= i < |ns| ==>
        ReadRow(ns[i].row).Some? && r[i] == Item(ns[i].uid, ReadRow(ns[i].row).value, FlagsOf(b, ns[i].uid))
  {
    hide ReadRow;
    if ns != [] {
      FromCacheIs(ns[..|ns| - 1], b);
      assert ns == ns[..|ns| - 1] + [ns[|ns| - 1]];
    }
  }

  lemma {:induction false} NewNodesIs(mailbox: string, items: seq<Item>)
    ensures NewNodes(mailbox, items).Some? <==> forall it :: it in items ==> WriteRow(it.header).Some?
    ensures NewNodes(mailbox, items).Some? ==>
      var r := NewNodes(mailbox, items).value;
      |r| == |items| && forall i :: 0 <= i < |items| ==>
        WriteRow(items[i].header).Some? && r[i] == Node(mailbox, items[i].uid, WriteRow(items[i].header).value)
  {
    hide WriteRow;
    if items != [] {
      NewNodesIs(mailbox, items[..|items| - 1]);
      assert items == items[..|items| - 1] + [items[|items| - 1]];
    }
  }

  lemma {:induction false} FromServerItems(b: Box, want: seq<nat>, n: nat)
    ensures forall it :: it in FromServer(b, want, n) ==>
      it.uid < n && it.uid in want && it.uid in b.msgs
        && it == Item(it.uid, b.msgs[it.uid].header, b.msgs[it.uid].flags)
  {
    if n > 0 { FromServerItems(b, want, n - 1); }
  }

  ghost predicate Ascending(items: seq<Item>) {
    forall i, j :: 0 <= i < j < |items| ==> items[i].uid < items[j].uid
  }

  ghost predicate DistinctNodes(ns: seq<Node>) {
    forall i, j :: 0 <= i < j < |ns| ==> ns[i].uid != ns[j].uid
  }

  lemma {:induction false} FromServerAscends(b: Box, want: seq<nat>, n: nat)
    ensures Ascending(FromServer(b, want, n))
  {
    if n > 0 {
      FromServerAscends(b, want, n - 1);
      FromServerItems(b, want, n - 1);
      var init := FromServer(b, want, n - 1);
      forall i | 0 <= i < |init| ensures init[i].uid < n - 1 { assert init[i] in init; }
    }
  }

  lemma {:induction false} FromServerHas(b: Box, want: seq<nat>, n: nat, u: nat)
    requires u in want && u in b.msgs && u < n
    ensures Item(u, b.msgs[u].header, b.msgs[u].flags) in FromServer(b, want, n)
  {
    if u < n - 1 { FromServerHas(b, want, n - 1, u); }
  }

  lemma UidListed(items: seq<Item>, it: Item)
    requires it in items
    ensures it.uid in ItemUids(items)
  {
    var i :| 0 <= i < |items| && items[i] == it;
    assert ItemUids(items)[i] == it.uid;
  }

  lemma FromServerIs(b: Box, want: seq<nat>, n: nat)
    ensures Ascending(FromServer(b, want, n))
    ensures forall it :: it in FromServer(b, want, n) ==>
      it.uid < n && it.uid in want && it.uid in b.msgs
        && it == Item(it.uid, b.msgs[it.uid].header, b.msgs[it.uid].flags)
    ensures forall u :: u in want && u in b.msgs && u < n ==> u in ItemUids(FromServer(b, want, n))
  {
    hide FromServer; hide ItemUids;
    FromServerItems(b, want, n);
    FromServerAscends(b, want, n);
    forall u | u in want && u in b.msgs && u < n ensures u in ItemUids(FromServer(b, want, n)) {
      FromServerHas(b, want, n, u);
      UidListed(FromServer(b, want, n), Item(u, b.msgs[u].header, b.msgs[u].flags));
    }
  }

  lemma {:induction false} CachedDistinct(nodes: seq<Node>, mailbox: string, uids: seq<nat>)
    requires forall i, j ::
               0 <= i < j < |nodes| ==> nodes[i].mailbox != nodes[j].mailbox || nodes[i].uid != nodes[j].uid
    ensures DistinctNodes(CachedFor(nodes, mailbox, uids))
  {
    if nodes != [] {
      var init, last := nodes[..|nodes| - 1], nodes[|nodes| - 1];
      assert forall i :: 0 <= i < |init| ==> init[i] == nodes[i];
      CachedDistinct(init, mailbox, uids);
      var r := CachedFor(init, mailbox, uids);
      if last.mailbox == mailbox && last.uid in uids {
        forall i | 0 <= i < |r| ensures r[i].uid != last.uid {
          assert r[i] in r;
          var k :| 0 <= k < |init| && init[k] == r[i];
          assert nodes[k].mailbox == nodes[|nodes| - 1].mailbox;
        }
        assert CachedFor(nodes, mailbox, uids) == r + [last];
      } else {
        assert CachedFor(nodes, mailbox, uids) == r;
      }
    }
  }

  /** Cached rows of existing messages read as the view. */
  lemma CachedItem(s: Server, nodes: seq<Node>, mailbox: string, uids: seq<nat>, n: Node)
    requires CacheOk(s, nodes) && mailbox in s && n in CachedFor(nodes, mailbox, uids) && n.uid in s[mailbox].msgs
    ensures View(s[mailbox], nodes, mailbox, n.uid) == ReadRow(n.row)
  {
    hide WriteRow; hide ReadRow;
    assert NodeOk(s, n);
    assert IsCached(nodes, mailbox, n.uid);
  }

  lemma IsCachedIff(nodes: seq<Node>, mailbox: string, uids: seq<nat>, u: nat)
    requires u in uids
    ensures u in UidsOf(CachedFor(nodes, mailbox, uids)) <==> IsCached(nodes, mailbox, u)
  {
    if IsCached(nodes, mailbox, u) {
      var n :| n in nodes && n.mailbox == mailbox && n.uid == u;
      assert n in CachedFor(nodes, mailbox, uids);
    }
  }

  /** Reading the cached part succeeds when every cached view exists. */
  lemma CachedViews(s: Server, nodes: seq<Node>, mailbox: string, uids: seq<nat>)
    requires CacheOk(s, nodes) && mailbox in s && forall u :: u in uids ==> u in s[mailbox].msgs
    ensures FromCache(CachedFor(nodes, mailbox, uids), s[mailbox]).Some? <==>
      forall u :: u in uids && IsCached(nodes, mailbox, u) ==> View(s[mailbox], nodes, mailbox, u).Some?
  {
    hide ReadRow; hide WriteRow; hide View; hide CacheOk;
    var found := CachedFor(nodes, mailbox, uids);
    FromCacheIs(found, s[mailbox]);
    forall n | n in found
      ensures View(s[mailbox], nodes, mailbox, n.uid) == ReadRow(n.row) && IsCached(nodes, mailbox, n.uid)
    {
      CachedItem(s, nodes, mailbox, uids, n);
    }
    forall u | u in uids && IsCached(nodes, mailbox, u) ensures exists n :: n in found && n.uid == u {
      IsCachedIff(nodes, mailbox, uids, u);
    }
  }

  /** Building the new rows succeeds when every uncached view exists. */
  lemma LiveViews(s: Server, nodes: seq<Node>, mailbox: string, uids: seq<nat>)
    requires ServerOk(s) && mailbox in s && forall u :: u in uids ==> u in s[mailbox].msgs
    ensures var live := FromServer(s[mailbox], Missing(uids, UidsOf(CachedFor(nodes, mailbox, uids))),
      s[mailbox].uidNext);
      NewNodes(mailbox, live).Some? <==>
        forall u :: u in uids && !IsCached(nodes, mailbox, u) ==> View(s[mailbox], nodes, mailbox, u).Some?
  {
    hide ReadRow; hide WriteRow;
    var b, rest := s[mailbox], Missing(uids, UidsOf(CachedFor(nodes, mailbox, uids)));
    var live := FromServer(b, rest, b.uidNext);
    NewNodesIs(mailbox, live);
    FromServerIs(b, rest, b.uidNext);
    forall u | u in uids ensures u in rest <==> !IsCached(nodes, mailbox, u) { IsCachedIff(nodes, mailbox, uids, u); }
    forall u | u in rest ensures exists it :: it in live && it.uid == u && it.header == b.msgs[u].header {
      assert u in ItemUids(live);
      var i :| 0 <= i < |live| && ItemUids(live)[i] == u;
      assert live[i] in live;
    }
  }

  /** An item shows a message as it should. */
  ghost predicate ItemShown(it: Item, b: Box, nodes: seq<Node>, mailbox: string, uids: seq<nat>) {
    it.uid in uids && it.uid in b.msgs && View(b, nodes, mailbox, it.uid) == Some(it.header)
      && it.flags == b.msgs[it.uid].flags
  }

  lemma CachedShown(s: Server, nodes: seq<Node>, mailbox: string, uids: seq<nat>, cached: seq<Item>)
    requires CacheOk(s, nodes) && mailbox in s && forall u :: u in uids ==> u in s[mailbox].msgs
    requires FromCache(CachedFor(nodes, mailbox, uids), s[mailbox]) == Some(cached)
    ensures forall it :: it in cached ==>
              it.uid in UidsOf(CachedFor(nodes, mailbox, uids)) && ItemShown(it, s[mailbox], nodes, mailbox, uids)
  {
    var b, found := s[mailbox], CachedFor(nodes, mailbox, uids);
    assert forall n :: n in found ==> n.uid in uids;
    hide ReadRow; hide WriteRow; hide View; hide CachedFor; hide FromCache; hide CacheOk;
    FromCacheIs(found, b);
    forall it | it in cached ensures it.uid in UidsOf(found) && ItemShown(it, b, nodes, mailbox, uids) {
      var i :| 0 <= i < |cached| && cached[i] == it;
      assert found[i] in found;
      CachedItem(s, nodes, mailbox, uids, found[i]);
    }
  }

  lemma LiveShown(b: Box, nodes: seq<Node>, mailbox: string, uids: seq<nat>, live: seq<Item>)
    requires forall u :: u in uids ==> u in b.msgs && View(b, nodes, mailbox, u).Some?
    requires live == FromServer(b, Missing(uids, UidsOf(CachedFor(nodes, mailbox, uids))), b.uidNext)
    ensures forall it :: it in live ==>
                  it.uid !in UidsOf(CachedFor(nodes, mailbox, uids)) && ItemShown(it, b, nodes, mailbox, uids)
  {
    hide ReadRow; hide WriteRow; hide View; hide CachedFor; hide FromServer; hide IsCached; hide UidsOf;
    var rest := Missing(uids, UidsOf(CachedFor(nodes, mailbox, uids)));
    FromServerIs(b, rest, b.uidNext);
    forall it | it in live ensures it.uid !in UidsOf(CachedFor(nodes, mailbox, uids))
      && ItemShown(it, b, nodes, mailbox, uids) {
      assert it.uid in rest;
      IsCachedIff(nodes, mailbox, uids, it.uid);
      UncachedView(b, nodes, mailbox, it.uid);
    }
  }

  lemma FetchShows(s: Server, nodes: seq<Node>, mailbox: string, uids: seq<nat>, cached: seq<Item>, live: seq<Item>)
    requires CacheOk(s, nodes) && ServerOk(s) && mailbox in s && forall u :: u in uids ==> u in s[mailbox].msgs
    requires forall u :: u in uids ==> View(s[mailbox], nodes, mailbox, u).Some?
    requires FromCache(CachedFor(nodes, mailbox, uids), s[mailbox]) == Some(cached)
    requires live == FromServer(s[mailbox], Missing(uids, UidsOf(CachedFor(nodes, mailbox, uids))), s[mailbox].uidNext)
    ensures Shows(cached + live, s[mailbox], nodes, mailbox, uids)
  {
    var b, found := s[mailbox], CachedFor(nodes, mailbox, uids);
    var rest := Missing(uids, UidsOf(found));
    CachedDistinct(nodes, mailbox, uids);
    hide ReadRow; hide WriteRow; hide View; hide ServerOk; hide CachedFor; hide FromCache; hide CacheOk;
    hide FromServer; hide DistinctNodes;
    FromCacheIs(found, b);
    FromServerIs(b, rest, b.uidNext);
    assert BoxOk(b) by { BoxIsOk(s, mailbox); }
    CachedShown(s, nodes, mailbox, uids, cached);
    LiveShown(b, nodes, mailbox, uids, live);
    hide UidsOf; hide Ascending;
    forall u | u in uids ensures u in ItemUids(cached + live) {
      hide ItemShown; hide ItemUids;
      AppearsIn(cached, live, found, rest, b, u);
    }
    DistinctAppend(cached, live, found);
    ShowsFrom(cached + live, b, nodes, mailbox, uids);
  }

  lemma ShowsFrom(items: seq<Item>, b: Box, nodes: seq<Node>, mailbox: string, uids: seq<nat>)
    requires NoRepeats(ItemUids(items)) && (forall it :: it in items ==> ItemShown(it, b, nodes, mailbox, uids))
    requires forall u :: u in uids ==> u in ItemUids(items)
    ensures Shows(items, b, nodes, mailbox, uids)
  {
    hide View;
  }

  lemma BoxIsOk(s: Server, mailbox: string)
    requires ServerOk(s) && mailbox in s
    ensures BoxOk(s[mailbox])
  {
  }

  lemma UncachedView(b: Box, nodes: seq<Node>, mailbox: string, u: nat)
    requires u in b.msgs && !IsCached(nodes, mailbox, u) && View(b, nodes, mailbox, u).Some?
    ensures View(b, nodes, mailbox, u) == Some(b.msgs[u].header)
  {
  }

  lemma AppearsIn(cached: seq<Item>, live: seq<Item>, found: seq<Node>, rest: seq<nat>, b: Box, u: nat)
    requires |cached| == |found| && forall i :: 0 <= i < |found| ==> cached[i].uid == found[i].uid
    requires u in UidsOf(found) || u in ItemUids(live)
    ensures u in ItemUids(cached + live)
  {
    var all := cached + live;
    if u in UidsOf(found) {
      var n :| n in found && n.uid == u;
      var i :| 0 <= i < |found| && found[i] == n;
      assert all[i].uid == u && ItemUids(all)[i] == u;
    } else {
      var i :| 0 <= i < |live| && ItemUids(live)[i] == u;
      assert all[|cached| + i] == live[i] && ItemUids(all)[|cached| + i] == u;
    }
  }

  lemma DistinctAppend(cached: seq<Item>, live: seq<Item>, found: seq<Node>)
    requires |cached| == |found| && forall i :: 0 <= i < |found| ==> cached[i].uid == found[i].uid
    requires DistinctNodes(found) && Ascending(live)
    requires forall it :: it in live ==> it.uid !in UidsOf(found)
    ensures NoRepeats(ItemUids(cached + live))
  {
    var all := cached + live;
    forall i, j | 0 <= i < j < |all| ensures ItemUids(all)[i] != ItemUids(all)[j] {
      if i < |cached| <= j {
        assert found[i] in found && live[j - |cached|] in live;
      }
    }
  }
}
