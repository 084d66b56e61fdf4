/** The mailbox tree of one account: database rows, the objects loaded from them, and what saving a renamed mailbox
    does to both, to filters and to cached headers. */
module MailboxTree {
  import CacheTable
  import opened Collections
  import opened MailboxNames
  import opened Text

  datatype Row = Row(name: string, title: string)
  datatype Filter = Filter(enabled: bool, mailboxName: string)

  type CacheRow = CacheTable.Node

  /** The loaded objects as a tree of row ids. */
  datatype Tree = Tree(id: nat, kids: seq<Tree>)

  /** Database tables, and the in-memory attributes of the loaded objects. */
  datatype Picture = Picture(rows: map<nat, Row>, filters: seq<Filter>, nodes: seq<CacheRow>, mem: map<nat, Row>)

  /** presence and validate_title. */
  predicate ValidTitle(title: string) {
    && !Blank(title)
    && (forall i :: 0 <= i < |title| ==> title[i] !in {'.', '/', '#', '\\'})
  }

  /** A title is valid when it has a character that is not white space and none of the four reserved ones. */
  lemma TitleIs(title: string)
    ensures ValidTitle(title) <==> HasText(title) && forall c :: c in title ==> c !in "./#\\"
  {
    var reserved := "./#\\";
    assert reserved[0] == '.' && reserved[1] == '/' && reserved[2] == '#' && reserved[3] == '\\' && |reserved| == 4;
    forall c ensures c in reserved <==> c in {'.', '/', '#', '\\'} {}
    if ValidTitle(title) {
      forall c | c in title ensures c !in reserved { var i :| 0 <= i < |title| && title[i] == c; }
    }
    if forall c :: c in title ==> c !in reserved {
      forall i | 0 <= i < |title| ensures title[i] !in {'.', '/', '#', '\\'} { assert title[i] in title; }
    }
  }

  function RetargetFilters(fs: seq<Filter>, was: string, name: string, d: char): (r: seq<Filter>)
    ensures |r| == |fs|
    ensures forall j :: 0 <= j < |fs| ==>
      r[j] == if fs[j].mailboxName == was then fs[j].(mailboxName := name) else fs[j]
  {
    if fs == [] then []
    else
      [if fs[0].mailboxName == was then fs[0].(mailboxName := RenamePath(fs[0].mailboxName, was, name, d)) else fs[0]]
      + RetargetFilters(fs[1..], was, name, d)
  }

  function RetargetNodes(ns: seq<CacheRow>, was: string, name: string): (r: seq<CacheRow>)
    ensures |r| == |ns|
    ensures forall j :: 0 <= j < |ns| ==>
      r[j] == if ns[j].mailbox == was then ns[j].(mailbox := name) else ns[j]
  {
    if ns == [] then []
    else [if ns[0].mailbox == was then ns[0].(mailbox := name) else ns[0]] + RetargetNodes(ns[1..], was, name)
  }

  // ----- Ids and coverage -----

  ghost function Ids(t: Tree): set<nat>
    decreases t
  {
    {t.id} + IdsUpTo(t, |t.kids|)
  }

  ghost function IdsUpTo(t: Tree, n: nat): set<nat>
    requires n <= |t.kids|
    decreases t, n
  {
    if n == 0 then {} else IdsUpTo(t, n - 1) + Ids(t.kids[n - 1])
  }

  lemma IdsUpToIs(t: Tree, n: nat)
    requires n <= |t.kids|
    ensures IdsUpTo(t, n) == if n == 0 then {} else IdsUpTo(t, n - 1) + Ids(t.kids[n - 1])
  {
  }

  lemma {:induction false} KidIds(t: Tree, n: nat, i: nat)
    requires i < n <= |t.kids|
    ensures Ids(t.kids[i]) <= IdsUpTo(t, n) <= Ids(t)
    decreases |t.kids| - i, n
  {
    IdsGrow(t, n);
    if i < n - 1 { KidIds(t, n - 1, i); }
  }

  lemma {:induction false} IdsGrow(t: Tree, n: nat)
    requires n <= |t.kids|
    ensures IdsUpTo(t, n) <= IdsUpTo(t, |t.kids|)
    decreases |t.kids| - n
  {
    if n < |t.kids| { IdsGrow(t, n + 1); }
  }

  // ----- What a save does -----

  /** Validation, then the three before_update callbacks, then the UPDATE of the row itself. */
  ghost function SaveSpec(p: Picture, t: Tree, d: char): (q: Picture)
    requires Ids(t) <= p.rows.Keys && Ids(t) <= p.mem.Keys
    ensures q.rows.Keys == p.rows.Keys && q.mem.Keys == p.mem.Keys
    decreases t
  {
    var m := p.mem[t.id];
    if !ValidTitle(m.title) then p
    else
      var was := p.rows[t.id].name;
      var q := if !Blank(m.name) && m.name != was
               then SaveKids(Retarget(p, was, m.name, d), t, |t.kids|, was, m.name, d)
               else p;
      q.(rows := q.rows[t.id := q.mem[t.id]])
  }

  ghost function SaveKids(p: Picture, t: Tree, n: nat, was: string, name: string, d: char): (q: Picture)
    requires n <= |t.kids|
    requires Ids(t) <= p.rows.Keys && Ids(t) <= p.mem.Keys
    ensures q.rows.Keys == p.rows.Keys && q.mem.Keys == p.mem.Keys
    decreases t, n
  {
    if n == 0 then p
    else
      var k := t.kids[n - 1];
      var q := SaveKids(p, t, n - 1, was, name, d);
      assert Ids(k) <= Ids(t) by { KidIds(t, n, n - 1); }
      SaveSpec(SetMem(q, k.id, RenamePath(q.mem[k.id].name, was, name, d)), k, d)
  }

  ghost function SetMem(p: Picture, id: nat, name: string): Picture
    requires id in p.mem
  {
    p.(mem := p.mem[id := p.mem[id].(name := name)])
  }

  ghost function Retarget(p: Picture, was: string, name: string, d: char): Picture {
    p.(filters := RetargetFilters(p.filters, was, name, d), nodes := RetargetNodes(p.nodes, was, name))
  }

  /** rename_mailbox up to the server call: assign the name, save. */
  ghost function RenameSpec(p: Picture, t: Tree, name: string, d: char): (q: Picture)
    requires Ids(t) <= p.rows.Keys && Ids(t) <= p.mem.Keys
  {
    SaveSpec(SetMem(p, t.id, name), t, d)
  }

  // ----- The shape of the loaded tree -----

  /** No record occurs twice, and the name of each lies at or below its parent's. */
  ghost predicate Hangs(rows: map<nat, Row>, t: Tree, d: char)
    decreases t
  {
    && t.id in rows && t.id !in IdsUpTo(t, |t.kids|)
    && forall i :: 0 <= i < |t.kids| ==>
         && t.kids[i].id in rows && Under(rows[t.kids[i].id].name, rows[t.id].name, d)
         && Hangs(rows, t.kids[i], d) && IdsUpTo(t, i) !! Ids(t.kids[i])
  }

  lemma HangsKids(rows: map<nat, Row>, t: Tree, n: nat, d: char)
    requires Hangs(rows, t, d) && n <= |t.kids|
    ensures t.id in rows && t.id !in IdsUpTo(t, |t.kids|)
    ensures n > 0 ==> var k := t.kids[n - 1];
      && k.id in rows && Under(rows[k.id].name, rows[t.id].name, d) && Hangs(rows, k, d) && IdsUpTo(t, n - 1) !! Ids(k)
  {
    hide Ids; hide IdsUpTo; hide Under;
  }

  ghost predicate AllUnder(rows: map<nat, Row>, ids: set<nat>, top: string, d: char) {
    ids <= rows.Keys && forall i :: i in ids ==> Under(rows[i].name, top, d)
  }

  lemma NoneUnder(rows: map<nat, Row>, top: string, d: char)
    ensures AllUnder(rows, {}, top, d)
  {
  }

  lemma AllUnderMore(rows: map<nat, Row>, a: set<nat>, b: set<nat>, k: string, top: string, d: char)
    requires AllUnder(rows, a, top, d) && AllUnder(rows, b, k, d) && Under(k, top, d)
    ensures AllUnder(rows, a + b, top, d)
  {
    hide Under;
    forall i | i in b ensures Under(rows[i].name, top, d) { UnderTransitive(rows[i].name, k, top, d); }
  }

  lemma {:induction false} HangsUnder(rows: map<nat, Row>, t: Tree, d: char)
    requires Hangs(rows, t, d)
    ensures t.id in rows && AllUnder(rows, Ids(t), rows[t.id].name, d)
    decreases t
  {
    HangsUnderUpTo(rows, t, |t.kids|, d);
  }

  lemma {:induction false} HangsUnderUpTo(rows: map<nat, Row>, t: Tree, n: nat, d: char)
    requires Hangs(rows, t, d) && n <= |t.kids|
    ensures t.id in rows && AllUnder(rows, IdsUpTo(t, n), rows[t.id].name, d)
    decreases t, n
  {
    hide *;
    HangsKids(rows, t, n, d);
    IdsUpToIs(t, n);
    if n == 0 {
      NoneUnder(rows, rows[t.id].name, d);
    } else {
      HangsUnderUpTo(rows, t, n - 1, d);
      HangsUnder(rows, t.kids[n - 1], d);
      AllUnderMore(rows, IdsUpTo(t, n - 1), Ids(t.kids[n - 1]), rows[t.kids[n - 1].id].name, rows[t.id].name, d);
    }
  }

  // ----- Which rows a save reaches -----

  /** The rows saved when `t.id` is, in this order: the walk stops at a row whose title does not validate. */
  ghost function Walk(t: Tree, ok: set<nat>): seq<nat>
    decreases t
  {
    if t.id in ok then [t.id] + WalkUpTo(t, |t.kids|, ok) else []
  }

  ghost function WalkUpTo(t: Tree, n: nat, ok: set<nat>): seq<nat>
    requires n <= |t.kids|
    decreases t, n
  {
    if n == 0 then [] else WalkUpTo(t, n - 1, ok) + Walk(t.kids[n - 1], ok)
  }

  ghost function Visited(walk: seq<nat>): set<nat> {
    set i | i in walk
  }

  lemma {:induction false} WalkWithin(t: Tree, ok: set<nat>)
    ensures forall i :: i in Walk(t, ok) ==> i in Ids(t) && i in ok
    decreases t
  {
    WalkWithinUpTo(t, |t.kids|, ok);
  }

  lemma {:induction false} WalkWithinUpTo(t: Tree, n: nat, ok: set<nat>)
    requires n <= |t.kids|
    ensures forall i :: i in WalkUpTo(t, n, ok) ==> i in IdsUpTo(t, n) && i in ok
    decreases t, n
  {
    if n > 0 {
      WalkWithinUpTo(t, n - 1, ok);
      WalkWithin(t.kids[n - 1], ok);
    }
  }

  /** No row is saved twice. */
  lemma {:induction false} WalkOnce(rows: map<nat, Row>, t: Tree, ok: set<nat>, d: char)
    requires Hangs(rows, t, d)
    ensures NoRepeats(Walk(t, ok))
    decreases t
  {
    WalkOnceUpTo(rows, t, |t.kids|, ok, d);
    WalkWithinUpTo(t, |t.kids|, ok);
  }

  lemma {:induction false} WalkOnceUpTo(rows: map<nat, Row>, t: Tree, n: nat, ok: set<nat>, d: char)
    requires Hangs(rows, t, d) && n <= |t.kids|
    ensures NoRepeats(WalkUpTo(t, n, ok))
    decreases t, n
  {
    hide *;
    HangsKids(rows, t, n, d);
    WalkUpToIs(t, n, ok);
    if n == 0 {
      NoRepeatsNone<nat>();
    } else {
      WalkOnceUpTo(rows, t, n - 1, ok, d);
      WalkOnce(rows, t.kids[n - 1], ok, d);
      WalksApart(t, n - 1, ok);
      NoRepeatsJoin(WalkUpTo(t, n - 1, ok), Walk(t.kids[n - 1], ok));
    }
  }

  lemma WalkUpToIs(t: Tree, n: nat, ok: set<nat>)
    requires n <= |t.kids|
    ensures WalkUpTo(t, n, ok) == if n == 0 then [] else WalkUpTo(t, n - 1, ok) + Walk(t.kids[n - 1], ok)
  {
  }

  lemma WalksApart(t: Tree, n: nat, ok: set<nat>)
    requires n < |t.kids| && IdsUpTo(t, n) !! Ids(t.kids[n])
    ensures forall i :: i in WalkUpTo(t, n, ok) ==> i !in Walk(t.kids[n], ok)
  {
    WalkWithinUpTo(t, n, ok);
    WalkWithin(t.kids[n], ok);
    hide Ids; hide Walk; hide IdsUpTo; hide WalkUpTo;
  }

  // ----- Effect of a save -----

  ghost predicate Names(rows: map<nat, Row>, ids: set<nat>, s: string) {
    exists i :: i in ids && i in rows && rows[i].name == s
  }

  /** Where a stored reference ends when the rows of `walk` are saved in turn: each takes along the references to its
      old name, those that an earlier row brought there included. */
  ghost function Follow(rows: map<nat, Row>, walk: seq<nat>, x: string, was: string, name: string, d: char): string {
    if walk == [] then x
    else
      var y, i := Follow(rows, walk[..|walk| - 1], x, was, name, d), walk[|walk| - 1];
      if i in rows && rows[i].name == y then RenamePath(y, was, name, d) else y
  }

  ghost function MovedRows(p: Picture, rows: map<nat, Row>, walk: seq<nat>, was: string, name: string,
                           d: char): map<nat, Row>
    requires p.rows.Keys <= p.mem.Keys && p.rows.Keys <= rows.Keys
  {
    map i | i in p.rows :: if i in walk then Row(RenamePath(rows[i].name, was, name, d), p.mem[i].title) else p.rows[i]
  }

  ghost function MovedFilters(fs: seq<Filter>, rows: map<nat, Row>, walk: seq<nat>, was: string, name: string,
                              d: char): (r: seq<Filter>)
    ensures |r| == |fs|
  {
    seq(|fs|, j requires 0 <= j < |fs| => fs[j].(mailboxName := Follow(rows, walk, fs[j].mailboxName, was, name, d)))
  }

  ghost function MovedNodes(ns: seq<CacheRow>, rows: map<nat, Row>, walk: seq<nat>, was: string, name: string,
                            d: char): (r: seq<CacheRow>)
    ensures |r| == |ns|
  {
    seq(|ns|, j requires 0 <= j < |ns| => ns[j].(mailbox := Follow(rows, walk, ns[j].mailbox, was, name, d)))
  }

  ghost predicate SameKeys(p: Picture, rows: map<nat, Row>) {
    p.rows.Keys == p.mem.Keys == rows.Keys
  }

  /** q is p with the rows of `walk` renamed in turn, references following, and nothing else changed. */
  ghost predicate Effect(p: Picture, q: Picture, rows: map<nat, Row>, walk: seq<nat>, was: string, name: string,
                         d: char)
    requires SameKeys(p, rows)
  {
    && q.mem.Keys == p.mem.Keys
    && q.rows == MovedRows(p, rows, walk, was, name, d)
    && q.filters == MovedFilters(p.filters, rows, walk, was, name, d)
    && q.nodes == MovedNodes(p.nodes, rows, walk, was, name, d)
  }

  ghost predicate SameMem(p: Picture, q: Picture, touched: set<nat>) {
    forall i :: i in p.mem ==>
           i in q.mem && q.mem[i].title == p.mem[i].title && (i !in touched ==> q.mem[i] == p.mem[i])
  }

  /** Rows and objects in `ids` are as they were loaded. */
  ghost predicate Loaded(p: Picture, rows: map<nat, Row>, ids: set<nat>) {
    forall i :: i in ids ==> i in rows && i in p.rows && i in p.mem && p.rows[i] == rows[i] == p.mem[i]
  }

  lemma {:induction false} FollowOn(rows: map<nat, Row>, w1: seq<nat>, w2: seq<nat>, x: string, was: string,
                                    name: string, d: char)
    ensures Follow(rows, w1 + w2, x, was, name, d) == Follow(rows, w2, Follow(rows, w1, x, was, name, d), was, name, d)
  {
    if w2 == [] {
      assert w1 + w2 == w1;
    } else {
      assert (w1 + w2)[..|w1 + w2| - 1] == w1 + w2[..|w2| - 1];
      FollowOn(rows, w1, w2[..|w2| - 1], x, was, name, d);
    }
  }

  /** Rewriting from a name further down is rewriting from the top. */
  lemma {:induction false} FollowFrom(rows: map<nat, Row>, walk: seq<nat>, x: string, was: string, name: string,
                                      k: string, d: char)
    requires Under(k, was, d) && forall i :: i in walk ==> i in rows && Under(rows[i].name, k, d)
    ensures Follow(rows, walk, x, k, RenamePath(k, was, name, d), d) == Follow(rows, walk, x, was, name, d)
  {
    hide Under; hide RenamePath;
    if walk != [] {
      var init, i := walk[..|walk| - 1], walk[|walk| - 1];
      FollowFrom(rows, init, x, was, name, k, d);
      RenameThrough(rows[i].name, k, was, name, d);
    }
  }

  lemma NothingMoved(p: Picture, rows: map<nat, Row>, was: string, name: string, d: char)
    requires SameKeys(p, rows)
    ensures Effect(p, p, rows, [], was, name, d)
  {
    assert MovedFilters(p.filters, rows, [], was, name, d) == p.filters;
    assert MovedNodes(p.nodes, rows, [], was, name, d) == p.nodes;
  }

  /** Effects of one walk after another compose, the second one given from its own top. */
  lemma EffectThen(p: Picture, q: Picture, r: Picture, rows: map<nat, Row>, w1: seq<nat>, w2: seq<nat>,
                   was: string, name: string, k: string, d: char)
    requires SameKeys(p, rows) && SameKeys(q, rows) && Under(k, was, d)
    requires forall i :: i in w2 ==> i in rows && Under(rows[i].name, k, d)
    requires Effect(p, q, rows, w1, was, name, d)
    requires forall i :: i in p.mem ==> q.mem[i].title == p.mem[i].title
    requires Effect(q, r, rows, w2, k, RenamePath(k, was, name, d), d)
    ensures Effect(p, r, rows, w1 + w2, was, name, d)
  {
    hide Under; hide RenamePath;
    forall i | i in w2
      ensures RenamePath(rows[i].name, k, RenamePath(k, was, name, d), d) == RenamePath(rows[i].name, was, name, d)
    {
      RenameThrough(rows[i].name, k, was, name, d);
    }
    assert r.rows == MovedRows(p, rows, w1 + w2, was, name, d);
    forall x
      ensures Follow(rows, w2, Follow(rows, w1, x, was, name, d), k, RenamePath(k, was, name, d), d)
        == Follow(rows, w1 + w2, x, was, name, d)
    {
      FollowFrom(rows, w2, Follow(rows, w1, x, was, name, d), was, name, k, d);
      FollowOn(rows, w1, w2, x, was, name, d);
    }
    hide Follow;
    assert r.filters == MovedFilters(p.filters, rows, w1 + w2, was, name, d);
    assert r.nodes == MovedNodes(p.nodes, rows, w1 + w2, was, name, d);
  }

  ghost function Ok(p: Picture): set<nat> {
    set i | i in p.mem && ValidTitle(p.mem[i].title)
  }

  lemma SameOk(p: Picture, q: Picture)
    requires p.mem.Keys == q.mem.Keys
    requires forall i :: i in p.mem ==> q.mem[i].title == p.mem[i].title
    ensures Ok(p) == Ok(q)
  {
    forall i ensures i in Ok(p) <==> i in Ok(q) {}
  }

  /** When the walk reaches kid n, that kid's subtree is still as loaded. */
  lemma KidReady(p: Picture, q: Picture, t: Tree, n: nat, rows: map<nat, Row>, walk: seq<nat>, was: string,
                 name: string, d: char)
    requires Hangs(rows, t, d) && n < |t.kids|
    requires SameKeys(p, rows) && Loaded(p, rows, IdsUpTo(t, |t.kids|))
    requires Effect(p, q, rows, walk, was, name, d) && forall i :: i in walk ==> i in IdsUpTo(t, n)
    requires SameMem(p, q, IdsUpTo(t, n))
    ensures SameKeys(q, rows)
    ensures Loaded(q, rows, Ids(t.kids[n]))
  {
    assert IdsUpTo(t, n) !! Ids(t.kids[n]);
    hide *;
    KidIds(t, |t.kids|, n);
    EffectRows(p, q, rows, walk, was, name, d);
    LoadedPart(p, rows, IdsUpTo(t, |t.kids|), Ids(t.kids[n]));
    StillLoaded(p, q, rows, walk, Ids(t.kids[n]), IdsUpTo(t, n), was, name, d);
  }

  lemma EffectRows(p: Picture, q: Picture, rows: map<nat, Row>, walk: seq<nat>, was: string, name: string, d: char)
    requires SameKeys(p, rows) && Effect(p, q, rows, walk, was, name, d)
    ensures p.rows.Keys <= p.mem.Keys && p.rows.Keys <= rows.Keys
    ensures q.mem.Keys == p.mem.Keys && q.rows == MovedRows(p, rows, walk, was, name, d)
  {
    hide MovedFilters; hide MovedNodes; hide MovedRows;
  }

  lemma LoadedPart(p: Picture, rows: map<nat, Row>, ids: set<nat>, some: set<nat>)
    requires Loaded(p, rows, ids) && some <= ids
    ensures Loaded(p, rows, some)
  {
  }

  lemma StillLoaded(p: Picture, q: Picture, rows: map<nat, Row>, walk: seq<nat>, ids: set<nat>, touched: set<nat>,
                    was: string, name: string, d: char)
    requires SameKeys(p, rows) && Loaded(p, rows, ids) && ids !! touched
    requires forall i :: i in walk ==> i in touched
    requires q.mem.Keys == p.mem.Keys && q.rows == MovedRows(p, rows, walk, was, name, d) && SameMem(p, q, touched)
    ensures SameKeys(q, rows) && Loaded(q, rows, ids)
  {
  }

  /** A loaded tree whose top is about to get a new name. */
  ghost predicate KidsReady(p: Picture, t: Tree, rows: map<nat, Row>, name: string, d: char) {
    && Hangs(rows, t, d) && SameKeys(p, rows) && Loaded(p, rows, IdsUpTo(t, |t.kids|))
    && t.id in rows && !Blank(name) && name != rows[t.id].name
  }

  /** The first n subtrees have been renamed. */
  ghost predicate KidsMoved(p: Picture, q: Picture, t: Tree, n: nat, rows: map<nat, Row>, name: string, d: char)
    requires n <= |t.kids| && t.id in rows && SameKeys(p, rows)
  {
    Effect(p, q, rows, WalkUpTo(t, n, Ok(p)), rows[t.id].name, name, d) && SameMem(p, q, IdsUpTo(t, n))
  }

  lemma NoKidMoved(p: Picture, t: Tree, rows: map<nat, Row>, name: string, d: char)
    requires SameKeys(p, rows) && t.id in rows
    ensures KidsMoved(p, p, t, 0, rows, name, d)
  {
    NothingMoved(p, rows, rows[t.id].name, name, d);
  }

  lemma {:induction false} KidsEffect(p: Picture, t: Tree, n: nat, rows: map<nat, Row>, name: string, d: char)
    returns (q: Picture)
    requires n <= |t.kids| && t.id in rows && SameKeys(p, rows) && Ids(t) <= p.rows.Keys && Ids(t) <= p.mem.Keys
    requires KidsReady(p, t, rows, name, d)
    ensures q == SaveKids(p, t, n, rows[t.id].name, name, d) && KidsMoved(p, q, t, n, rows, name, d)
    decreases t, n
  {
    hide KidsReady; hide KidsMoved; hide SameKeys; hide Ids;
    if n > 0 {
      var r := KidsEffect(p, t, n - 1, rows, name, d);
      q := KidStep(p, r, t, n - 1, rows, name, d);
    } else {
      q := p;
      NoKidMoved(p, t, rows, name, d);
    }
  }

  /** A loaded subtree about to be saved under a new name. */
  ghost predicate KidSavable(q: Picture, k: Tree, rows: map<nat, Row>, name: string, d: char) {
    && Hangs(rows, k, d) && SameKeys(q, rows) && Loaded(q, rows, Ids(k))
    && k.id in rows && !Blank(name) && name != rows[k.id].name
  }

  lemma KidFacts(p: Picture, q: Picture, t: Tree, n: nat, rows: map<nat, Row>, name: string, d: char)
    requires n < |t.kids| && t.id in rows && SameKeys(p, rows) && KidsReady(p, t, rows, name, d)
    requires KidsMoved(p, q, t, n, rows, name, d)
    ensures var k := t.kids[n];
      && SameKeys(q, rows) && k.id in rows && Ids(k) <= q.rows.Keys && Ids(k) <= q.mem.Keys
         && q.mem[k.id].name == rows[k.id].name
      && KidSavable(q, k, rows, RenamePath(rows[k.id].name, rows[t.id].name, name, d), d)
  {
    var was, k := rows[t.id].name, t.kids[n];
    assert Hangs(rows, k, d) && Under(rows[k.id].name, was, d);
    WalkWithinUpTo(t, n, Ok(p));
    HangsUnder(rows, k, d);
    IdIn(k);
    hide Effect; hide Hangs; hide Ids; hide Ok; hide WalkUpTo;
    KidReady(p, q, t, n, rows, WalkUpTo(t, n, Ok(p)), was, name, d);
    RenamedNotBlank(rows[k.id].name, was, name, d);
  }

  lemma RenamedNotBlank(x: string, was: string, name: string, d: char)
    requires Under(x, was, d) && !Blank(name) && name != was
    ensures !Blank(RenamePath(x, was, name, d)) && RenamePath(x, was, name, d) != x
  {
    RenamedIsUnder(x, was, name, d);
    var i :| 0 <= i < |name| && !IsSpace(name[i]);
    assert RenamePath(x, was, name, d)[i] == name[i];
  }

  lemma KidDone(p: Picture, q: Picture, r: Picture, t: Tree, n: nat, rows: map<nat, Row>, name: string, d: char)
    requires n < |t.kids| && t.id in rows && SameKeys(p, rows) && KidsReady(p, t, rows, name, d)
    requires KidsMoved(p, q, t, n, rows, name, d)
    requires SameKeys(q, rows) && t.kids[n].id in rows
    requires Effect(q, r, rows, Walk(t.kids[n], Ok(q)), rows[t.kids[n].id].name,
      RenamePath(rows[t.kids[n].id].name, rows[t.id].name, name, d), d)
    requires SameMem(q, r, Ids(t.kids[n]))
    ensures KidsMoved(p, r, t, n + 1, rows, name, d)
  {
    var k := t.kids[n];
    assert Hangs(rows, k, d) && Under(rows[k.id].name, rows[t.id].name, d);
    HangsUnder(rows, k, d);
    WalkWithin(k, Ok(p));
    SameOk(p, q);
    SameMemOn(p, q, r, IdsUpTo(t, n), Ids(k));
    hide Effect; hide Hangs; hide Ok; hide Walk;
    EffectThen(p, q, r, rows, WalkUpTo(t, n, Ok(p)), Walk(k, Ok(p)), rows[t.id].name, name, rows[k.id].name, d);
  }

  lemma SameMemOn(p: Picture, q: Picture, r: Picture, a: set<nat>, b: set<nat>)
    requires SameMem(p, q, a) && SameMem(q, r, b)
    ensures SameMem(p, r, a + b)
  {
  }

  lemma {:induction false} KidStep(p: Picture, q: Picture, t: Tree, n: nat, rows: map<nat, Row>, name: string, d: char)
    returns (r: Picture)
    requires n < |t.kids| && t.id in rows && SameKeys(p, rows) && KidsReady(p, t, rows, name, d)
    requires KidsMoved(p, q, t, n, rows, name, d)
    ensures Ids(t.kids[n]) <= q.rows.Keys && Ids(t.kids[n]) <= q.mem.Keys
    ensures r == SaveSpec(SetMem(q, t.kids[n].id, RenamePath(q.mem[t.kids[n].id].name, rows[t.id].name, name, d)),
      t.kids[n], d)
    ensures KidsMoved(p, r, t, n + 1, rows, name, d)
    decreases t, n
  {
    hide *;
    var k := t.kids[n];
    KidFacts(p, q, t, n, rows, name, d);
    IdIn(k);
    var newName := RenamePath(rows[k.id].name, rows[t.id].name, name, d);
    SetMemKeys(q, k.id, newName);
    KidSave(q, k, rows, newName, d);
    r := SaveSpec(SetMem(q, k.id, newName), k, d);
    KidDone(p, q, r, t, n, rows, name, d);
  }

  lemma SetMemKeys(q: Picture, id: nat, name: string)
    requires id in q.mem
    ensures SetMem(q, id, name).rows == q.rows && SetMem(q, id, name).mem.Keys == q.mem.Keys
  {
  }

  lemma IdIn(k: Tree)
    ensures k.id in Ids(k)
  {
  }

  lemma {:induction false} KidSave(q: Picture, k: Tree, rows: map<nat, Row>, name: string, d: char)
    requires SameKeys(q, rows) && k.id in rows && Ids(k) <= q.rows.Keys && Ids(k) <= q.mem.Keys
    requires KidSavable(q, k, rows, name, d)
    ensures var r := SaveSpec(SetMem(q, k.id, name), k, d);
      && Effect(q, r, rows, Walk(k, Ok(q)), rows[k.id].name, name, d)
      && SameMem(q, r, Ids(k))
    decreases k, |k.kids| + 2
  {
    assert k.id !in IdsUpTo(k, |k.kids|);
    SameOk(q, SetMem(q, k.id, name));
    SaveEffect(SetMem(q, k.id, name), k, rows, d);
    MemNameOnly(q, k.id, name, rows, Walk(k, Ok(q)), rows[k.id].name, d);
  }

  /** An effect does not depend on in-memory names. */
  lemma MemNameOnly(q: Picture, id: nat, name: string, rows: map<nat, Row>, walk: seq<nat>, was: string, d: char)
    requires SameKeys(q, rows) && id in rows
    ensures SameKeys(SetMem(q, id, name), rows)
    ensures MovedRows(SetMem(q, id, name), rows, walk, was, name, d) == MovedRows(q, rows, walk, was, name, d)
  {
  }

  lemma TopMerge(p: Picture, p1: Picture, q: Picture, top: nat, walk: seq<nat>, rows: map<nat, Row>, name: string,
                 d: char)
    requires SameKeys(p, rows) && top in rows && p.rows[top] == rows[top]
    requires p.mem[top].name == name && top !in walk
    requires p1 == Retarget(p, rows[top].name, name, d)
    requires forall i :: i in walk ==> i in rows
    requires Effect(p1, q, rows, walk, rows[top].name, name, d)
    requires p.mem[top] == q.mem[top]
    ensures Effect(p, q.(rows := q.rows[top := q.mem[top]]), rows, [top] + walk, rows[top].name, name, d)
  {
    var was := rows[top].name;
    assert RenamePath(was, was, name, d) == name;
    hide RenamePath;
    forall x
      ensures Follow(rows, walk, if x == was then name else x, was, name, d)
        == Follow(rows, [top] + walk, x, was, name, d)
    {
      FollowOn(rows, [top], walk, x, was, name, d);
      assert [top][..0] == [] && Follow(rows, [], x, was, name, d) == x;
    }
    hide Follow;
    assert q.rows[top := q.mem[top]] == MovedRows(p, rows, [top] + walk, was, name, d);
    assert q.filters == MovedFilters(p.filters, rows, [top] + walk, was, name, d);
    assert q.nodes == MovedNodes(p.nodes, rows, [top] + walk, was, name, d);
  }

  /** Saving the renamed top of a loaded tree renames exactly the rows the walk reaches. */
  lemma {:induction false} SaveEffect(p: Picture, t: Tree, rows: map<nat, Row>, d: char)
    requires Hangs(rows, t, d) && SameKeys(p, rows) && Ids(t) <= rows.Keys
    requires p.rows[t.id] == rows[t.id] && Loaded(p, rows, IdsUpTo(t, |t.kids|))
    requires !Blank(p.mem[t.id].name) && p.mem[t.id].name != rows[t.id].name
    ensures var q := SaveSpec(p, t, d);
      && Effect(p, q, rows, Walk(t, Ok(p)), rows[t.id].name, p.mem[t.id].name, d)
      && SameMem(p, q, Ids(t))
    decreases t, |t.kids| + 1
  {
    var was, name := rows[t.id].name, p.mem[t.id].name;
    if t.id in Ok(p) {
      var p1 := Retarget(p, was, name, d);
      var q1 := KidsEffect(p1, t, |t.kids|, rows, name, d);
      SameOk(p, p1);
      HangsUnderUpTo(rows, t, |t.kids|, d);
      WalkWithinUpTo(t, |t.kids|, Ok(p));
      TopMerge(p, p1, q1, t.id, WalkUpTo(t, |t.kids|, Ok(p)), rows, name, d);
    } else {
      NothingMoved(p, rows, was, name, d);
    }
  }
}
