/** A rename in the database against the server's. */
module MailboxRename {
  // The recursive save over the loaded tree is the server's prefix rewrite (section 6.3.5 of RFC 3501),
  // exactly when it should be.
  import opened MailboxForest
  import opened MailboxNames
  import opened MailboxTree
  import opened Text

  // ----- The refinement -----

  /** A fresh load: objects equal rows, except for the title the user typed for `top`. */
  ghost predicate FreshLoad(p: Picture, top: nat) {
    && p.mem.Keys == p.rows.Keys && top in p.rows
    && forall i :: i in p.rows && i != top ==> p.mem[i] == p.rows[i]
  }

  /** q is p with every mailbox, filter target and cached node rewritten by prefix. */
  ghost predicate PrefixRenamed(p: Picture, q: Picture, was: string, name: string, d: char) {
    && q.rows.Keys == p.rows.Keys
    && (forall i :: i in p.rows ==> q.rows[i].name == RenamePath(p.rows[i].name, was, name, d))
    && |q.filters| == |p.filters|
    && (forall j :: 0 <= j < |p.filters| ==>
          q.filters[j] == p.filters[j].(mailboxName := RenamePath(p.filters[j].mailboxName, was, name, d)))
    && |q.nodes| == |p.nodes|
    && (forall j :: 0 <= j < |p.nodes| ==>
          q.nodes[j] == p.nodes[j].(mailbox := RenamePath(p.nodes[j].mailbox, was, name, d)))
  }

  /** Whatever is stored about a mailbox at or below `was` is about a row. */
  ghost predicate NoDangling(p: Picture, was: string, d: char) {
    && (forall j :: 0 <= j < |p.filters| && Under(p.filters[j].mailboxName, was, d) ==>
          Names(p.rows, p.rows.Keys, p.filters[j].mailboxName))
    && (forall j :: 0 <= j < |p.nodes| && Under(p.nodes[j].mailbox, was, d) ==>
          Names(p.rows, p.rows.Keys, p.nodes[j].mailbox))
  }

  lemma RenameEffect(p: Picture, order: seq<nat>, top: nat, name: string, d: char) returns (q: Picture)
    requires AllWellNamed(p.rows, d) && FreshLoad(p, top) && Lists(order, p.rows)
    requires !Blank(name) && name != p.rows[top].name
    ensures Ids(LoadedTree(p.rows, order, top, d)) <= p.rows.Keys
    ensures q == RenameSpec(p, LoadedTree(p.rows, order, top, d), name, d)
    ensures SameKeys(p, p.rows)
    ensures Effect(p, q, p.rows, Walk(LoadedTree(p.rows, order, top, d), Ok(p)), p.rows[top].name, name, d)
  {
    var t := LoadedTree(p.rows, order, top, d);
    LoadedTreeShaped(p.rows, order, top, d);
    hide AllWellNamed; hide LoadedTree; hide Lists; hide ForestOf; hide Shaped; hide Complete;
    q := SaveLoaded(p, t, name, d);
  }

  lemma SaveLoaded(p: Picture, t: Tree, name: string, d: char) returns (q: Picture)
    requires FreshLoad(p, t.id) && Hangs(p.rows, t, d) && Ids(t) <= p.rows.Keys
    requires !Blank(name) && name != p.rows[t.id].name
    ensures q == RenameSpec(p, t, name, d)
    ensures SameKeys(p, p.rows)
    ensures Effect(p, q, p.rows, Walk(t, Ok(p)), p.rows[t.id].name, name, d)
  {
    var p' := SetMem(p, t.id, name);
    SameOk(p, p');
    SaveEffect(p', t, p.rows, d);
    q := RenameSpec(p, t, name, d);
    MemNameOnly(p, t.id, name, p.rows, Walk(t, Ok(p)), p.rows[t.id].name, d);
  }

  // ----- Where the references go -----

  /** A row of the walk has that name. */
  ghost predicate OnWalk(rows: map<nat, Row>, walk: seq<nat>, x: string) {
    exists i :: i in walk && i in rows && rows[i].name == x
  }

  /** A row saved after the row named x still has the name that x gets. */
  ghost predicate Captured(rows: map<nat, Row>, walk: seq<nat>, x: string, was: string, name: string, d: char) {
    exists a, b ::
      && 0 <= a < b < |walk| && walk[a] in rows && walk[b] in rows
      && rows[walk[a]].name == x && rows[walk[b]].name == RenamePath(x, was, name, d)
  }

  lemma OnWalkMore(rows: map<nat, Row>, init: seq<nat>, last: nat, x: string)
    ensures OnWalk(rows, init + [last], x) <==> OnWalk(rows, init, x) || (last in rows && rows[last].name == x)
  {
    if OnWalk(rows, init, x) {
      var i :| i in init && i in rows && rows[i].name == x;
      assert i in init + [last];
    }
    if last in rows && rows[last].name == x { assert last in init + [last]; }
  }

  lemma {:induction false} FollowOther(rows: map<nat, Row>, walk: seq<nat>, x: string, was: string, name: string,
                                       d: char)
    requires !OnWalk(rows, walk, x)
    ensures Follow(rows, walk, x, was, name, d) == x
  {
    if walk != [] {
      var init, last := walk[..|walk| - 1], walk[|walk| - 1];
      assert walk == init + [last];
      OnWalkMore(rows, init, last, x);
      FollowOther(rows, init, x, was, name, d);
    }
  }

  /** A reference only moves on to longer names, or only to shorter ones, according to the two names. */
  lemma {:induction false} FollowShift(rows: map<nat, Row>, walk: seq<nat>, x: string, was: string, name: string,
                                       d: char)
    requires WalksUnder(rows, walk, was, d)
    ensures |name| > |was| ==>
      var y := Follow(rows, walk, x, was, name, d); |y| >= |x| && (OnWalk(rows, walk, x) ==> |y| > |x|)
    ensures |name| < |was| ==>
      var y := Follow(rows, walk, x, was, name, d); |y| <= |x| && (OnWalk(rows, walk, x) ==> |y| < |x|)
  {
    if walk != [] {
      var init, i := walk[..|walk| - 1], walk[|walk| - 1];
      assert walk == init + [i] && i in walk;
      FollowShift(rows, init, x, was, name, d);
      OnWalkMore(rows, init, i, x);
      hide OnWalk;
      if !OnWalk(rows, init, x) { FollowOther(rows, init, x, was, name, d); }
    }
  }

  /** A reference to a row of the walk ends at the renamed name exactly when it is not captured on the way. */
  lemma FollowIs(rows: map<nat, Row>, walk: seq<nat>, x: string, was: string, name: string, d: char)
    requires WalksUnder(rows, walk, was, d) && was != name
    ensures Follow(rows, walk, x, was, name, d) == RenamePath(x, was, name, d) <==>
      (Under(x, was, d) ==> OnWalk(rows, walk, x) && !Captured(rows, walk, x, was, name, d))
  {
    if OnWalk(rows, walk, x) {
      var a := FirstAt(rows, walk, x);
      FollowFromRow(rows, walk, a, was, name, d);
      var rest := walk[a + 1..];
      OnRest(rows, walk, a, RenamePath(x, was, name, d), was, name, d);
      assert walk[a] in walk && Under(x, was, d);
      if OnWalk(rows, rest, RenamePath(x, was, name, d)) {
        StillMoves(rows, rest, x, was, name, d);
      } else {
        FollowOther(rows, rest, RenamePath(x, was, name, d), was, name, d);
      }
    } else {
      FollowOther(rows, walk, x, was, name, d);
      if Under(x, was, d) { RenamedIsUnder(x, was, name, d); }
    }
  }

  /** The first row of that name. */
  lemma {:induction false} FirstAt(rows: map<nat, Row>, walk: seq<nat>, x: string) returns (a: nat)
    requires OnWalk(rows, walk, x)
    ensures a < |walk| && walk[a] in rows && rows[walk[a]].name == x && !OnWalk(rows, walk[..a], x)
  {
    var init, last := walk[..|walk| - 1], walk[|walk| - 1];
    assert walk == init + [last];
    OnWalkMore(rows, init, last, x);
    if OnWalk(rows, init, x) {
      a := FirstAt(rows, init, x);
      assert walk[..a] == init[..a];
    } else {
      a := |walk| - 1;
    }
  }

  lemma FollowFromRow(rows: map<nat, Row>, walk: seq<nat>, a: nat, was: string, name: string, d: char)
    requires a < |walk| && walk[a] in rows && !OnWalk(rows, walk[..a], rows[walk[a]].name)
    ensures var x := rows[walk[a]].name;
      Follow(rows, walk, x, was, name, d) == Follow(rows, walk[a + 1..], RenamePath(x, was, name, d), was, name, d)
  {
    var x, before := rows[walk[a]].name, walk[..a];
    FollowOther(rows, before, x, was, name, d);
    assert walk[..a + 1][..a] == before;
    assert Follow(rows, walk[..a + 1], x, was, name, d) == RenamePath(x, was, name, d);
    assert walk == walk[..a + 1] + walk[a + 1..];
    FollowOn(rows, walk[..a + 1], walk[a + 1..], x, was, name, d);
  }

  lemma OnRest(rows: map<nat, Row>, walk: seq<nat>, a: nat, y: string, was: string, name: string, d: char)
    requires a < |walk| && walk[a] in rows && !OnWalk(rows, walk[..a], rows[walk[a]].name)
    requires y == RenamePath(rows[walk[a]].name, was, name, d)
    ensures OnWalk(rows, walk[a + 1..], y) <==> Captured(rows, walk, rows[walk[a]].name, was, name, d)
  {
    var x, rest := rows[walk[a]].name, walk[a + 1..];
    if i :| i in rest && i in rows && rows[i].name == y {
      var n :| 0 <= n < |rest| && rest[n] == i;
      assert walk[a + 1 + n] == i;
    }
    forall i | 0 <= i < a && walk[i] in rows ensures rows[walk[i]].name != x { assert walk[..a][i] in walk[..a]; }
    if m, b :| && 0 <= m < b < |walk| && walk[m] in rows && walk[b] in rows
               && rows[walk[m]].name == x && rows[walk[b]].name == y {
      assert rest[b - a - 1] == walk[b] && walk[b] in rest;
    }
  }

  lemma SamePrefix(x: string, a: string, b: string, d: char)
    requires Under(x, a, d) && Under(x, b, d)
    ensures |a| == |b| ==> a == b
  {
    assert a == x[..|a|] && b == x[..|b|];
  }

  /** Once captured, it cannot come back. */
  lemma StillMoves(rows: map<nat, Row>, rest: seq<nat>, x: string, was: string, name: string, d: char)
    requires forall i :: i in rest ==> i in rows && Under(rows[i].name, was, d)
    requires was != name && Under(x, was, d) && OnWalk(rows, rest, RenamePath(x, was, name, d))
    ensures Follow(rows, rest, RenamePath(x, was, name, d), was, name, d) != RenamePath(x, was, name, d)
  {
    var y := RenamePath(x, was, name, d);
    RenamedIsUnder(x, was, name, d);
    var i :| i in rest && i in rows && rows[i].name == y;
    assert Under(y, was, d) && Under(y, name, d);
    SamePrefix(y, was, name, d);
    FollowShift(rows, rest, y, was, name, d);
  }

  /** No row of the walk has the new name of another. */
  ghost predicate NoClash(rows: map<nat, Row>, walk: seq<nat>, was: string, name: string, d: char) {
    forall i, j :: i in walk && j in walk && i in rows && j in rows ==>
                     RenamePath(rows[i].name, was, name, d) != rows[j].name
  }

  /** No row has the target name or lies below it. */
  ghost predicate Free(rows: map<nat, Row>, name: string, d: char) {
    forall i :: i in rows ==> !Under(rows[i].name, name, d)
  }

  lemma Comparable(x: string, a: string, b: string, d: char)
    requires Under(x, a, d) && Under(x, b, d)
    ensures Under(a, b, d) || Under(b, a, d)
  {
    if |a| >= |b| { assert a[..|b|] == x[..|b|]; } else { assert b[..|a|] == x[..|a|]; }
  }

  /** Names that do not lie under each other do not clash, and neither does a target nothing lies under. */
  lemma ApartNoClash(rows: map<nat, Row>, walk: seq<nat>, was: string, name: string, d: char)
    requires WalksUnder(rows, walk, was, d)
    requires (!Under(name, was, d) && !Under(was, name, d)) || Free(rows, name, d)
    ensures NoClash(rows, walk, was, name, d)
  {
    forall i, j | i in walk && j in walk ensures RenamePath(rows[i].name, was, name, d) != rows[j].name {
      RenamedIsUnder(rows[i].name, was, name, d);
      if RenamePath(rows[i].name, was, name, d) == rows[j].name { Comparable(rows[j].name, was, name, d); }
    }
  }

  /** A stored reference follows the saved row it names. */
  ghost function Moved(rows: map<nat, Row>, saved: set<nat>, s: string, was: string, name: string, d: char): string {
    if Names(rows, saved, s) then RenamePath(s, was, name, d) else s
  }

  lemma {:induction false} FollowIsMoved(rows: map<nat, Row>, walk: seq<nat>, x: string, was: string, name: string,
                                         d: char)
    requires NoClash(rows, walk, was, name, d)
    ensures Follow(rows, walk, x, was, name, d) == Moved(rows, Visited(walk), x, was, name, d)
  {
    if walk != [] {
      var init, last := walk[..|walk| - 1], walk[|walk| - 1];
      assert walk == init + [last] && last in walk;
      assert NoClash(rows, init, was, name, d);
      FollowIsMoved(rows, init, x, was, name, d);
      var before := Visited(init);
      var all := Visited(walk);
      assert all == before + {last};
      assert Names(rows, all, x) <==> Names(rows, before, x) || (last in rows && rows[last].name == x);
      if i :| i in before && i in rows && rows[i].name == x { assert i in walk; }
    }
  }

  /** No stored reference is captured. */
  ghost predicate NothingCaptured(p: Picture, walk: seq<nat>, was: string, name: string, d: char) {
    && (forall j :: 0 <= j < |p.filters| ==> !Captured(p.rows, walk, p.filters[j].mailboxName, was, name, d))
    && (forall j :: 0 <= j < |p.nodes| ==> !Captured(p.rows, walk, p.nodes[j].mailbox, was, name, d))
  }

  /** rename_mailbox computes the prefix rewrite if and only if every mailbox in the subtree validates and
      hangs on a row, nothing stored below `was` dangles, and no reference is taken along twice. */
  lemma RenameIsPrefixRename(p: Picture, order: seq<nat>, top: nat, name: string, d: char) returns (q: Picture)
    requires WellFormed(p.rows, d) && FreshLoad(p, top) && Lists(order, p.rows)
    requires !Blank(name) && name != p.rows[top].name
    ensures Ids(LoadedTree(p.rows, order, top, d)) <= p.rows.Keys
    ensures q == RenameSpec(p, LoadedTree(p.rows, order, top, d), name, d)
    ensures PrefixRenamed(p, q, p.rows[top].name, name, d) <==>
      && Renamable(p.rows, top, Ok(p), d) && NoDangling(p, p.rows[top].name, d)
      && NothingCaptured(p, Walk(LoadedTree(p.rows, order, top, d), Ok(p)), p.rows[top].name, name, d)
    ensures forall i :: i in p.rows && i != top ==> i in q.rows && q.rows[i].title == p.rows[i].title
  {
    hide *;
    LoadedFacts(p, top, d);
    q := RenameEffect(p, order, top, name, d);
    var walk := Walk(LoadedTree(p.rows, order, top, d), Ok(p));
    LoadedTreeShaped(p.rows, order, top, d);
    ReachesAll(p.rows, order, top, Ok(p), d);
    EffectIsPrefix(p, q, walk, p.rows[top].name, name, d);
    EffectRows(p, q, p.rows, walk, p.rows[top].name, name, d);
    TitlesKept(p, q, top, walk, p.rows[top].name, name, d);
  }

  lemma LoadedFacts(p: Picture, top: nat, d: char)
    requires WellFormed(p.rows, d) && FreshLoad(p, top)
    ensures AllWellNamed(p.rows, d) && UniqueNames(p.rows) && top in p.rows && SameKeys(p, p.rows)
  {
  }

  lemma TitlesKept(p: Picture, q: Picture, top: nat, walk: seq<nat>, was: string, name: string, d: char)
    requires FreshLoad(p, top) && q.rows == MovedRows(p, p.rows, walk, was, name, d)
    ensures forall i :: i in p.rows && i != top ==> i in q.rows && q.rows[i].title == p.rows[i].title
  {
  }

  lemma RowsRenamed(p: Picture, q: Picture, walk: seq<nat>, was: string, name: string, d: char)
    requires SameKeys(p, p.rows) && was != name && q.rows == MovedRows(p, p.rows, walk, was, name, d)
    requires WalksUnder(p.rows, walk, was, d)
    ensures (forall i :: i in p.rows ==> q.rows[i].name == RenamePath(p.rows[i].name, was, name, d)) <==>
      (forall i :: i in p.rows && Under(p.rows[i].name, was, d) ==> i in walk)
  {
    forall i | i in p.rows
      ensures q.rows[i].name == RenamePath(p.rows[i].name, was, name, d) <==>
        (Under(p.rows[i].name, was, d) ==> i in walk)
    {
      if Under(p.rows[i].name, was, d) { RenamedIsUnder(p.rows[i].name, was, name, d); }
    }
  }

  lemma EffectIsPrefix(p: Picture, q: Picture, walk: seq<nat>, was: string, name: string, d: char)
    requires SameKeys(p, p.rows) && was != name
    requires Effect(p, q, p.rows, walk, was, name, d) && WalksUnder(p.rows, walk, was, d)
    ensures PrefixRenamed(p, q, was, name, d) <==>
      && (forall i :: i in p.rows && Under(p.rows[i].name, was, d) ==> i in walk)
      && NoDangling(p, was, d) && NothingCaptured(p, walk, was, name, d)
  {
    hide *;
    EffectParts(p, q, walk, was, name, d);
    RowsRenamed(p, q, walk, was, name, d);
    if forall i :: i in p.rows && Under(p.rows[i].name, was, d) ==> i in walk {
      forall x
        ensures Follow(p.rows, walk, x, was, name, d) == RenamePath(x, was, name, d) <==>
          (Under(x, was, d) ==> Names(p.rows, p.rows.Keys, x)) && !Captured(p.rows, walk, x, was, name, d)
      {
        FollowAll(p.rows, walk, x, was, name, d);
      }
      FiltersMoved(p, q, walk, was, name, d);
      NodesMoved(p, q, walk, was, name, d);
    }
    PrefixParts(p, q, walk, was, name, d);
  }

  lemma PrefixParts(p: Picture, q: Picture, walk: seq<nat>, was: string, name: string, d: char)
    requires q.rows.Keys == p.rows.Keys && |q.filters| == |p.filters| && |q.nodes| == |p.nodes|
    ensures PrefixRenamed(p, q, was, name, d) <==>
      && (forall i :: i in p.rows ==> q.rows[i].name == RenamePath(p.rows[i].name, was, name, d))
      && (forall j :: 0 <= j < |p.filters| ==>
        q.filters[j] == p.filters[j].(mailboxName := RenamePath(p.filters[j].mailboxName, was, name, d)))
      && (forall j :: 0 <= j < |p.nodes| ==>
        q.nodes[j] == p.nodes[j].(mailbox := RenamePath(p.nodes[j].mailbox, was, name, d)))
    ensures NoDangling(p, was, d) && NothingCaptured(p, walk, was, name, d) <==>
      && (forall j :: 0 <= j < |p.filters| && Under(p.filters[j].mailboxName, was, d) ==>
        Names(p.rows, p.rows.Keys, p.filters[j].mailboxName))
      && (forall j :: 0 <= j < |p.filters| ==> !Captured(p.rows, walk, p.filters[j].mailboxName, was, name, d))
      && (forall j :: 0 <= j < |p.nodes| && Under(p.nodes[j].mailbox, was, d) ==>
        Names(p.rows, p.rows.Keys, p.nodes[j].mailbox))
      && (forall j :: 0 <= j < |p.nodes| ==> !Captured(p.rows, walk, p.nodes[j].mailbox, was, name, d))
  {
    hide RenamePath; hide Under; hide Names; hide Captured;
  }

  lemma EffectParts(p: Picture, q: Picture, walk: seq<nat>, was: string, name: string, d: char)
    requires SameKeys(p, p.rows) && Effect(p, q, p.rows, walk, was, name, d)
    ensures q.rows == MovedRows(p, p.rows, walk, was, name, d) && q.rows.Keys == p.rows.Keys
    ensures q.filters == MovedFilters(p.filters, p.rows, walk, was, name, d) && |q.filters| == |p.filters|
    ensures q.nodes == MovedNodes(p.nodes, p.rows, walk, was, name, d) && |q.nodes| == |p.nodes|
  {
    hide Follow; hide RenamePath;
  }

  /** When the walk takes in everything under the old name. */
  lemma FollowAll(rows: map<nat, Row>, walk: seq<nat>, x: string, was: string, name: string, d: char)
    requires WalksUnder(rows, walk, was, d) && was != name
    requires forall i :: i in rows && Under(rows[i].name, was, d) ==> i in walk
    ensures Follow(rows, walk, x, was, name, d) == RenamePath(x, was, name, d) <==>
      (Under(x, was, d) ==> Names(rows, rows.Keys, x)) && !Captured(rows, walk, x, was, name, d)
  {
    FollowIs(rows, walk, x, was, name, d);
    hide Follow; hide RenamePath;
    if Under(x, was, d) && Names(rows, rows.Keys, x) {
      var i :| i in rows && rows[i].name == x;
      assert i in walk;
    }
    if i :| i in walk && i in rows && rows[i].name == x {
      assert Under(x, was, d) && Names(rows, rows.Keys, x);
    }
  }

  lemma FiltersMoved(p: Picture, q: Picture, walk: seq<nat>, was: string, name: string, d: char)
    requires q.filters == MovedFilters(p.filters, p.rows, walk, was, name, d)
    requires forall x :: Follow(p.rows, walk, x, was, name, d) == RenamePath(x, was, name, d) <==>
      (Under(x, was, d) ==> Names(p.rows, p.rows.Keys, x)) && !Captured(p.rows, walk, x, was, name, d)
    ensures (forall j :: 0 <= j < |p.filters| ==>
        q.filters[j] == p.filters[j].(mailboxName := RenamePath(p.filters[j].mailboxName, was, name, d))) <==>
      && (forall j :: 0 <= j < |p.filters| && Under(p.filters[j].mailboxName, was, d) ==>
        Names(p.rows, p.rows.Keys, p.filters[j].mailboxName))
      && (forall j :: 0 <= j < |p.filters| ==> !Captured(p.rows, walk, p.filters[j].mailboxName, was, name, d))
  {
    hide Captured; hide Under; hide RenamePath; hide Follow;
    forall j | 0 <= j < |p.filters|
      ensures q.filters[j] == p.filters[j].(mailboxName := RenamePath(p.filters[j].mailboxName, was, name, d)) <==>
        Follow(p.rows, walk, p.filters[j].mailboxName, was, name, d)
          == RenamePath(p.filters[j].mailboxName, was, name, d)
    {
      assert q.filters[j].mailboxName == Follow(p.rows, walk, p.filters[j].mailboxName, was, name, d);
    }
  }

  lemma NodesMoved(p: Picture, q: Picture, walk: seq<nat>, was: string, name: string, d: char)
    requires q.nodes == MovedNodes(p.nodes, p.rows, walk, was, name, d)
    requires forall x :: Follow(p.rows, walk, x, was, name, d) == RenamePath(x, was, name, d) <==>
      (Under(x, was, d) ==> Names(p.rows, p.rows.Keys, x)) && !Captured(p.rows, walk, x, was, name, d)
    ensures (forall j :: 0 <= j < |p.nodes| ==>
        q.nodes[j] == p.nodes[j].(mailbox := RenamePath(p.nodes[j].mailbox, was, name, d))) <==>
      && (forall j :: 0 <= j < |p.nodes| && Under(p.nodes[j].mailbox, was, d) ==>
        Names(p.rows, p.rows.Keys, p.nodes[j].mailbox))
      && (forall j :: 0 <= j < |p.nodes| ==> !Captured(p.rows, walk, p.nodes[j].mailbox, was, name, d))
  {
    hide Captured; hide Under; hide RenamePath; hide Follow;
    forall j | 0 <= j < |p.nodes|
      ensures q.nodes[j] == p.nodes[j].(mailbox := RenamePath(p.nodes[j].mailbox, was, name, d)) <==>
        Follow(p.rows, walk, p.nodes[j].mailbox, was, name, d) == RenamePath(p.nodes[j].mailbox, was, name, d)
    {
      assert q.nodes[j].mailbox == Follow(p.rows, walk, p.nodes[j].mailbox, was, name, d);
    }
  }

  // ----- The server side, the tree after a rename, and renaming back -----

  ghost function NameSet(rows: map<nat, Row>): set<string> {
    set i | i in rows :: rows[i].name
  }

  /** RENAME on the server, of a mailbox other than INBOX: it and all its inferiors move. */
  ghost function ServerRename(names: set<string>, was: string, name: string, d: char): set<string> {
    set x | x in names :: RenamePath(x, was, name, d)
  }

  /** Neither name lies under the other. */
  ghost predicate Apart(was: string, name: string, d: char) {
    !Under(name, was, d) && !Under(was, name, d)
  }

  /** After both renames the stored names are the server's if and only if the subtree was renamable. */
  lemma NamesMatchServer(p: Picture, order: seq<nat>, top: nat, name: string, d: char) returns (q: Picture)
    requires WellFormed(p.rows, d) && FreshLoad(p, top) && Lists(order, p.rows) && !IsInbox(p.rows[top].name)
    requires !Blank(name) && name != p.rows[top].name && (Apart(p.rows[top].name, name, d) || Free(p.rows, name, d))
    ensures Ids(LoadedTree(p.rows, order, top, d)) <= p.rows.Keys
    ensures q == RenameSpec(p, LoadedTree(p.rows, order, top, d), name, d)
    ensures NameSet(q.rows) == ServerRename(NameSet(p.rows), p.rows[top].name, name, d) <==>
      Renamable(p.rows, top, Ok(p), d)
  {
    hide *;
    LoadedFacts(p, top, d);
    q := RenameEffect(p, order, top, name, d);
    var walk := Walk(LoadedTree(p.rows, order, top, d), Ok(p));
    ReachesAll(p.rows, order, top, Ok(p), d);
    EffectRows(p, q, p.rows, walk, p.rows[top].name, name, d);
    NameSets(p, q, walk, p.rows[top].name, name, d);
  }

  lemma NameSets(p: Picture, q: Picture, walk: seq<nat>, was: string, name: string, d: char)
    requires SameKeys(p, p.rows) && was != name && (Apart(was, name, d) || Free(p.rows, name, d))
    requires q.rows == MovedRows(p, p.rows, walk, was, name, d) && WalksUnder(p.rows, walk, was, d)
    ensures NameSet(q.rows) == ServerRename(NameSet(p.rows), was, name, d) <==>
      (forall i :: i in p.rows && Under(p.rows[i].name, was, d) ==> i in walk)
  {
    var server := ServerRename(NameSet(p.rows), was, name, d);
    RowsRenamed(p, q, walk, was, name, d);
    forall i | i in p.rows ensures RenamePath(p.rows[i].name, was, name, d) in server {
      assert p.rows[i].name in NameSet(p.rows);
    }
    if forall i :: i in p.rows && Under(p.rows[i].name, was, d) ==> i in walk {
      hide RenamePath; hide Under;
      forall x | x in server ensures x in NameSet(q.rows) {
        var i :| i in p.rows && x == RenamePath(p.rows[i].name, was, name, d);
        assert q.rows[i].name == x;
      }
      forall x | x in NameSet(q.rows) ensures x in server {
        var i :| i in q.rows && q.rows[i].name == x;
      }
    } else {
      var i :| i in p.rows && Under(p.rows[i].name, was, d) && i !in walk;
      var x := p.rows[i].name;
      assert q.rows[i].name == x && x in NameSet(q.rows);
      forall j | j in p.rows ensures x != RenamePath(p.rows[j].name, was, name, d) {
        NotTwice(p.rows[j].name, x, was, name, d);
      }
    }
  }

  lemma NotTwice(y: string, x: string, was: string, name: string, d: char)
    requires Under(x, was, d) && (Apart(was, name, d) || !Under(x, name, d))
    ensures x != RenamePath(y, was, name, d)
  {
    if Under(y, was, d) {
      RenamedIsUnder(y, was, name, d);
      if Under(x, name, d) { Comparable(x, was, name, d); }
    }
  }

  /** A rename commutes with taking the parent, except at the renamed mailbox itself. */
  lemma AncestorRenamed(x: string, was: string, name: string, d: char)
    requires WellNamed(x, d) && WellNamed(was, d) && WellNamed(name, d) && x != was
    ensures WellNamed(RenamePath(x, was, name, d), d)
    ensures AncestorName(RenamePath(x, was, name, d), d) == RenamePath(AncestorName(x, d), was, name, d)
  {
    assert SplitAll(was, d)[0] != "";
    if Under(x, was, d) {
      UnderRest(x, was, d);
      AncestorMoves(x[|was| + 1..], was, name, d);
    } else if Under(AncestorName(x, d), was, d) {
      hide AncestorName;
      UnderAncestor(x, was, d);
    }
  }

  lemma AncestorMoves(s: string, was: string, name: string, d: char)
    requires WellNamed(s, d) && WellNamed(was, d) && WellNamed(name, d)
    ensures WellNamed(name + [d] + s, d)
    ensures RenamePath(was + [d] + s, was, name, d) == name + [d] + s
    ensures AncestorName(name + [d] + s, d) == RenamePath(AncestorName(was + [d] + s, d), was, name, d)
  {
    AncestorBelow(was, s, d);
    AncestorBelow(name, s, d);
    hide AncestorName; hide WellNamed;
    PrefixSwap(s, was, name, d);
    PrefixSwap(AncestorName(s, d), was, name, d);
    assert RenamePath(was, was, name, d) == name;
  }

  lemma PrefixSwap(s: string, was: string, name: string, d: char)
    ensures RenamePath(was + [d] + s, was, name, d) == name + [d] + s
  {
    var x := was + [d] + s;
    assert x[..|was|] == was && x[|was|..] == [d] + s;
    assert name + ([d] + s) == name + [d] + s;
  }

  lemma MovedBackPath(x: string, was: string, name: string, d: char)
    requires Under(x, was, d)
    ensures RenamePath(RenamePath(x, was, name, d), name, was, d) == x
  {
    RenamedIsUnder(x, was, name, d);
    assert RenamePath(x, was, name, d)[|name|..] == x[|was|..];
  }

  lemma RenameInjective(x: string, y: string, was: string, name: string, d: char)
    requires !Under(x, name, d) && !Under(y, name, d)
    requires RenamePath(x, was, name, d) == RenamePath(y, was, name, d)
    ensures x == y
  {
    if Under(x, was, d) { RenamedIsUnder(x, was, name, d); assert x == was + x[|was|..]; }
    if Under(y, was, d) { RenamedIsUnder(y, was, name, d); assert y == was + y[|was|..]; }
    if Under(x, was, d) && Under(y, was, d) {
      assert x[|was|..] == RenamePath(x, was, name, d)[|name|..];
      assert y[|was|..] == RenamePath(y, was, name, d)[|name|..];
    }
  }

  ghost predicate RowsFollow(rows: map<nat, Row>, after: map<nat, Row>, was: string, name: string, d: char) {
    after.Keys == rows.Keys && forall i :: i in rows ==> after[i].name == RenamePath(rows[i].name, was, name, d)
  }

  /** make_tree on the renamed rows links every mailbox but the renamed one to the same parent,
      and the renamed one to the parent its new name asks for. */
  lemma TreeKept(rows: map<nat, Row>, after: map<nat, Row>, top: nat, name: string, d: char)
    requires WellFormed(rows, d) && top in rows && WellNamed(name, d) && Free(rows, name, d)
    requires RowsFollow(rows, after, rows[top].name, name, d)
    ensures WellFormed(after, d)
    ensures forall y, c :: c != top ==> (IsParent(after, y, c, d) <==> IsParent(rows, y, c, d))
    ensures after[top].name == name
  {
    var was := rows[top].name;
    assert after[top].name == name;
    forall i, j | i in rows && j in rows && after[i].name == after[j].name ensures i == j {
      RenameInjective(rows[i].name, rows[j].name, was, name, d);
    }
    forall i | i in rows ensures WellNamed(after[i].name, d) {
      if i != top { AncestorRenamed(rows[i].name, was, name, d); }
    }
    forall y, c | c != top ensures IsParent(after, y, c, d) <==> IsParent(rows, y, c, d) {
      if y in rows && c in rows {
        ParentKept(rows, after, top, y, c, name, d);
      }
    }
  }

  lemma ParentKept(rows: map<nat, Row>, after: map<nat, Row>, top: nat, y: nat, c: nat, name: string, d: char)
    requires WellFormed(rows, d) && top in rows && WellNamed(name, d) && Free(rows, name, d)
    requires RowsFollow(rows, after, rows[top].name, name, d)
    requires y in rows && c in rows && c != top
    ensures IsParent(after, y, c, d) <==> IsParent(rows, y, c, d)
  {
    var was, x := rows[top].name, rows[c].name;
    AncestorRenamed(x, was, name, d);
    assert SplitAll(name, d)[0] != "";
    if Under(AncestorName(x, d), name, d) { UnderAncestor(x, name, d); }
    hide AncestorName; hide WellNamed; hide WellFormed;
    if IsParent(after, y, c, d) {
      RenameInjective(rows[y].name, AncestorName(x, d), was, name, d);
    }
  }

  ghost function Reload(p: Picture): Picture {
    p.(mem := p.rows)
  }

  ghost predicate NoReference(p: Picture, name: string, d: char) {
    && (forall j :: 0 <= j < |p.filters| ==> !Under(p.filters[j].mailboxName, name, d))
    && (forall j :: 0 <= j < |p.nodes| ==> !Under(p.nodes[j].mailbox, name, d))
  }

  /** Nothing is left under the old name, and what lies under the new one came from it. */
  lemma OldStaysFree(rows: map<nat, Row>, after: map<nat, Row>, top: nat, name: string, d: char)
    requires top in rows && Free(rows, name, d) && !Under(name, rows[top].name, d)
    requires RowsFollow(rows, after, rows[top].name, name, d)
    ensures Free(after, rows[top].name, d)
    ensures forall x :: x in rows ==> (Under(after[x].name, name, d) <==> Under(rows[x].name, rows[top].name, d))
  {
    var was := rows[top].name;
    forall x | x in rows
      ensures !Under(after[x].name, was, d)
      ensures Under(after[x].name, name, d) <==> Under(rows[x].name, was, d)
    {
      if Under(rows[x].name, was, d) {
        RenamedIsUnder(rows[x].name, was, name, d);
        if Under(after[x].name, was, d) {
          Comparable(after[x].name, name, was, d);
        }
      }
    }
  }

  lemma MovedBack(rows: map<nat, Row>, after: map<nat, Row>, saved: set<nat>, x: string, was: string, name: string,
                  d: char)
    requires saved <= rows.Keys && RowsFollow(rows, after, was, name, d)
    requires forall i :: i in saved <==> i in rows && Under(rows[i].name, was, d)
    requires !Under(x, name, d)
    ensures Moved(after, saved, Moved(rows, saved, x, was, name, d), name, was, d) == x
  {
    if Names(rows, saved, x) {
      RenamedIsUnder(x, was, name, d);
      var i :| i in saved && rows[i].name == x;
      var y := RenamePath(x, was, name, d);
      assert after[i].name == y;
      assert y[|name|..] == x[|was|..];
    } else if Names(after, saved, x) {
      var i :| i in saved && i in after && after[i].name == x;
      RenamedIsUnder(rows[i].name, was, name, d);
      assert false;
    }
  }

  lemma FollowedBack(rows: map<nat, Row>, after: map<nat, Row>, there: seq<nat>, back: seq<nat>, x: string,
                     was: string, name: string, d: char)
    requires RowsFollow(rows, after, was, name, d) && Free(rows, name, d) && Free(after, was, d)
    requires forall i :: i in there <==> i in rows && Under(rows[i].name, was, d)
    requires forall i :: i in back <==> i in there
    requires forall i :: i in there ==> Under(after[i].name, name, d)
    requires !Under(x, name, d)
    ensures Follow(after, back, Follow(rows, there, x, was, name, d), name, was, d) == x
  {
    ApartNoClash(rows, there, was, name, d);
    ApartNoClash(after, back, name, was, d);
    var saved := Visited(there);
    assert saved == Visited(back);
    FollowIsMoved(rows, there, x, was, name, d);
    FollowIsMoved(after, back, Follow(rows, there, x, was, name, d), name, was, d);
    MovedBack(rows, after, saved, x, was, name, d);
  }

  /** Renaming to a free, unmentioned name and back restores rows, filters and cached nodes. */
  lemma RenameThereAndBack(p: Picture, order: seq<nat>, top: nat, name: string, d: char)
    returns (q: Picture, r: Picture)
    requires WellFormed(p.rows, d) && p.mem == p.rows && top in p.rows && Lists(order, p.rows)
    requires WellNamed(name, d) && name != p.rows[top].name && Free(p.rows, name, d)
    requires !Blank(name) && !Blank(p.rows[top].name)
    requires Renamable(p.rows, top, Ok(p), d) && !Under(name, p.rows[top].name, d) && NoReference(p, name, d)
    ensures Ids(LoadedTree(p.rows, order, top, d)) <= p.rows.Keys
    ensures q == RenameSpec(p, LoadedTree(p.rows, order, top, d), name, d)
    ensures WellFormed(q.rows, d) && q.rows.Keys == p.rows.Keys
    ensures Ids(LoadedTree(q.rows, order, top, d)) <= q.rows.Keys
    ensures r == RenameSpec(Reload(q), LoadedTree(q.rows, order, top, d), p.rows[top].name, d)
    ensures r.rows == p.rows && r.filters == p.filters && r.nodes == p.nodes
  {
    var was := p.rows[top].name;
    hide WellNamed; hide AncestorName; hide Ids; hide Lists; hide Shaped; hide Complete; hide AllWellNamed;
    hide UniqueNames; hide Renamable; hide LoadedTree; hide Walk; hide RenameSpec; hide Ok; hide NoReference;
    hide ForestOf; hide Free; hide Hangs; hide Under; hide MovedFilters; hide MovedNodes;
    q := RenameEffect(p, order, top, name, d);
    var there := Walk(LoadedTree(p.rows, order, top, d), Ok(p));
    ReachesAll(p.rows, order, top, Ok(p), d);
    BackReady(p, q, top, there, name, d);
    SameList(order, p.rows, q.rows);
    r := RenameEffect(Reload(q), order, top, was, d);
    ReachesAll(q.rows, order, top, Ok(Reload(q)), d);
    BackEffect(p, q, r, there, Walk(LoadedTree(q.rows, order, top, d), Ok(Reload(q))), was, name, d);
  }

  lemma SameList(order: seq<nat>, rows: map<nat, Row>, after: map<nat, Row>)
    requires Lists(order, rows) && rows.Keys == after.Keys
    ensures Lists(order, after)
  {
  }

  lemma BackReady(p: Picture, q: Picture, top: nat, there: seq<nat>, name: string, d: char)
    requires WellFormed(p.rows, d) && p.mem == p.rows && top in p.rows
    requires WellNamed(name, d) && Free(p.rows, name, d) && !Under(name, p.rows[top].name, d)
    requires Renamable(p.rows, top, Ok(p), d) && q.mem.Keys == p.mem.Keys
    requires forall i :: i in there <==> i in p.rows && Under(p.rows[i].name, p.rows[top].name, d)
    requires q.rows == MovedRows(p, p.rows, there, p.rows[top].name, name, d)
    ensures WellFormed(q.rows, d) && q.rows.Keys == p.rows.Keys && q.rows[top].name == name
    ensures RowsFollow(p.rows, q.rows, p.rows[top].name, name, d)
    ensures Free(q.rows, p.rows[top].name, d)
    ensures forall i :: i in p.rows ==> (Under(q.rows[i].name, name, d) <==> i in there)
    ensures Renamable(q.rows, top, Ok(Reload(q)), d)
  {
    var was := p.rows[top].name;
    hide WellNamed; hide AncestorName; hide AllWellNamed; hide UniqueNames;
    assert RowsFollow(p.rows, q.rows, was, name, d);
    TreeKept(p.rows, q.rows, top, name, d);
    OldStaysFree(p.rows, q.rows, top, name, d);
    SameOk(p, Reload(q));
    BackRenamable(p, q, top, name, d);
  }

  lemma BackRenamable(p: Picture, q: Picture, top: nat, name: string, d: char)
    requires q.rows.Keys == p.rows.Keys && top in p.rows && q.rows[top].name == name && Renamable(p.rows, top, Ok(p), d)
    requires Ok(Reload(q)) == Ok(p)
    requires forall x :: x in p.rows ==>
      (Under(q.rows[x].name, name, d) <==> Under(p.rows[x].name, p.rows[top].name, d))
    requires forall y, c :: c != top ==> (IsParent(q.rows, y, c, d) <==> IsParent(p.rows, y, c, d))
    ensures Renamable(q.rows, top, Ok(Reload(q)), d)
  {
    hide Under; hide Ok; hide Reload; hide IsParent;
    forall x | x in q.rows && Under(q.rows[x].name, q.rows[top].name, d)
      ensures x in Ok(Reload(q)) && (x == top || HasParent(q.rows, x, d))
    {
      if x != top {
        assert HasParent(p.rows, x, d);
        var y :| IsParent(p.rows, y, x, d);
        assert IsParent(q.rows, y, x, d);
      }
    }
  }

  lemma BackEffect(p: Picture, q: Picture, r: Picture, there: seq<nat>, back: seq<nat>, was: string, name: string,
                   d: char)
    requires SameKeys(p, p.rows) && p.mem == p.rows && SameKeys(Reload(q), q.rows)
    requires NoReference(p, name, d) && Free(p.rows, name, d) && Free(q.rows, was, d)
    requires forall i :: i in there <==> i in p.rows && Under(p.rows[i].name, was, d)
    requires forall i :: i in back <==> i in there
    requires forall i :: i in there ==> i in q.rows && Under(q.rows[i].name, name, d)
    requires RowsFollow(p.rows, q.rows, was, name, d)
    requires Effect(p, q, p.rows, there, was, name, d)
    requires Effect(Reload(q), r, q.rows, back, name, was, d)
    ensures r.rows == p.rows && r.filters == p.filters && r.nodes == p.nodes
  {
    hide Follow;
    forall i | i in p.rows ensures r.rows[i] == p.rows[i] {
      if i in there {
        RenamedIsUnder(p.rows[i].name, was, name, d);
        assert q.rows[i].name[|name|..] == p.rows[i].name[|was|..];
      }
    }
    hide Under; hide RenamePath; hide Free;
    forall j | 0 <= j < |p.filters| ensures r.filters[j] == p.filters[j] {
      FollowedBack(p.rows, q.rows, there, back, p.filters[j].mailboxName, was, name, d);
    }
    forall j | 0 <= j < |p.nodes| ensures r.nodes[j] == p.nodes[j] {
      FollowedBack(p.rows, q.rows, there, back, p.nodes[j].mailbox, was, name, d);
    }
  }

  // ----- A subtree that is not renamable -----

  /** Mailbox A and, below it, A.b with a title that would not validate; a sync stores titles unchecked. */
  function TwoBoxes(): map<nat, Row> {
    map[1 := Row("A", "A"), 2 := Row("A.b", "b/c")]
  }

  lemma TwoBoxesWellFormed()
    ensures WellFormed(TwoBoxes(), '.') && Lists([1, 2], TwoBoxes()) && Free(TwoBoxes(), "B", '.')
    ensures !Blank("B") && !Blank("A") && !Blank("A.b") && !IsInbox("A") && !ValidTitle("b/c") && Under("A.b", "A", '.')
  {
    Indivisible("A", '.');
    Indivisible("b", '.');
    WellNamedConcat("A", "b", '.');
    assert "A" + ['.'] + "b" == "A.b";
    assert WellNamed("A", '.') && WellNamed("b", '.') && WellNamed("A.b", '.');
    assert !IsSpace("B"[0]) && !IsSpace("A"[0]) && !IsSpace("A.b"[0]) && "b/c"[1] == '/';
    hide WellNamed;
    assert forall i :: i in TwoBoxes() ==> i == 1 || i == 2;
  }

  /** Renaming A to B on the server moves A.b too, but its row keeps the old name. */
  lemma ChildNotRenamed() returns (q: Picture)
    ensures WellFormed(TwoBoxes(), '.')
    ensures var p, t := Picture(TwoBoxes(), [Filter(true, "A.b")], [], TwoBoxes()),
      LoadedTree(TwoBoxes(), [1, 2], 1, '.');
      && Ids(t) <= p.rows.Keys && q == RenameSpec(p, t, "B", '.')
      && !PrefixRenamed(p, q, "A", "B", '.') && NameSet(q.rows) != ServerRename(NameSet(p.rows), "A", "B", '.')
  {
    TwoBoxesWellFormed();
    var p := Picture(TwoBoxes(), [Filter(true, "A.b")], [], TwoBoxes());
    assert FreshLoad(p, 1) && p.rows[1].name == "A" && p.rows[2] == Row("A.b", "b/c");
    hide WellFormed; hide Lists; hide Free; hide Blank; hide PrefixRenamed; hide NameSet; hide RenameSpec;
    hide LoadedTree; hide Under; hide ValidTitle;
    q := NamesMatchServer(p, [1, 2], 1, "B", '.');
    var r := RenameIsPrefixRename(p, [1, 2], 1, "B", '.');
    assert 2 !in Ok(p);
  }
}
