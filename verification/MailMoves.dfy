/** The two ways of moving mail, and the copies of every message. */
module MailMoves {
  import opened Collections
  import opened MailServer

  function AsSet(uids: seq<nat>): set<nat> {
    set u | u in uids
  }

  function MoveByMove(s: Server, src: string, dst: string, uids: seq<nat>): (Server, nat)
    requires src in s && dst in s && src != dst
  {
    (UidMove(s, src, dst, AsSet(uids)), |uids|)
  }

  /** The count is the number of messages the STORE answered for. */
  function MoveByCopy(s: Server, src: string, dst: string, uids: seq<nat>): (Server, nat)
    requires src in s && dst in s && src != dst
  {
    (StoreExpunge(UidCopy(s, src, dst, AsSet(uids)), src, AsSet(uids)), |Selected(s[src], AsSet(uids))|)
  }

  function MoveAll(s: Server, hasMove: bool, src: string, dst: string, uids: seq<nat>): (Server, nat)
    requires src in s && dst in s
  {
    if src == dst || |uids| == 0 then (s, 0)
    else if hasMove then MoveByMove(s, src, dst, uids)
    else MoveByCopy(s, src, dst, uids)
  }

  function CopyAll(s: Server, src: string, dst: string, uids: seq<nat>): (Server, nat)
    requires src in s && dst in s
  {
    if |uids| == 0 then (s, 0) else (UidCopy(s, src, dst, AsSet(uids)), |uids|)
  }

  function DeleteAll(s: Server, box: string, uids: seq<nat>): (Server, nat)
    requires box in s
  {
    if |uids| == 0 then (s, 0) else (StoreExpunge(s, box, AsSet(uids)), |Selected(s[box], AsSet(uids))|)
  }

  /** trash_mails; `inTrash` says whether the mailbox has the trash among its ancestors or is it. */
  function TrashAll(s: Server, hasMove: bool, box: string, inTrash: bool, trash: string, uids: seq<nat>): (Server, nat)
    requires box in s && trash in s
  {
    if inTrash then DeleteAll(s, box, uids) else MoveAll(s, hasMove, box, trash, uids)
  }

  lemma {:induction false} SetSize(uids: seq<nat>)
    ensures |AsSet(uids)| <= |uids|
    ensures |AsSet(uids)| == |uids| <==> NoRepeats(uids)
  {
    if uids != [] {
      var init, last := uids[..|uids| - 1], uids[|uids| - 1];
      SetSize(init);
      assert uids == init + [last];
      assert AsSet(uids) == AsSet(init) + {last};
      if last in init {
        assert AsSet(uids) == AsSet(init);
        var i :| 0 <= i < |init| && init[i] == last;
        assert uids[i] == uids[|uids| - 1];
      } else {
        assert |AsSet(uids)| == |AsSet(init)| + 1;
        if NoRepeats(init) {
          forall i, j | 0 <= i < j < |uids| ensures uids[i] != uids[j] {
            if j == |uids| - 1 { assert init[i] != last; } else { assert init[i] != init[j]; }
          }
        } else {
          var i, j :| 0 <= i < j < |init| && init[i] == init[j];
          assert uids[i] == uids[j];
        }
      }
    }
  }

  lemma SelectedSize(b: Box, uids: set<nat>)
    ensures |Selected(b, uids)| <= |uids|
    ensures |Selected(b, uids)| == |uids| <==> forall u :: u in uids ==> u in b.msgs
  {
    var keys := Selected(b, uids).Keys;
    var rest := uids - keys;
    assert keys <= uids && uids == keys + rest;
    assert |uids| == |keys| + |rest|;
    if rest == {} { assert keys == uids; } else { var u :| u in rest; }
  }

  lemma MoveByCopyIs(s: Server, src: string, dst: string, uids: seq<nat>)
    requires src in s && dst in s && src != dst
    ensures var u := AsSet(uids);
      MoveByCopy(s, src, dst, uids).0 ==
        s[dst := Deliver(s[dst], Picked(s[src], u))][src := Without(s[src], u + DeletedUids(s[src]))]
  {
    StoreExpungeIs(UidCopy(s, src, dst, AsSet(uids)), src, AsSet(uids));
  }

  /** Both ways reach the same store exactly when nothing else in the source was flagged deleted,
      and report the same count exactly when every UID was given once and exists. */
  lemma MovesAgree(s: Server, src: string, dst: string, uids: seq<nat>)
    requires src in s && dst in s && src != dst
    ensures MoveByCopy(s, src, dst, uids).0 == MoveByMove(s, src, dst, uids).0 <==> DeletedUids(s[src]) <= AsSet(uids)
    ensures MoveByCopy(s, src, dst, uids).1 == MoveByMove(s, src, dst, uids).1 <==>
      NoRepeats(uids) && forall u :: u in uids ==> u in s[src].msgs
  {
    var u := AsSet(uids);
    MoveByCopyIs(s, src, dst, uids);
    SameRemains(s[src], u);
    var a, b := MoveByCopy(s, src, dst, uids).0, MoveByMove(s, src, dst, uids).0;
    assert a[src] == Without(s[src], u + DeletedUids(s[src])) && b[src] == Without(s[src], u);
    if DeletedUids(s[src]) <= u { assert u + DeletedUids(s[src]) == u; }
    SetSize(uids);
    SelectedSize(s[src], u);
  }

  lemma SameRemains(b: Box, u: set<nat>)
    ensures Without(b, u + DeletedUids(b)) == Without(b, u) <==> DeletedUids(b) <= u
  {
    if DeletedUids(b) <= u {
      assert u + DeletedUids(b) == u;
    } else {
      var x :| x in DeletedUids(b) && x !in u;
      assert x in Without(b, u).msgs && x !in Without(b, u + DeletedUids(b)).msgs;
    }
  }

  /** The numbers reported: the UIDs given for MOVE and COPY, those that exist for a deletion and a move by COPY. */
  lemma NumbersReported(s: Server, hasMove: bool, src: string, dst: string, uids: seq<nat>)
    requires src in s && dst in s
    ensures var there := set u | u in s[src].msgs && u in uids;
      && DeleteAll(s, src, uids).1 == |there| && CopyAll(s, src, dst, uids).1 == |uids|
      && MoveAll(s, hasMove, src, dst, uids).1 == if src == dst then 0 else if hasMove then |uids| else |there|
  {
    var there := set u | u in s[src].msgs && u in uids;
    assert Selected(s[src], AsSet(uids)).Keys == there;
    if |uids| == 0 { assert there == {}; }
  }

  // ----- Conservation -----

  /** Messages of the source that a copying move destroys besides moving. */
  function Collateral(b: Box, uids: seq<nat>): seq<Message> {
    Picked(b, DeletedUids(b) - AsSet(uids))
  }

  ghost predicate OthersKept(s: Server, t: Server, src: string, dst: string) {
    s.Keys == t.Keys && forall x :: x in s && x != src && x != dst ==> t[x] == s[x]
  }

  /** Copies of a message over the two mailboxes. */
  ghost function Pair(s: Server, src: string, dst: string, x: Message): nat
    requires src in s && dst in s
  {
    Held(s[src], x) + Held(s[dst], x)
  }

  lemma MoveConserves(s: Server, src: string, dst: string, uids: seq<nat>, x: Message)
    requires src in s && dst in s && src != dst && ServerOk(s)
    ensures OthersKept(s, MoveByMove(s, src, dst, uids).0, src, dst)
    ensures Pair(MoveByMove(s, src, dst, uids).0, src, dst, x) == Pair(s, src, dst, x)
  {
    var u := AsSet(uids);
    DeliverAdds(s[dst], Picked(s[src], u), x);
    TakeOut(s[src], u, x);
  }

  /** Copying adds the existing messages to the destination and takes nothing away. */
  lemma CopyAdds(s: Server, src: string, dst: string, uids: seq<nat>, x: Message)
    requires src in s && dst in s && ServerOk(s)
    ensures var t := CopyAll(s, src, dst, uids).0;
      && OthersKept(s, t, dst, dst) && Held(t[dst], x) == Held(s[dst], x) + CountIn(Picked(s[src], AsSet(uids)), x)
      && forall u :: u in s[dst].msgs ==> u in t[dst].msgs && t[dst].msgs[u] == s[dst].msgs[u]
  {
    if |uids| == 0 {
      TakeOut(s[src], {}, x);
      assert AsSet(uids) == {} && Without(s[src], {}) == s[src];
    } else {
      DeliverAdds(s[dst], Picked(s[src], AsSet(uids)), x);
      DeliverKeeps(s[dst], Picked(s[src], AsSet(uids)));
    }
  }

  /** A copying move loses exactly the source messages that were already flagged deleted. */
  lemma CopyMoveConserves(s: Server, src: string, dst: string, uids: seq<nat>, x: Message)
    requires src in s && dst in s && src != dst && ServerOk(s)
    ensures OthersKept(s, MoveByCopy(s, src, dst, uids).0, src, dst)
    ensures Pair(MoveByCopy(s, src, dst, uids).0, src, dst, x) + CountIn(Collateral(s[src], uids), x)
      == Pair(s, src, dst, x)
  {
    var u := AsSet(uids);
    var more := DeletedUids(s[src]) - u;
    MoveByCopyIs(s, src, dst, uids);
    DeliverAdds(s[dst], Picked(s[src], u), x);
    TakeOut(s[src], u, x);
    TakeOut(Without(s[src], u), more, x);
    assert Without(Without(s[src], u), more) == Without(s[src], u + DeletedUids(s[src]));
    assert Selected(Without(s[src], u), more) == Selected(s[src], more);
  }

  /** trash_mails keeps every message, copy for copy, unless the mailbox is in the trash or a
      copying move meets messages someone else had flagged deleted. */
  lemma TrashConserves(s: Server, hasMove: bool, box: string, trash: string, uids: seq<nat>, x: Message)
    requires box in s && trash in s && box != trash && ServerOk(s)
    requires hasMove || DeletedUids(s[box]) <= AsSet(uids)
    ensures var t := TrashAll(s, hasMove, box, false, trash, uids).0;
      OthersKept(s, t, box, trash) && Pair(t, box, trash, x) == Pair(s, box, trash, x)
  {
    if |uids| > 0 {
      MoveConserves(s, box, trash, uids, x);
      if !hasMove { MovesAgree(s, box, trash, uids); }
    }
  }

  /** Inside the trash it destroys the given messages and those already flagged deleted. */
  lemma TrashInTrashDestroys(s: Server, hasMove: bool, box: string, trash: string, uids: seq<nat>, x: Message)
    requires box in s && trash in s && |uids| > 0
    ensures var t := TrashAll(s, hasMove, box, true, trash, uids).0;
      && t.Keys == s.Keys && (forall y :: y in s && y != box ==> t[y] == s[y])
      && t[box].msgs.Keys == s[box].msgs.Keys - AsSet(uids) - DeletedUids(s[box])
      && Held(t[box], x) + CountIn(Picked(s[box], AsSet(uids) + DeletedUids(s[box])), x) == Held(s[box], x)
  {
    StoreExpungeIs(s, box, AsSet(uids));
    TakeOut(s[box], AsSet(uids) + DeletedUids(s[box]), x);
  }

  /** Moving message 1 by COPY destroys message 2, which somebody else had flagged deleted. */
  lemma FlaggedNeighbourLost(x: Message, y: Message)
    requires Deleted !in x.flags && Deleted in y.flags
    ensures var s := map["a" := Box(3, map[1 := x, 2 := y]), "b" := Box(1, map[])];
      && MoveAll(s, true, "a", "b", [1]).0["a"].msgs.Keys == {2}
      && MoveAll(s, false, "a", "b", [1]).0["a"].msgs == map[]
  {
    var s := map["a" := Box(3, map[1 := x, 2 := y]), "b" := Box(1, map[])];
    MoveByCopyIs(s, "a", "b", [1]);
    assert s["a"].msgs[2] == y && 2 in DeletedUids(s["a"]) && 2 !in AsSet([1]);
  }
}
