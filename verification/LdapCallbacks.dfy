/** disable_users: what the callbacks of destroyed groups do to a user, one after another. */
module LdapCallbacks {
  import opened Collections
  import opened LdapSync

  /** Relations of a user to groups that exist. */
  function LiveRels(rels: seq<nat>, live: set<nat>): nat {
    if rels == [] then 0 else LiveRels(rels[..|rels| - 1], live) + if rels[|rels| - 1] in live then 1 else 0
  }

  function LiveIds(groups: map<string, Group>): set<nat> {
    set c | c in groups :: groups[c].id
  }

  /** The callback of the group with this id, for one user. */
  function Disabled(u: User, id: nat, live: set<nat>): User {
    if id in u.rels && LiveRels(u.rels, live) == 1 && u.savable then u.(enabled := false) else u
  }

  ghost function IdSet(order: seq<nat>): set<nat> {
    set id | id in order
  }

  /** A user after the callbacks of the groups `order`; when one runs, the groups before it are deleted. */
  ghost function CalledBack(u: User, live: set<nat>, order: seq<nat>): User {
    if order == [] then u
    else
      var init := order[..|order| - 1];
      Disabled(CalledBack(u, live, init), order[|order| - 1], live - IdSet(init))
  }

  ghost predicate UsersAfter(a: map<string, User>, b: map<string, User>, live: set<nat>, order: seq<nat>) {
    b.Keys == a.Keys && forall u :: u in a ==> b[u] == CalledBack(a[u], live, order)
  }

  lemma {:induction false} CalledBackOn(u: User, live: set<nat>, x: seq<nat>, y: seq<nat>)
    ensures CalledBack(u, live, x + y) == CalledBack(CalledBack(u, live, x), live - IdSet(x), y)
  {
    if y == [] {
      assert x + y == x;
    } else {
      var init := y[..|y| - 1];
      CalledBackOn(u, live, x, init);
      assert (x + y)[..|x + y| - 1] == x + init;
      assert live - IdSet(x) - IdSet(init) == live - IdSet(x + init);
      hide Disabled;
    }
  }

  /** Callbacks after one another. */
  lemma UsersAfterOn(a: map<string, User>, b: map<string, User>, c: map<string, User>, live: set<nat>, x: seq<nat>,
                     y: seq<nat>)
    requires UsersAfter(a, b, live, x) && UsersAfter(b, c, live - IdSet(x), y)
    ensures UsersAfter(a, c, live, x + y)
  {
    hide CalledBack;
    forall u | u in a ensures c[u] == CalledBack(a[u], live, x + y) { CalledBackOn(a[u], live, x, y); }
  }

  lemma OneCallback(a: map<string, User>, b: map<string, User>, live: set<nat>, id: nat)
    requires b.Keys == a.Keys && forall u :: u in a ==> b[u] == Disabled(a[u], id, live)
    ensures UsersAfter(a, b, live, [id])
  {
    hide Disabled;
    assert live - IdSet([]) == live;
    forall u | u in a ensures b[u] == CalledBack(a[u], live, [id]) {
      assert [id][..0] == [];
      assert CalledBack(a[u], live, []) == a[u];
    }
  }

  // ----- Who is disabled -----

  /** Exactly one of the relations is to a group in s. */
  ghost predicate OneIn(rels: seq<nat>, s: set<nat>) {
    exists k: nat :: OnlyAt(rels, s, k)
  }

  ghost predicate OnlyAt(rels: seq<nat>, s: set<nat>, k: nat) {
    k < |rels| && rels[k] in s && forall l :: 0 <= l < |rels| && l != k ==> rels[l] !in s
  }

  ghost predicate NoneIn(rels: seq<nat>, s: set<nat>) {
    forall k :: 0 <= k < |rels| ==> rels[k] !in s
  }

  lemma {:induction false} NoLiveRels(rels: seq<nat>, live: set<nat>)
    ensures LiveRels(rels, live) == 0 <==> NoneIn(rels, live)
  {
    if rels != [] {
      var init, last := rels[..|rels| - 1], rels[|rels| - 1];
      NoLiveRels(init, live);
      assert rels == init + [last];
      if NoneIn(rels, live) { assert forall k :: 0 <= k < |init| ==> init[k] == rels[k]; }
    }
  }

  lemma OnlyAtLast(init: seq<nat>, last: nat, s: set<nat>, k: nat)
    ensures OnlyAt(init + [last], s, k) <==>
      if last in s then k == |init| && NoneIn(init, s) else OnlyAt(init, s, k)
  {
    var rels := init + [last];
    assert rels[|init|] == last && forall l :: 0 <= l < |init| ==> rels[l] == init[l];
  }

  lemma OneInLast(init: seq<nat>, last: nat, s: set<nat>)
    ensures OneIn(init + [last], s) <==> if last in s then NoneIn(init, s) else OneIn(init, s)
  {
    forall k: nat
      ensures OnlyAt(init + [last], s, k) <==> if last in s then k == |init| && NoneIn(init, s) else OnlyAt(init, s, k)
    {
      OnlyAtLast(init, last, s, k);
    }
    hide OnlyAt; hide NoneIn;
    if last in s && NoneIn(init, s) { assert OnlyAt(init + [last], s, |init|); }
    if OneIn(init + [last], s) { var k: nat :| OnlyAt(init + [last], s, k); }
    if k: nat :| last !in s && OnlyAt(init, s, k) { assert OnlyAt(init + [last], s, k); }
  }

  lemma {:induction false} LiveRelsIs(rels: seq<nat>, live: set<nat>)
    ensures LiveRels(rels, live) == 1 <==> OneIn(rels, live)
  {
    if rels != [] {
      var init, last := rels[..|rels| - 1], rels[|rels| - 1];
      LiveRelsIs(init, live);
      NoLiveRels(init, live);
      assert rels == init + [last];
      OneInLast(init, last, live);
      hide OneIn; hide NoneIn;
    }
  }

  /** Callback number i finds a single relation left, and to its own group or, if that is deleted, another. */
  ghost predicate FiresAt(rels: seq<nat>, live: set<nat>, order: seq<nat>, i: nat)
    requires i < |order|
  {
    order[i] in rels && OneIn(rels, live - IdSet(order[..i]))
  }

  ghost predicate Fires(rels: seq<nat>, live: set<nat>, order: seq<nat>) {
    exists i :: 0 <= i < |order| && FiresAt(rels, live, order, i)
  }

  /** A user is disabled if and only if its record can be saved and some callback for one of its groups finds
      exactly one of its relations left. */
  lemma {:induction false} CalledBackIs(u: User, live: set<nat>, order: seq<nat>)
    ensures CalledBack(u, live, order) == u.(enabled := u.enabled && !(u.savable && Fires(u.rels, live, order)))
  {
    if order != [] {
      var n := |order| - 1;
      var init := order[..n];
      CalledBackIs(u, live, init);
      LiveRelsIs(u.rels, live - IdSet(init));
      forall i: nat | i < n ensures FiresAt(u.rels, live, order, i) <==> FiresAt(u.rels, live, init, i) {
        assert init[..i] == order[..i];
      }
      assert FiresAt(u.rels, live, order, n) <==> order[n] in u.rels && OneIn(u.rels, live - IdSet(init));
      hide FiresAt;
    }
  }

  lemma LastOne(rels: seq<nat>, left: set<nat>, id: nat)
    requires NoRepeats(rels) && !NoneIn(rels, left) && NoneIn(rels, left - {id})
    ensures id in rels && OneIn(rels, left)
  {
    var k :| 0 <= k < |rels| && rels[k] in left;
    assert rels[k] == id;
    forall l | 0 <= l < |rels| && l != k ensures rels[l] !in left { assert rels[l] != rels[k]; }
    assert OnlyAt(rels, left, k);
  }

  lemma {:induction false} LastGoneFires(rels: seq<nat>, live: set<nat>, order: seq<nat>, r: nat)
    requires NoRepeats(rels) && IdSet(order) <= live && r in rels && r in order && NoneIn(rels, live - IdSet(order))
    ensures Fires(rels, live, order)
  {
    var n := |order| - 1;
    var init, last := order[..n], order[n];
    assert order == init + [last];
    assert IdSet(order) == IdSet(init) + {last};
    assert live - IdSet(order) == live - IdSet(init) - {last};
    if NoneIn(rels, live - IdSet(init)) {
      assert r in live && r in init;
      hide NoneIn; hide OneIn; hide NoRepeats;
      LastGoneFires(rels, live, init, r);
      var i :| 0 <= i < |init| && FiresAt(rels, live, init, i);
      assert init[..i] == order[..i];
      assert FiresAt(rels, live, order, i);
    } else {
      hide NoneIn; hide OneIn; hide NoRepeats;
      LastOne(rels, live - IdSet(init), last);
      assert FiresAt(rels, live, order, n);
    }
  }

  /** A callback that runs while its group is there and finds one relation left takes the last one. */
  lemma FirstRunTakesLast(rels: seq<nat>, live: set<nat>, order: seq<nat>, i: nat)
    requires i < |order| && IdSet(order) <= live && FiresAt(rels, live, order, i) && order[i] !in order[..i]
    ensures NoneIn(rels, live - IdSet(order))
  {
    var left := live - IdSet(order[..i]);
    assert order[i] in IdSet(order);
    var k: nat :| OnlyAt(rels, left, k);
    var m :| 0 <= m < |rels| && rels[m] == order[i];
    assert m == k;
    assert live - IdSet(order) <= left - {order[i]};
  }

  lemma FewerLeft(rels: seq<nat>, live: set<nat>, order: seq<nat>, i: nat)
    requires i < |order| && OneIn(rels, live - IdSet(order[..i]))
    ensures NoneIn(rels, live - IdSet(order)) || OneIn(rels, live - IdSet(order))
  {
    var left, end := live - IdSet(order[..i]), live - IdSet(order);
    assert end <= left;
    var k: nat :| OnlyAt(rels, left, k);
    if rels[k] in end { assert OnlyAt(rels, end, k); } else { assert NoneIn(rels, end); }
  }

  /** The callback i runs on a group that an earlier cascade deleted. */
  ghost predicate RunsAgain(order: seq<nat>, i: nat)
    requires i < |order|
  {
    order[i] in order[..i]
  }

  /** For a user whose record can be saved and that has no relation twice: with none of its groups left it is
      disabled if and only if one of them was deleted; with one left, if and only if a callback for a group already
      deleted ran when that one was the only one left; with more left it never is. */
  lemma DisabledIff(u: User, live: set<nat>, order: seq<nat>)
    requires NoRepeats(u.rels) && IdSet(order) <= live && u.savable && u.enabled
    ensures var end, off := live - IdSet(order), !CalledBack(u, live, order).enabled;
      && (NoneIn(u.rels, end) ==> (off <==> exists g :: g in u.rels && g in order))
      && (OneIn(u.rels, end) ==>
        (off <==> exists i :: 0 <= i < |order| && RunsAgain(order, i) && FiresAt(u.rels, live, order, i)))
      && (!NoneIn(u.rels, end) && !OneIn(u.rels, end) ==> !off)
  {
    var end := live - IdSet(order);
    CalledBackIs(u, live, order);
    hide OneIn; hide NoneIn; hide CalledBack;
    if g :| NoneIn(u.rels, end) && g in u.rels && g in order { LastGoneFires(u.rels, live, order, g); }
    forall i: nat | i < |order| && FiresAt(u.rels, live, order, i)
      ensures order[i] in u.rels && order[i] in order && (NoneIn(u.rels, end) || OneIn(u.rels, end))
      ensures !RunsAgain(order, i) ==> NoneIn(u.rels, end)
    {
      FewerLeft(u.rels, live, order, i);
      if !RunsAgain(order, i) { FirstRunTakesLast(u.rels, live, order, i); }
    }
    OneNotNone(u.rels, end);
  }

  lemma OneNotNone(rels: seq<nat>, s: set<nat>)
    ensures !(OneIn(rels, s) && NoneIn(rels, s))
  {
  }

  /** The only relation of a user is to a group that goes. */
  lemma OnlyRelation(u: User, live: set<nat>, order: seq<nat>)
    requires |u.rels| == 1 && IdSet(order) <= live
    ensures CalledBack(u, live, order) ==
      u.(enabled := u.enabled && !(u.savable && u.rels[0] in order))
  {
    CalledBackIs(u, live, order);
    hide CalledBack;
    if u.rels[0] in order { LastGoneFires(u.rels, live, order, u.rels[0]); }
  }

  /** A user of groups 3 and 4: group 2 takes group 3 below it, the callback of 3 runs again, and the user is
      disabled although it still belongs to group 4. */
  lemma SecondRunDisables(u: User)
    requires u.savable && u.rels == [3, 4]
    ensures var live, order := {1, 2, 3, 4}, [3, 2, 3];
      !CalledBack(u, live, order).enabled && 4 in live - IdSet(order) && CalledBack(u, live, order[..2]) == u
  {
    var live, order := {1, 2, 3, 4}, [3, 2, 3];
    assert order[..0] == [] && order[..1] == [3] && order[..2] == [3, 2];
    assert live - IdSet([]) == live && live - IdSet([3]) == {1, 2, 4} && live - IdSet([3, 2]) == {1, 4};
    assert u.rels[0] == 3 && u.rels[1] == 4;
    assert OnlyAt(u.rels, live - IdSet([3, 2]), 1);
    assert FiresAt(u.rels, live, order, 2);
    CalledBackIs(u, live, order);
    assert [3, 2][..0] == [] && [3, 2][..1] == [3];
    assert 2 !in u.rels;
    forall k: nat ensures !OnlyAt(u.rels, live, k) { assert u.rels[0] in live && u.rels[1] in live; }
    assert !Fires(u.rels, live, [3, 2]);
    CalledBackIs(u, live, [3, 2]);
  }
}
