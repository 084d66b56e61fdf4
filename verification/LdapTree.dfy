/** Which entries and users of the directory are staged, told on the paths to them. */
module LdapTree {
  import opened LdapStaging
  import opened Text

  predicate IsPath(e: Entry, path: seq<nat>)
    decreases |path|
  {
    path == [] || (path[0] < |e.children| && IsPath(e.children[path[0]], path[1..]))
  }

  function At(e: Entry, path: seq<nat>): Entry
    requires IsPath(e, path)
    decreases |path|
  {
    if path == [] then e else At(e.children[path[0]], path[1..])
  }

  /** Every entry on the way, from e to the last, has a code and a name. */
  ghost predicate Complete(e: Entry, path: seq<nat>)
    requires IsPath(e, path)
    decreases |path|
  {
    HasText(e.code) && HasText(e.name) && (path == [] || Complete(e.children[path[0]], path[1..]))
  }

  /** The code of the entry above the last one, `parent` standing above e. */
  function CodeAbove(e: Entry, path: seq<nat>, parent: string): string
    requires IsPath(e, path)
    decreases |path|
  {
    if path == [] then parent else CodeAbove(e.children[path[0]], path[1..], e.code)
  }

  ghost predicate GroupAt(e: Entry, parent: string, path: seq<nat>, x: Edge) {
    && IsPath(e, path) && Complete(e, path)
    && x == Edge(At(e, path).code, CodeAbove(e, path, parent), At(e, path).name, "")
  }

  ghost predicate UserAt(e: Entry, path: seq<nat>, i: nat, x: Edge) {
    && IsPath(e, path) && Complete(e, path) && i < |At(e, path).users|
    && var u := At(e, path).users[i];
    HasText(u.uid) && HasText(u.name) && x == Edge(u.uid, At(e, path).code, u.name, u.sortNo)
  }

  lemma {:induction false} GroupsFirst(e: Entry, n: nat, x: Edge)
    requires n <= |e.children|
    ensures x in GroupsInFirst(e, n) <==> exists k :: 0 <= k < n && x in GroupsIn(e.children[k], e.code)
  {
    hide GroupsIn;
    if n > 0 { GroupsFirst(e, n - 1, x); }
  }

  lemma {:induction false} UsersFirst(e: Entry, n: nat, x: Edge)
    requires n <= |e.children|
    ensures x in UsersInFirst(e, n) <==> exists k :: 0 <= k < n && x in UsersIn(e.children[k])
  {
    hide UsersIn;
    if n > 0 { UsersFirst(e, n - 1, x); }
  }

  lemma StepDown(e: Entry, k: nat, path: seq<nat>, parent: string, i: nat, x: Edge)
    requires k < |e.children| && HasText(e.code) && HasText(e.name)
    ensures GroupAt(e.children[k], e.code, path, x) ==> GroupAt(e, parent, [k] + path, x)
    ensures UserAt(e.children[k], path, i, x) ==> UserAt(e, [k] + path, i, x)
  {
    assert ([k] + path)[1..] == path;
    hide HasText;
  }

  /** A group is staged exactly when a path leads to it on which every entry has a code and a name; its parent is the
      entry above. */
  lemma {:induction false} GroupsAre(e: Entry, parent: string, x: Edge)
    ensures x in GroupsIn(e, parent) <==> exists path :: GroupAt(e, parent, path, x)
    decreases e
  {
    assert Valid(e) <==> HasText(e.code) && HasText(e.name);
    hide Valid; hide HasText;
    GroupsFirst(e, |e.children|, x);
    if Valid(e) {
      if x == Edge(e.code, parent, e.name, "") { assert GroupAt(e, parent, [], x); }
      if k :| 0 <= k < |e.children| && x in GroupsIn(e.children[k], e.code) {
        GroupsAre(e.children[k], e.code, x);
        var path :| GroupAt(e.children[k], e.code, path, x);
        StepDown(e, k, path, parent, 0, x);
      }
    }
    if path :| GroupAt(e, parent, path, x) && path != [] {
      assert GroupAt(e.children[path[0]], e.code, path[1..], x);
      GroupsAre(e.children[path[0]], e.code, x);
    }
  }

  lemma OwnUsersAt(e: Entry, x: Edge)
    requires HasText(e.code) && HasText(e.name)
    ensures x in OwnUsers(e) <==> exists i :: UserAt(e, [], i, x)
  {
    forall p: Person ensures ValidPerson(p) <==> HasText(p.uid) && HasText(p.name) {}
    hide ValidPerson; hide HasText;
    if x in OwnUsers(e) {
      var i: nat :| i < |e.users| && ValidPerson(e.users[i])
        && x == Edge(e.users[i].uid, e.code, e.users[i].name, e.users[i].sortNo);
      assert UserAt(e, [], i, x);
    }
  }

  lemma UserBelow(e: Entry, path: seq<nat>, i: nat, x: Edge)
    requires UserAt(e, path, i, x)
    ensures HasText(e.code) && HasText(e.name)
    ensures path != [] ==> path[0] < |e.children| && UserAt(e.children[path[0]], path[1..], i, x)
  {
    hide HasText;
  }

  lemma ValidIs(e: Entry)
    ensures Valid(e) <==> HasText(e.code) && HasText(e.name)
    ensures forall x :: x in UsersIn(e) <==> Valid(e) && (x in OwnUsers(e) || x in UsersInFirst(e, |e.children|))
  {
    hide OwnUsers; hide UsersInFirst;
  }

  /** A user is staged below such a group exactly when it has an account and a name. */
  lemma {:induction false} UsersAre(e: Entry, x: Edge)
    ensures x in UsersIn(e) <==> exists path, i :: UserAt(e, path, i, x)
    decreases e
  {
    hide *;
    ValidIs(e);
    UsersFirst(e, |e.children|, x);
    if x in UsersIn(e) {
      OwnUsersAt(e, x);
      if k :| 0 <= k < |e.children| && x in UsersIn(e.children[k]) {
        UsersAre(e.children[k], x);
        var path, i :| UserAt(e.children[k], path, i, x);
        StepDown(e, k, path, "", i, x);
      }
    }
    if path, i :| UserAt(e, path, i, x) {
      UserBelow(e, path, i, x);
      if path == [] { OwnUsersAt(e, x); } else { UsersAre(e.children[path[0]], x); }
    }
  }

  // ----- How many rows -----

  /** Users of the entry that have an account and a name. */
  function Persons(e: Entry, n: nat): nat
    requires n <= |e.users|
  {
    if n == 0 then 0 else Persons(e, n - 1) + if ValidPerson(e.users[n - 1]) then 1 else 0
  }

  function Size(e: Entry): nat
    decreases e, |e.children| + 1
  {
    if Valid(e) then 1 + Persons(e, |e.users|) + SizeFirst(e, |e.children|) else 0
  }

  function SizeFirst(e: Entry, n: nat): nat
    requires n <= |e.children|
    decreases e, n
  {
    if n == 0 then 0 else SizeFirst(e, n - 1) + Size(e.children[n - 1])
  }

  lemma {:induction false} UserRows(t: seq<Row>, e: Entry, n: nat, id: nat)
    requires n <= |e.users|
    ensures |StageUsers(t, e.users, n, id)| == |t| + Persons(e, n)
  {
    if n > 0 { UserRows(t, e, n - 1, id); }
  }

  /** Each staged entry and user has one row. */
  lemma {:induction false} StageSize(t: seq<Row>, e: Entry, parentId: nat)
    ensures |Stage(t, e, parentId)| == |t| + Size(e)
    decreases e, |e.children| + 1
  {
    hide Blank;
    if Valid(e) {
      var id, a := |t| + 1, t + [Row(parentId, true, e.code, e.name, "")];
      UserRows(a, e, |e.users|, id);
      StageFirstSize(StageUsers(a, e.users, |e.users|, id), e, |e.children|, id);
    }
  }

  lemma {:induction false} StageFirstSize(t: seq<Row>, e: Entry, n: nat, id: nat)
    requires n <= |e.children|
    ensures |StageFirst(t, e, n, id)| == |t| + SizeFirst(e, n)
    decreases e, n
  {
    hide Stage; hide Size;
    if n > 0 {
      StageFirstSize(t, e, n - 1, id);
      StageSize(StageFirst(t, e, n - 1, id), e.children[n - 1], id);
    }
  }
}
