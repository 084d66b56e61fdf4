/** First half of the LDAP synchronisation: the directory tree is copied into a flat table of rows that name their
    parent row, parents before children. */
module LdapStaging {
  import opened Text

  datatype Person = Person(uid: string, name: string, sortNo: string)

  datatype Entry = Entry(code: string, name: string, users: seq<Person>, children: seq<Entry>)

  /** A staging row; its id is its position plus one, and parent 0 means the top. */
  datatype Row = Row(parentId: nat, group: bool, code: string, name: string, sortNo: string)

  predicate Valid(e: Entry) {
    !Blank(e.code) && !Blank(e.name)
  }

  predicate ValidPerson(p: Person) {
    !Blank(p.uid) && !Blank(p.name)
  }

  function StageUsers(t: seq<Row>, users: seq<Person>, n: nat, id: nat): seq<Row>
    requires n <= |users|
  {
    if n == 0 then t
    else
      var before, p := StageUsers(t, users, n - 1, id), users[n - 1];
      if ValidPerson(p) then before + [Row(id, false, p.uid, p.name, p.sortNo)] else before
  }

  /** create_synchros for one entry: an entry that does not validate is left out with all below it. */
  function Stage(t: seq<Row>, e: Entry, parentId: nat): seq<Row>
    decreases e, |e.children| + 1
  {
    if !Valid(e) then t
    else
      var id := |t| + 1;
      StageFirst(StageUsers(t + [Row(parentId, true, e.code, e.name, "")], e.users, |e.users|, id), e, |e.children|, id)
  }

  /** The first n children of e. */
  function StageFirst(t: seq<Row>, e: Entry, n: nat, id: nat): seq<Row>
    requires n <= |e.children|
    decreases e, n
  {
    if n == 0 then t else Stage(StageFirst(t, e, n - 1, id), e.children[n - 1], id)
  }

  class Staging {
    var rows: seq<Row>

    constructor ()
      ensures rows == []
    {
      rows := [];
    }

    method CreateUsers(e: Entry, id: nat)
      modifies this
      ensures rows == StageUsers(old(rows), e.users, |e.users|, id)
    {
      for n := 0 to |e.users|
        invariant rows == StageUsers(old(rows), e.users, n, id)
      {
        hide Blank;
        var p := e.users[n];
        if !Blank(p.uid) && !Blank(p.name) {
          rows := rows + [Row(id, false, p.uid, p.name, p.sortNo)];
        }
      }
    }

    method CreateSynchros(e: Entry, parentId: nat)
      modifies this
      ensures rows == Stage(old(rows), e, parentId)
      decreases e
    {
      if Blank(e.code) || Blank(e.name) {
        return;
      }
      var id := |rows| + 1;
      rows := rows + [Row(parentId, true, e.code, e.name, "")];
      CreateUsers(e, id);
      ghost var start := rows;
      for n := 0 to |e.children|
        invariant rows == StageFirst(start, e, n, id)
      {
        hide Stage;
        CreateSynchros(e.children[n], id);
      }
    }
  }

  // ----- The table holds the tree -----

  /** Parents come first and are groups; only groups stand at the top; no code is blank. */
  ghost predicate Rooted(t: seq<Row>) {
    forall i :: 0 <= i < |t| ==>
      && t[i].parentId <= i && !Blank(t[i].code) && (t[i].parentId > 0 ==> t[t[i].parentId - 1].group)
         && (t[i].parentId == 0 ==> t[i].group)
  }

  /** The code of the row with this id, the empty code standing for the top. */
  function CodeOf(t: seq<Row>, id: nat): string {
    if 1 <= id <= |t| then t[id - 1].code else ""
  }

  /** A group or user below a group. */
  datatype Edge = Edge(code: string, parent: string, name: string, sortNo: string)

  /** The edge of row i. */
  function EdgeAt(t: seq<Row>, i: nat): Edge
    requires i < |t|
  {
    Edge(t[i].code, CodeOf(t, t[i].parentId), t[i].name, t[i].sortNo)
  }

  ghost function Edges(t: seq<Row>, group: bool): set<Edge> {
    set i | 0 <= i < |t| && t[i].group == group :: EdgeAt(t, i)
  }

  ghost function GroupsIn(e: Entry, parent: string): set<Edge>
    decreases e, |e.children| + 1
  {
    if Valid(e) then {Edge(e.code, parent, e.name, "")} + GroupsInFirst(e, |e.children|) else {}
  }

  ghost function GroupsInFirst(e: Entry, n: nat): set<Edge>
    requires n <= |e.children|
    decreases e, n
  {
    if n == 0 then {} else GroupsInFirst(e, n - 1) + GroupsIn(e.children[n - 1], e.code)
  }

  ghost function OwnUsers(e: Entry): set<Edge> {
    set i | 0 <= i < |e.users| && ValidPerson(e.users[i]) ::
      Edge(e.users[i].uid, e.code, e.users[i].name, e.users[i].sortNo)
  }

  ghost function UsersIn(e: Entry): set<Edge>
    decreases e, |e.children| + 1
  {
    if Valid(e) then OwnUsers(e) + UsersInFirst(e, |e.children|) else {}
  }

  ghost function UsersInFirst(e: Entry, n: nat): set<Edge>
    requires n <= |e.children|
    decreases e, n
  {
    if n == 0 then {} else UsersInFirst(e, n - 1) + UsersIn(e.children[n - 1])
  }

  predicate MayAdd(t: seq<Row>, r: Row) {
    r.parentId <= |t| && !Blank(r.code) && (r.parentId > 0 ==> t[r.parentId - 1].group) && (r.parentId == 0 ==> r.group)
  }

  lemma AddRooted(t: seq<Row>, r: Row)
    requires Rooted(t) && MayAdd(t, r)
    ensures Rooted(t + [r])
    ensures forall i :: 0 <= i < |t| ==> EdgeAt(t + [r], i) == EdgeAt(t, i)
  {
    hide Blank;
  }

  lemma EdgeIn(t: seq<Row>, i: nat)
    requires i < |t|
    ensures EdgeAt(t, i) in Edges(t, t[i].group)
  {
  }

  lemma EdgesGrow(t: seq<Row>, r: Row, g: bool, x: Edge)
    requires forall i :: 0 <= i < |t| ==> EdgeAt(t + [r], i) == EdgeAt(t, i)
    ensures x in Edges(t + [r], g) <==> x in Edges(t, g) || (g == r.group && x == EdgeAt(t + [r], |t|))
  {
    var s := t + [r];
    hide EdgeAt;
    if x in Edges(t, g) {
      var i :| 0 <= i < |t| && t[i].group == g && x == EdgeAt(t, i);
      assert s[i] == t[i];
      EdgeIn(s, i);
    }
    if x in Edges(s, g) {
      var i :| 0 <= i < |s| && s[i].group == g && x == EdgeAt(s, i);
      if i < |t| { assert s[i] == t[i]; EdgeIn(t, i); }
    }
    EdgeIn(s, |t|);
  }

  lemma AddRow(t: seq<Row>, r: Row)
    requires Rooted(t) && MayAdd(t, r)
    ensures Rooted(t + [r])
    ensures Edges(t + [r], r.group) == Edges(t, r.group) + {Edge(r.code, CodeOf(t, r.parentId), r.name, r.sortNo)}
    ensures Edges(t + [r], !r.group) == Edges(t, !r.group)
  {
    AddRooted(t, r);
    assert EdgeAt(t + [r], |t|) == Edge(r.code, CodeOf(t, r.parentId), r.name, r.sortNo);
    hide *;
    forall x, g: bool ensures x in Edges(t + [r], g) <==>
      x in Edges(t, g) || (g == r.group && x == EdgeAt(t + [r], |t|)) {
      EdgesGrow(t, r, g, x);
    }
  }

  lemma {:induction false} StageUsersHolds(t: seq<Row>, e: Entry, n: nat, id: nat)
    requires n <= |e.users| && Rooted(t) && 1 <= id <= |t| && t[id - 1].group && t[id - 1].code == e.code
    ensures var r := StageUsers(t, e.users, n, id);
      && t <= r && Rooted(r) && Edges(r, true) == Edges(t, true)
      && Edges(r, false) == Edges(t, false) + set i | 0 <= i < n && ValidPerson(e.users[i]) ::
         Edge(e.users[i].uid, e.code, e.users[i].name, e.users[i].sortNo)
  {
    hide Blank; hide Edges; hide Rooted;
    if n > 0 {
      StageUsersHolds(t, e, n - 1, id);
      var before, p := StageUsers(t, e.users, n - 1, id), e.users[n - 1];
      if ValidPerson(p) { AddRow(before, Row(id, false, p.uid, p.name, p.sortNo)); }
    }
  }

  /** Staging an entry adds exactly the groups and users of its tree, each below its own parent. */
  lemma {:induction false} StageHolds(t: seq<Row>, e: Entry, parentId: nat)
    requires Rooted(t) && parentId <= |t| && (parentId > 0 ==> t[parentId - 1].group)
    ensures var r := Stage(t, e, parentId);
      && t <= r && Rooted(r) && Edges(r, true) == Edges(t, true) + GroupsIn(e, CodeOf(t, parentId))
      && Edges(r, false) == Edges(t, false) + UsersIn(e)
    decreases e, |e.children| + 1
  {
    hide Edges; hide Rooted; hide Blank; hide OwnUsers;
    if Valid(e) {
      var id, a := |t| + 1, t + [Row(parentId, true, e.code, e.name, "")];
      AddRow(t, Row(parentId, true, e.code, e.name, ""));
      var b := StageUsers(a, e.users, |e.users|, id);
      StageUsersHolds(a, e, |e.users|, id);
      OwnUsersAre(e);
      assert b[id - 1] == a[id - 1];
      StageFirstHolds(b, e, |e.children|, id);
    }
  }

  lemma OwnUsersAre(e: Entry)
    ensures OwnUsers(e) == set i | 0 <= i < |e.users| && ValidPerson(e.users[i]) ::
      Edge(e.users[i].uid, e.code, e.users[i].name, e.users[i].sortNo)
  {
  }

  lemma {:induction false} StageFirstHolds(t: seq<Row>, e: Entry, n: nat, id: nat)
    requires n <= |e.children| && Rooted(t) && 1 <= id <= |t| && t[id - 1].group && t[id - 1].code == e.code
    ensures var r := StageFirst(t, e, n, id);
      && t <= r && Rooted(r) && Edges(r, true) == Edges(t, true) + GroupsInFirst(e, n)
      && Edges(r, false) == Edges(t, false) + UsersInFirst(e, n)
    decreases e, n
  {
    hide Edges; hide Rooted; hide Blank; hide Stage; hide GroupsIn; hide UsersIn;
    if n > 0 {
      StageFirstHolds(t, e, n - 1, id);
      var before := StageFirst(t, e, n - 1, id);
      assert before[id - 1] == t[id - 1];
      StageHolds(before, e.children[n - 1], id);
    }
  }
}
