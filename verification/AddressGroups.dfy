/** Address groups: which parents a group may be moved under. */
module AddressGroups {
  import opened Tree
  import opened TreeOrder
  import opened Wrappers

  datatype Group = Group(level: int, user: nat, name: string)

  type Table = seq<Node<Group>>

  predicate IsRoot(t: Table, u: nat, x: nat)
    requires x < |t|
  {
    t[x].parentId == 0 && t[x].data.level == 1 && t[x].data.user == u
  }

  function OtherRoot(t: Table, u: nat, g: nat): nat -> bool {
    (x: nat) => x < |t| && IsRoot(t, u, x) && x != g
  }

  /** user_root_groups, the group being edited left out */
  function Roots(t: Table, le: (Group, Group) -> bool, u: nat, g: nat): (r: seq<nat>)
    ensures In(t, r) && forall x: nat :: x in r <==> x < |t| && IsRoot(t, u, x) && x != g
  {
    Kids(t, le, OtherRoot(t, u, g), 0, |t|)
  }

  function NotOf(g: nat): nat -> bool {
    (x: nat) => x != g
  }

  function AnyOf(): nat -> bool {
    (x: nat) => true
  }

  /** The first m roots with their descendants, pruned at g. */
  function OptionsFirst(t: Table, le: (Group, Group) -> bool, u: nat, g: nat, m: nat, ghost depth: nat -> nat,
                        ghost n: nat): (r: seq<nat>)
    requires Deep(t, depth, n) && m <= |Roots(t, le, u, g)|
    ensures In(t, r)
  {
    if m == 0 then []
    else OptionsFirst(t, le, u, g, m - 1, depth, n) + Descendants(t, le, NotOf(g), Roots(t, le, u, g)[m - 1],
      depth, n)
  }

  function Options(t: Table, le: (Group, Group) -> bool, u: nat, g: nat, ghost depth: nat -> nat,
                   ghost n: nat): (r: seq<nat>)
    requires Deep(t, depth, n)
    ensures In(t, r)
  {
    OptionsFirst(t, le, u, g, |Roots(t, le, u, g)|, depth, n)
  }

  lemma InAt(t: Table, r: seq<nat>, i: nat)
    requires In(t, r) && i < |r|
    ensures r[i] < |t|
  {
  }

  /** parent_options */
  method ParentOptions(t: Table, le: (Group, Group) -> bool, u: nat, g: nat, ghost depth: nat -> nat, ghost n: nat)
    returns (options: seq<nat>)
    requires Deep(t, depth, n)
    ensures options == Options(t, le, u, g, depth, n)
  {
    hide Roots; hide Descendants; hide Deep; hide In; hide IsRoot;
    options := [];
    var roots := Roots(t, le, u, g);
    for m := 0 to |roots|
      invariant options == OptionsFirst(t, le, u, g, m, depth, n)
    {
      assert roots[m] < |t| by { InAt(t, roots, m); }
      var list := new Items();
      list.PushDescendants(t, le, NotOf(g), roots[m], depth, n);
      options := options + list.items;
    }
  }

  /** Every group hangs, through its parents, below one of the user's root groups. */
  ghost predicate Rooted(t: Table, u: nat, depth: nat -> nat, n: nat) {
    && Deep(t, depth, n) && UniqueIds(t)
    && forall x: nat :: x < |t| ==> IsRoot(t, u, x) || ParentOf(t, x) < |t|
  }

  lemma {:induction false} OptionsHave(t: Table, le: (Group, Group) -> bool, u: nat, g: nat, m: nat, i: nat, x: nat,
                                       depth: nat -> nat, n: nat)
    requires Deep(t, depth, n) && i < m <= |Roots(t, le, u, g)|
    requires x in Descendants(t, le, NotOf(g), Roots(t, le, u, g)[i], depth, n)
    ensures x in OptionsFirst(t, le, u, g, m, depth, n)
  {
    hide Descendants; hide Roots;
    if i < m - 1 { OptionsHave(t, le, u, g, m - 1, i, x, depth, n); }
  }

  lemma {:induction false} OptionsFrom(t: Table, le: (Group, Group) -> bool, u: nat, g: nat, m: nat, x: nat,
                                       depth: nat -> nat, n: nat)
    requires Deep(t, depth, n) && UniqueIds(t) && m <= |Roots(t, le, u, g)|
    requires x in OptionsFirst(t, le, u, g, m, depth, n)
    ensures x < |t| && (g < |t| ==> !Reaches(t, AnyOf(), g, x, depth, n))
  {
    hide Descendants;
    var r := Roots(t, le, u, g)[m - 1];
    assert r in Roots(t, le, u, g);
    hide Roots;
    if x in OptionsFirst(t, le, u, g, m - 1, depth, n) {
      OptionsFrom(t, le, u, g, m - 1, x, depth, n);
    } else if g < |t| {
      ListedReach(t, le, NotOf(g), r, x, depth, n);
      AvoidsGroup(t, u, g, r, x, depth, n);
    }
  }

  lemma {:induction false} AvoidsGroup(t: Table, u: nat, g: nat, r: nat, x: nat, depth: nat -> nat, n: nat)
    requires Deep(t, depth, n) && UniqueIds(t) && g < |t| && r < |t| && x < |t| && IsRoot(t, u, r) && r != g
    requires Reaches(t, NotOf(g), r, x, depth, n)
    ensures !Reaches(t, AnyOf(), g, x, depth, n)
    decreases depth(x)
  {
    if x != r { AvoidsGroup(t, u, g, r, ParentOf(t, x), depth, n); }
  }

  lemma {:induction false} RootAbove(t: Table, u: nat, g: nat, x: nat, depth: nat -> nat, n: nat) returns (r: nat)
    requires Rooted(t, u, depth, n) && g < |t| && x < |t| && !Reaches(t, AnyOf(), g, x, depth, n)
    ensures r < |t| && IsRoot(t, u, r) && r != g && Reaches(t, NotOf(g), r, x, depth, n)
    decreases depth(x)
  {
    if IsRoot(t, u, x) {
      r := x;
    } else {
      r := RootAbove(t, u, g, ParentOf(t, x), depth, n);
    }
  }

  lemma RootsOrdered(t: Table, le: (Group, Group) -> bool, u: nat, g: nat)
    requires Sorts(le)
    ensures Ordered(t, le, Roots(t, le, u, g))
    ensures forall i :: 0 <= i < |Roots(t, le, u, g)| ==> t[Roots(t, le, u, g)[i]].parentId == 0
  {
    KidsOrdered(t, le, OtherRoot(t, u, g), 0, |t|);
    var roots := Roots(t, le, u, g);
    forall i | 0 <= i < |roots| ensures t[roots[i]].parentId == 0 { assert roots[i] in roots; }
  }

  lemma OptionsFirstNext(t: Table, le: (Group, Group) -> bool, u: nat, g: nat, m: nat, depth: nat -> nat, n: nat)
    requires Deep(t, depth, n) && m <= |Roots(t, le, u, g)|
    ensures m == 0 ==> OptionsFirst(t, le, u, g, m, depth, n) == []
    ensures m > 0 ==> Roots(t, le, u, g)[m - 1] < |t|
    ensures m > 0 ==>
      OptionsFirst(t, le, u, g, m, depth, n) ==
        OptionsFirst(t, le, u, g, m - 1, depth, n) + Descendants(t, le, NotOf(g), Roots(t, le, u, g)[m - 1], depth, n)
  {
    hide Descendants; hide Deep;
    if m > 0 { assert Roots(t, le, u, g)[m - 1] in Roots(t, le, u, g); }
    hide Roots;
  }

  lemma {:induction false} OptionsFirstInOrder(t: Table, le: (Group, Group) -> bool, u: nat, g: nat, m: nat,
                                              depth: nat -> nat, n: nat)
    requires Deep(t, depth, n) && UniqueIds(t) && Sorts(le) && m <= |Roots(t, le, u, g)|
    ensures var r := OptionsFirst(t, le, u, g, m, depth, n);
      InOrder(t, le, NotOf(g), r, depth, n) && UnderFirst(t, NotOf(g), Roots(t, le, u, g), m, r, depth, n)
  {
    hide *;
    OptionsFirstNext(t, le, u, g, m, depth, n);
    if m == 0 {
      NoneInOrder(t, le, NotOf(g), Roots(t, le, u, g), depth, n);
    } else {
      OptionsFirstInOrder(t, le, u, g, m - 1, depth, n);
      RootsOrdered(t, le, u, g);
      RootsJoin(t, le, NotOf(g), Roots(t, le, u, g), m - 1, OptionsFirst(t, le, u, g, m - 1, depth, n), depth, n);
    }
  }

  /** The options come in tree order, siblings and roots in the order asked for. */
  lemma OptionsInOrder(t: Table, le: (Group, Group) -> bool, u: nat, g: nat, depth: nat -> nat, n: nat)
    requires Deep(t, depth, n) && UniqueIds(t) && Sorts(le)
    ensures InOrder(t, le, NotOf(g), Options(t, le, u, g, depth, n), depth, n)
  {
    hide OptionsFirst; hide Roots; hide InOrder;
    OptionsFirstInOrder(t, le, u, g, |Roots(t, le, u, g)|, depth, n);
  }

  /** parent_options offers exactly the groups that are not the group itself or below it. */
  lemma OptionsAre(t: Table, le: (Group, Group) -> bool, u: nat, g: nat, x: nat, depth: nat -> nat, n: nat)
    requires Rooted(t, u, depth, n) && g < |t| && x < |t|
    ensures x in Options(t, le, u, g, depth, n) <==> x !in Descendants(t, le, AnyOf(), g, depth, n)
  {
    DescendantsAre(t, le, AnyOf(), g, x, depth, n);
    var roots := Roots(t, le, u, g);
    if x in Options(t, le, u, g, depth, n) {
      OptionsFrom(t, le, u, g, |roots|, x, depth, n);
    }
    if !Reaches(t, AnyOf(), g, x, depth, n) {
      var r := RootAbove(t, u, g, x, depth, n);
      assert r in roots;
      var i :| 0 <= i < |roots| && roots[i] == r;
      hide Roots; hide Descendants; hide Reaches; hide UniqueIds;
      ReachedListed(t, le, NotOf(g), r, x, depth, n);
      OptionsHave(t, le, u, g, |roots|, i, x, depth, n);
    }
  }

  // ----- Moving a group -----

  /** What update assigns: the chosen parent, or the top. */
  function Moved(t: Table, g: nat, parent: Option<nat>): Table
    requires g < |t| && (parent.Some? ==> parent.value < |t|)
  {
    t[g := t[g].(parentId := if parent.Some? then t[parent.value].id else 0,
                 data := t[g].data.(level := if parent.Some? then t[parent.value].data.level + 1 else 1))]
  }

  /** The group gets the level below its new parent's, or the first; nothing else about it or others changes. */
  lemma MovedIs(t: Table, g: nat, parent: Option<nat>, x: nat)
    requires UniqueIds(t) && g < |t| && (parent.Some? ==> parent.value < |t| && parent.value != g) && x < |t|
    ensures var s := Moved(t, g, parent);
      && |s| == |t| && s[x].id == t[x].id && s[x].data.name == t[x].data.name && s[x].data.user == t[x].data.user
      && (x != g ==> s[x] == t[x])
      && (parent == None ==> s[g].parentId == 0 && s[g].data.level == 1)
      && (parent.Some? && ParentOf(s, g) < |s| ==> s[g].data.level == s[ParentOf(s, g)].data.level + 1)
  {
    MovedParent(t, g, parent, g);
  }

  /** Depths after the subtree of g went below p. */
  ghost function DepthAfter(t: Table, g: nat, base: nat, depth: nat -> nat, n: nat): nat -> nat
    requires g < |t| && Deep(t, depth, n)
  {
    (x: nat) => if x < |t| && Reaches(t, AnyOf(), g, x, depth, n) then base + depth(x) else depth(x)
  }

  lemma MovedParent(t: Table, g: nat, parent: Option<nat>, x: nat)
    requires UniqueIds(t) && g < |t| && (parent.Some? ==> parent.value < |t|) && x < |t|
    ensures UniqueIds(Moved(t, g, parent))
    ensures ParentOf(Moved(t, g, parent), x) == if x != g then ParentOf(t, x) else if parent.Some? then parent.value
      else |t|
  {
    var s := Moved(t, g, parent);
    assert forall y :: 0 <= y < |t| ==> s[y].id == t[y].id;
    var q := if x != g then ParentOf(t, x) else if parent.Some? then parent.value else |t|;
    if q < |t| {
      assert s[x].parentId == s[q].id;
      ParentIs(s, x, q);
    }
  }

  /** A child of a group outside the subtree of g, other than g itself, is outside too. */
  lemma SubtreeClosed(t: Table, g: nat, x: nat, q: nat, depth: nat -> nat, n: nat)
    requires Deep(t, depth, n) && UniqueIds(t) && g < |t| && x < |t| && q < |t| && t[x].parentId == t[q].id && x != g
    ensures Reaches(t, AnyOf(), g, x, depth, n) <==> Reaches(t, AnyOf(), g, q, depth, n)
  {
    ParentIs(t, x, q);
  }

  lemma MovedDeep(t: Table, g: nat, parent: Option<nat>, depth: nat -> nat, n: nat)
    requires Deep(t, depth, n) && UniqueIds(t) && g < |t|
    requires parent.Some? ==> parent.value < |t| && !Reaches(t, AnyOf(), g, parent.value, depth, n)
    ensures Deep(Moved(t, g, parent), DepthAfter(t, g, n + 1, depth, n), 2 * n + 1)
  {
    var s, d := Moved(t, g, parent), DepthAfter(t, g, n + 1, depth, n);
    forall x, q | 0 <= x < |t| && 0 <= q < |t| && s[x].parentId == s[q].id ensures d(q) < d(x) {
      assert s[q].id == t[q].id;
      if x == g {
        assert Reaches(t, AnyOf(), g, g, depth, n);
        assert parent.Some? && q == parent.value;
      } else {
        SubtreeClosed(t, g, x, q, depth, n);
      }
    }
  }

  lemma MovedRooted(t: Table, u: nat, g: nat, parent: Option<nat>, depth: nat -> nat, n: nat)
    requires Rooted(t, u, depth, n) && g < |t| && t[g].data.user == u
    requires parent.Some? ==> parent.value < |t| && !Reaches(t, AnyOf(), g, parent.value, depth, n)
    ensures Rooted(Moved(t, g, parent), u, DepthAfter(t, g, n + 1, depth, n), 2 * n + 1)
  {
    MovedDeep(t, g, parent, depth, n);
    var s := Moved(t, g, parent);
    forall x: nat | x < |s| ensures IsRoot(s, u, x) || ParentOf(s, x) < |s| {
      MovedParent(t, g, parent, x);
      assert IsRoot(t, u, x) || ParentOf(t, x) < |t|;
      hide Deep; hide Reaches; hide ParentOf; hide UniqueIds;
    }
    if |t| > 0 { MovedParent(t, g, parent, 0); }
  }

  lemma {:induction false} StaysBelow(t: Table, g: nat, parent: Option<nat>, x: nat, depth: nat -> nat, n: nat,
                                      after: nat -> nat, m: nat)
    requires Deep(t, depth, n) && UniqueIds(t) && g < |t| && x < |t| && Reaches(t, AnyOf(), g, x, depth, n)
    requires parent.Some? ==> parent.value < |t|
    requires Deep(Moved(t, g, parent), after, m)
    ensures after(g) <= after(x)
    decreases depth(x)
  {
    if x != g {
      var q, s := ParentOf(t, x), Moved(t, g, parent);
      assert s[x].parentId == s[q].id;
      StaysBelow(t, g, parent, q, depth, n, after, m);
    }
  }

  /** Moving a group below p keeps every group below a root, without a cycle, exactly when p is offered. */
  lemma SafeIffOffered(t: Table, le: (Group, Group) -> bool, u: nat, g: nat, p: nat, depth: nat -> nat, n: nat)
    requires Rooted(t, u, depth, n) && g < |t| && p < |t| && t[g].data.user == u
    ensures p in Options(t, le, u, g, depth, n) <==>
      exists after: nat -> nat, m: nat :: Rooted(Moved(t, g, Some(p)), u, after, m)
  {
    OptionsAre(t, le, u, g, p, depth, n);
    DescendantsAre(t, le, AnyOf(), g, p, depth, n);
    hide Options; hide Descendants; hide Reaches;
    if p in Options(t, le, u, g, depth, n) {
      MovedRooted(t, u, g, Some(p), depth, n);
      assert Rooted(Moved(t, g, Some(p)), u, DepthAfter(t, g, n + 1, depth, n), 2 * n + 1);
    } else if after: nat -> nat, m: nat :| Rooted(Moved(t, g, Some(p)), u, after, m) {
      StaysBelow(t, g, Some(p), p, depth, n, after, m);
    }
  }

  // ----- Runs of moves -----

  ghost predicate SomeRooted(t: Table, u: nat) {
    exists depth: nat -> nat, n: nat :: Rooted(t, u, depth, n)
  }

  /** One edit: group g goes to the top or below a parent offered for it. */
  ghost predicate Edit(a: Table, b: Table, le: (Group, Group) -> bool, u: nat, g: nat, parent: Option<nat>) {
    && g < |a| && a[g].data.user == u && (parent.Some? ==> parent.value < |a|) && b == Moved(a, g, parent)
    && (parent.Some? ==> forall depth: nat -> nat, n: nat :: Rooted(a, u, depth, n) ==>
       parent.value in Options(a, le, u, g, depth, n))
  }

  ghost predicate Edited(a: Table, b: Table, le: (Group, Group) -> bool, u: nat) {
    exists g: nat, parent: Option<nat> :: Edit(a, b, le, u, g, parent)
  }

  /** Any number of moves chosen from the options leaves every group below a root. */
  lemma {:induction false} EditsKeepRooted(run: seq<Table>, le: (Group, Group) -> bool, u: nat, i: nat)
    requires i < |run| && SomeRooted(run[0], u) && forall k :: 0 < k < |run| ==> Edited(run[k - 1], run[k], le, u)
    ensures SomeRooted(run[i], u)
  {
    if i > 0 {
      EditsKeepRooted(run, le, u, i - 1);
      var a := run[i - 1];
      assert Edited(a, run[i], le, u);
      EditKeepsRooted(a, run[i], le, u);
    }
  }

  lemma EditKeepsRooted(a: Table, b: Table, le: (Group, Group) -> bool, u: nat)
    requires SomeRooted(a, u) && Edited(a, b, le, u)
    ensures SomeRooted(b, u)
  {
    var depth: nat -> nat, n: nat :| Rooted(a, u, depth, n);
    var g: nat, parent: Option<nat> :| Edit(a, b, le, u, g, parent);
    if parent.Some? {
      OptionsAre(a, le, u, g, parent.value, depth, n);
      DescendantsAre(a, le, AnyOf(), g, parent.value, depth, n);
    }
    hide Reaches; hide Options; hide Descendants;
    MovedRooted(a, u, g, parent, depth, n);
    assert Rooted(b, u, DepthAfter(a, g, n + 1, depth, n), 2 * n + 1);
  }
}
