/** Records with a parent id: ancestors, and descendants with a pruning block, both pushed onto a list that is
    handed down the recursion. */
module Tree {
  import opened Collections

  /** A row of a table; its index stands for the loaded record. Parent 0 means none. */
  datatype Node<D> = Node(id: nat, parentId: nat, data: D)

  predicate UniqueIds<D>(t: seq<Node<D>>) {
    && (forall x :: 0 <= x < |t| ==> t[x].id > 0)
    && forall x, y :: 0 <= x < |t| && 0 <= y < |t| && t[x].id == t[y].id ==> x == y
  }

  /** Children lie deeper than their parents, so the recursion ends. */
  ghost predicate Deep<D>(t: seq<Node<D>>, depth: nat -> nat, n: nat) {
    && (forall x :: 0 <= x < |t| ==> depth(x) <= n)
    && forall x, q :: 0 <= x < |t| && 0 <= q < |t| && t[x].parentId == t[q].id ==> depth(q) < depth(x)
  }

  predicate In<D>(t: seq<Node<D>>, ids: seq<nat>) {
    forall i :: 0 <= i < |ids| ==> ids[i] < |t|
  }

  function Insert<D>(t: seq<Node<D>>, le: (D, D) -> bool, x: nat, r: seq<nat>): (s: seq<nat>)
    requires In(t, r) && x < |t|
    ensures In(t, s) && forall y :: y in s <==> y == x || y in r
  {
    if r == [] then [x]
    else if le(t[r[|r| - 1]].data, t[x].data) then r + [x]
    else Insert(t, le, x, r[..|r| - 1]) + [r[|r| - 1]]
  }

  /** The children with the given parent id that pass the block, in the order asked for. */
  function Kids<D>(t: seq<Node<D>>, le: (D, D) -> bool, keep: nat -> bool, id: nat, n: nat): (r: seq<nat>)
    requires n <= |t|
    ensures In(t, r) && forall x: nat :: x in r <==> x < n && t[x].parentId == id && keep(x)
  {
    if n == 0 then []
    else
      var before := Kids(t, le, keep, id, n - 1);
      if t[n - 1].parentId == id && keep(n - 1) then Insert(t, le, n - 1, before) else before
  }

  function Children<D>(t: seq<Node<D>>, le: (D, D) -> bool, keep: nat -> bool, x: nat): (r: seq<nat>)
    requires x < |t|
    ensures In(t, r) && forall y: nat :: y in r <==> y < |t| && t[y].parentId == t[x].id && keep(y)
  {
    Kids(t, le, keep, t[x].id, |t|)
  }

  /** descendants: the record, then each child with its own descendants. */
  function Descendants<D>(t: seq<Node<D>>, le: (D, D) -> bool, keep: nat -> bool, x: nat, ghost depth: nat -> nat,
                          ghost n: nat): (r: seq<nat>)
    requires x < |t| && Deep(t, depth, n)
    ensures In(t, r) && |r| > 0 && r[0] == x
    decreases n - depth(x), 1, 0
  {
    [x] + BelowFirst(t, le, keep, x, |Children(t, le, keep, x)|, depth, n)
  }

  /** The descendants of the first m children. */
  function BelowFirst<D>(t: seq<Node<D>>, le: (D, D) -> bool, keep: nat -> bool, x: nat, m: nat,
                         ghost depth: nat -> nat, ghost n: nat): (r: seq<nat>)
    requires x < |t| && Deep(t, depth, n) && m <= |Children(t, le, keep, x)|
    ensures In(t, r)
    decreases n - depth(x), 0, m
  {
    if m == 0 then []
    else
      var kid := Children(t, le, keep, x)[m - 1];
      assert kid in Children(t, le, keep, x);
      BelowFirst(t, le, keep, x, m - 1, depth, n) + Descendants(t, le, keep, kid, depth, n)
  }

  /** The index of the parent, or |t|. */
  function ParentOf<D>(t: seq<Node<D>>, x: nat): (q: nat)
    requires x < |t|
    ensures q <= |t| && (q < |t| ==> t[q].id == t[x].parentId)
    ensures (q == |t| ==> forall y :: 0 <= y < |t| ==> t[y].id != t[x].parentId)
  {
    Find(t, t[x].parentId, |t|)
  }

  function Find<D>(t: seq<Node<D>>, id: nat, n: nat): (q: nat)
    requires n <= |t|
    ensures q <= |t| && (q < |t| ==> t[q].id == id) && (q == |t| ==> forall y :: 0 <= y < n ==> t[y].id != id)
  {
    if n == 0 then |t| else if t[n - 1].id == id then n - 1 else Find(t, id, n - 1)
  }

  /** ancestors: the topmost first, the record itself last. */
  function Ancestors<D>(t: seq<Node<D>>, x: nat, ghost depth: nat -> nat, ghost n: nat): (r: seq<nat>)
    requires x < |t| && Deep(t, depth, n)
    ensures In(t, r) && |r| > 0 && r[|r| - 1] == x
    decreases depth(x)
  {
    if ParentOf(t, x) < |t| then Ancestors(t, ParentOf(t, x), depth, n) + [x] else [x]
  }

  /** The array handed down the recursion. */
  class Items {
    var items: seq<nat>

    constructor ()
      ensures items == []
    {
      items := [];
    }

    method PushDescendants<D>(t: seq<Node<D>>, le: (D, D) -> bool, keep: nat -> bool, x: nat, ghost depth: nat -> nat,
                              ghost n: nat)
      requires x < |t| && Deep(t, depth, n)
      modifies this
      ensures items == old(items) + Descendants(t, le, keep, x, depth, n)
      decreases n - depth(x), 1
    {
      items := items + [x];
      PushChildren(t, le, keep, x, depth, n);
      assert old(items) + [x] + BelowFirst(t, le, keep, x, |Children(t, le, keep, x)|, depth, n) ==
        old(items) + Descendants(t, le, keep, x, depth, n);
    }

    /** The children, one by one, push their own descendants. */
    method PushChildren<D>(t: seq<Node<D>>, le: (D, D) -> bool, keep: nat -> bool, x: nat, ghost depth: nat -> nat,
                           ghost n: nat)
      requires x < |t| && Deep(t, depth, n)
      modifies this
      ensures items == old(items) + BelowFirst(t, le, keep, x, |Children(t, le, keep, x)|, depth, n)
      decreases n - depth(x), 0
    {
      var kids := Children(t, le, keep, x);
      for m := 0 to |kids|
        invariant items == old(items) + BelowFirst(t, le, keep, x, m, depth, n)
      {
        ghost var before := BelowFirst(t, le, keep, x, m, depth, n);
        hide Children; hide Descendants;
        assert kids[m] in kids;
        PushDescendants(t, le, keep, kids[m], depth, n);
        assert old(items) + before + Descendants(t, le, keep, kids[m], depth, n)
          == old(items) + (before + Descendants(t, le, keep, kids[m], depth, n));
      }
    }

    method PushAncestors<D>(t: seq<Node<D>>, x: nat, ghost depth: nat -> nat, ghost n: nat)
      requires x < |t| && Deep(t, depth, n)
      modifies this
      ensures items == old(items) + Ancestors(t, x, depth, n)
      decreases depth(x)
    {
      var q := ParentOf(t, x);
      if q < |t| {
        PushAncestors(t, q, depth, n);
      }
      items := items + [x];
    }
  }

  // ----- Which records the two walks list -----

  /** Every record on the way from x up to a, x and a included, a excepted, passes the block. */
  ghost predicate Reaches<D>(t: seq<Node<D>>, keep: nat -> bool, a: nat, x: nat, depth: nat -> nat, n: nat)
    requires a < |t| && x < |t| && Deep(t, depth, n)
    decreases depth(x)
  {
    x == a || (keep(x) && ParentOf(t, x) < |t| && Reaches(t, keep, a, ParentOf(t, x), depth, n))
  }

  lemma ParentIs<D>(t: seq<Node<D>>, x: nat, q: nat)
    requires UniqueIds(t) && x < |t| && q < |t| && t[x].parentId == t[q].id
    ensures ParentOf(t, x) == q
  {
  }

  lemma {:induction false} ReachesOn<D>(t: seq<Node<D>>, keep: nat -> bool, a: nat, b: nat, x: nat, depth: nat -> nat,
                                        n: nat)
    requires a < |t| && b < |t| && x < |t| && Deep(t, depth, n) && Reaches(t, keep, b, x, depth, n)
    requires Reaches(t, keep, a, b, depth, n)
    ensures Reaches(t, keep, a, x, depth, n)
    decreases depth(x)
  {
    if x != b { ReachesOn(t, keep, a, b, ParentOf(t, x), depth, n); }
  }

  lemma {:induction false} ListedReach<D>(t: seq<Node<D>>, le: (D, D) -> bool, keep: nat -> bool, a: nat, x: nat,
                                          depth: nat -> nat, n: nat)
    requires a < |t| && Deep(t, depth, n) && UniqueIds(t) && x in Descendants(t, le, keep, a, depth, n)
    ensures x < |t| && Reaches(t, keep, a, x, depth, n)
    decreases n - depth(a), 1, 0
  {
    hide Children; hide UniqueIds; hide BelowFirst; hide Reaches;
    if x != a {
      ListedReachFirst(t, le, keep, a, |Children(t, le, keep, a)|, x, depth, n);
    } else {
      ReachesSelf(t, keep, a, depth, n);
    }
  }

  lemma ReachesSelf<D>(t: seq<Node<D>>, keep: nat -> bool, a: nat, depth: nat -> nat, n: nat)
    requires a < |t| && Deep(t, depth, n)
    ensures Reaches(t, keep, a, a, depth, n)
  {
  }

  lemma KidReaches<D>(t: seq<Node<D>>, keep: nat -> bool, a: nat, kid: nat, depth: nat -> nat, n: nat)
    requires a < |t| && kid < |t| && t[kid].parentId == t[a].id && keep(kid) && Deep(t, depth, n) && UniqueIds(t)
    ensures Reaches(t, keep, a, kid, depth, n)
  {
    ParentIs(t, kid, a);
  }

  lemma {:induction false} ListedReachFirst<D>(t: seq<Node<D>>, le: (D, D) -> bool, keep: nat -> bool, a: nat, m: nat,
                                               x: nat, depth: nat -> nat, n: nat)
    requires a < |t| && Deep(t, depth, n) && UniqueIds(t) && m <= |Children(t, le, keep, a)|
    requires x in BelowFirst(t, le, keep, a, m, depth, n)
    ensures x < |t| && Reaches(t, keep, a, x, depth, n)
    decreases n - depth(a), 0, m
  {
    hide UniqueIds; hide Descendants; hide Reaches; hide Children;
    var kid := Children(t, le, keep, a)[m - 1];
    assert kid in Children(t, le, keep, a);
    if x in BelowFirst(t, le, keep, a, m - 1, depth, n) {
      ListedReachFirst(t, le, keep, a, m - 1, x, depth, n);
    } else {
      ListedReach(t, le, keep, kid, x, depth, n);
      KidReaches(t, keep, a, kid, depth, n);
      ReachesOn(t, keep, a, kid, x, depth, n);
    }
  }

  lemma {:induction false} KidListed<D>(t: seq<Node<D>>, le: (D, D) -> bool, keep: nat -> bool, a: nat, m: nat, i: nat,
                                        depth: nat -> nat, n: nat)
    requires a < |t| && Deep(t, depth, n) && i < m <= |Children(t, le, keep, a)|
    ensures Children(t, le, keep, a)[i] in BelowFirst(t, le, keep, a, m, depth, n)
    decreases m
  {
    hide Children;
    assert Children(t, le, keep, a)[m - 1] in Children(t, le, keep, a);
    if i < m - 1 { KidListed(t, le, keep, a, m - 1, i, depth, n); }
  }

  /** A child of a listed record that passes the block is listed. */
  lemma {:induction false} ChildListed<D>(t: seq<Node<D>>, le: (D, D) -> bool, keep: nat -> bool, a: nat, q: nat,
                                          x: nat, depth: nat -> nat, n: nat)
    requires a < |t| && q < |t| && x < |t| && Deep(t, depth, n) && q in Descendants(t, le, keep, a, depth, n)
    requires t[x].parentId == t[q].id && keep(x)
    ensures x in Descendants(t, le, keep, a, depth, n)
    decreases n - depth(a), 1, 0
  {
    hide Children;
    var kids := Children(t, le, keep, a);
    if q == a {
      assert x in kids;
      var i :| 0 <= i < |kids| && kids[i] == x;
      KidListed(t, le, keep, a, |kids|, i, depth, n);
    } else {
      ChildListedFirst(t, le, keep, a, |kids|, q, x, depth, n);
    }
  }

  lemma {:induction false} ChildListedFirst<D>(t: seq<Node<D>>, le: (D, D) -> bool, keep: nat -> bool, a: nat, m: nat,
                                               q: nat, x: nat,
                                               depth: nat -> nat, n: nat)
    requires a < |t| && q < |t| && x < |t| && Deep(t, depth, n) && m <= |Children(t, le, keep, a)|
    requires q in BelowFirst(t, le, keep, a, m, depth, n)
    requires t[x].parentId == t[q].id && keep(x)
    ensures x in BelowFirst(t, le, keep, a, m, depth, n)
    decreases n - depth(a), 0, m
  {
    hide Children; hide Descendants;
    var kid := Children(t, le, keep, a)[m - 1];
    assert kid in Children(t, le, keep, a);
    if q in BelowFirst(t, le, keep, a, m - 1, depth, n) {
      ChildListedFirst(t, le, keep, a, m - 1, q, x, depth, n);
    } else {
      ChildListed(t, le, keep, kid, q, x, depth, n);
    }
  }

  lemma {:induction false} ReachedListed<D>(t: seq<Node<D>>, le: (D, D) -> bool, keep: nat -> bool, a: nat, x: nat,
                                            depth: nat -> nat, n: nat)
    requires a < |t| && x < |t| && Deep(t, depth, n) && Reaches(t, keep, a, x, depth, n)
    ensures x in Descendants(t, le, keep, a, depth, n)
    decreases depth(x)
  {
    if x != a {
      ReachedListed(t, le, keep, a, ParentOf(t, x), depth, n);
      hide Descendants; hide Reaches;
      ChildListed(t, le, keep, a, ParentOf(t, x), x, depth, n);
    }
  }

  /** The block prunes whole subtrees: a record is listed exactly when nothing on its way up to the start is
      excluded. */
  lemma DescendantsAre<D>(t: seq<Node<D>>, le: (D, D) -> bool, keep: nat -> bool, a: nat, x: nat, depth: nat -> nat,
                          n: nat)
    requires a < |t| && x < |t| && Deep(t, depth, n) && UniqueIds(t)
    ensures x in Descendants(t, le, keep, a, depth, n) <==> Reaches(t, keep, a, x, depth, n)
  {
    hide *;
    if x in Descendants(t, le, keep, a, depth, n) { ListedReach(t, le, keep, a, x, depth, n); }
    if Reaches(t, keep, a, x, depth, n) { ReachedListed(t, le, keep, a, x, depth, n); }
  }

  /** Without a block the two walks are inverse: a is an ancestor of x exactly when x is a descendant of a. */
  lemma {:induction false} AncestorsReach<D>(t: seq<Node<D>>, a: nat, x: nat, depth: nat -> nat, n: nat)
    requires a < |t| && x < |t| && Deep(t, depth, n)
    ensures a in Ancestors(t, x, depth, n) <==> Reaches(t, y => true, a, x, depth, n)
    decreases depth(x)
  {
    if ParentOf(t, x) < |t| { AncestorsReach(t, a, ParentOf(t, x), depth, n); }
  }

  lemma WalksInverse<D>(t: seq<Node<D>>, le: (D, D) -> bool, a: nat, x: nat, depth: nat -> nat, n: nat)
    requires a < |t| && x < |t| && Deep(t, depth, n) && UniqueIds(t)
    ensures a in Ancestors(t, x, depth, n) <==> x in Descendants(t, le, y => true, a, depth, n)
  {
    AncestorsReach(t, a, x, depth, n);
    DescendantsAre(t, le, y => true, a, x, depth, n);
  }

  // ----- Order -----

  /** Every listed record but the first stands after its parent. */
  ghost predicate ParentsFirst<D>(t: seq<Node<D>>, r: seq<nat>, top: nat) {
    In(t, r) && forall j :: 0 <= j < |r| ==> r[j] == top || exists i :: 0 <= i < j && t[r[i]].id == t[r[j]].parentId
  }

  lemma {:induction false} DescendantsOrdered<D>(t: seq<Node<D>>, le: (D, D) -> bool, keep: nat -> bool, a: nat,
                                                 depth: nat -> nat, n: nat)
    requires a < |t| && Deep(t, depth, n)
    ensures ParentsFirst(t, Descendants(t, le, keep, a, depth, n), a)
    decreases n - depth(a), 1, 0
  {
    hide Children; hide BelowFirst;
    var kids := Children(t, le, keep, a);
    BelowOrdered(t, le, keep, a, |kids|, depth, n);
  }

  lemma {:induction false} BelowOrdered<D>(t: seq<Node<D>>, le: (D, D) -> bool, keep: nat -> bool, a: nat, m: nat,
                                           depth: nat -> nat, n: nat)
    requires a < |t| && Deep(t, depth, n) && m <= |Children(t, le, keep, a)|
    ensures ParentsFirst(t, [a] + BelowFirst(t, le, keep, a, m, depth, n), a)
    decreases n - depth(a), 0, m
  {
    hide Children; hide Descendants;
    if m > 0 {
      var kid := Children(t, le, keep, a)[m - 1];
      assert kid in Children(t, le, keep, a);
      BelowOrdered(t, le, keep, a, m - 1, depth, n);
      DescendantsOrdered(t, le, keep, kid, depth, n);
      var p, q := [a] + BelowFirst(t, le, keep, a, m - 1, depth, n), Descendants(t, le, keep, kid, depth, n);
      assert [a] + BelowFirst(t, le, keep, a, m, depth, n) == p + q;
      OrderedJoin(t, p, q, a, kid);
    }
  }

  lemma OrderedJoin<D>(t: seq<Node<D>>, p: seq<nat>, q: seq<nat>, a: nat, kid: nat)
    requires ParentsFirst(t, p, a) && ParentsFirst(t, q, kid) && |p| > 0 && p[0] == a && a < |t| && kid < |t|
    requires t[kid].parentId == t[a].id
    ensures ParentsFirst(t, p + q, a)
  {
    var r := p + q;
    forall j | 0 <= j < |r| ensures r[j] == a || exists i :: 0 <= i < j && t[r[i]].id == t[r[j]].parentId {
      if j < |p| {
        assert r[j] == p[j];
        if p[j] != a {
          var i :| 0 <= i < j && t[p[i]].id == t[p[j]].parentId;
          assert r[i] == p[i];
        }
      } else {
        assert r[j] == q[j - |p|];
        if q[j - |p|] == kid {
          assert r[0] == a;
        } else {
          var i :| 0 <= i < j - |p| && t[q[i]].id == t[q[j - |p|]].parentId;
          assert r[|p| + i] == q[i];
        }
      }
    }
  }

  // ----- Each record once -----

  lemma {:induction false} InsertOnce<D>(t: seq<Node<D>>, le: (D, D) -> bool, x: nat, r: seq<nat>)
    requires In(t, r) && x < |t| && NoRepeats(r) && x !in r
    ensures NoRepeats(Insert(t, le, x, r))
  {
    if r != [] {
      var init := r[..|r| - 1];
      forall i | 0 <= i < |init| ensures init[i] != r[|r| - 1] {}
      InsertOnce(t, le, x, init);
      assert r[|r| - 1] !in init && r[|r| - 1] !in Insert(t, le, x, init);
    }
  }

  lemma {:induction false} KidsOnce<D>(t: seq<Node<D>>, le: (D, D) -> bool, keep: nat -> bool, id: nat, n: nat)
    requires n <= |t|
    ensures NoRepeats(Kids(t, le, keep, id, n))
  {
    if n > 0 {
      KidsOnce(t, le, keep, id, n - 1);
      InsertOnce(t, le, n - 1, Kids(t, le, keep, id, n - 1));
    }
  }

  lemma {:induction false} ReachedDeeper<D>(t: seq<Node<D>>, keep: nat -> bool, a: nat, x: nat, depth: nat -> nat,
                                            n: nat)
    requires a < |t| && x < |t| && Deep(t, depth, n) && Reaches(t, keep, a, x, depth, n)
    ensures depth(a) <= depth(x) && (x != a ==> depth(a) < depth(x))
    decreases depth(x)
  {
    if x != a { ReachedDeeper(t, keep, a, ParentOf(t, x), depth, n); }
  }

  /** A record lies below one child of a group only. */
  lemma {:induction false} OneWayUp<D>(t: seq<Node<D>>, keep: nat -> bool, a: nat, j: nat, k: nat, x: nat,
                                       depth: nat -> nat, n: nat)
    requires a < |t| && j < |t| && k < |t| && x < |t| && Deep(t, depth, n) && UniqueIds(t)
    requires t[j].parentId == t[a].id && t[k].parentId == t[a].id
    requires Reaches(t, keep, j, x, depth, n) && Reaches(t, keep, k, x, depth, n)
    ensures j == k
    decreases depth(x)
  {
    ParentIs(t, j, a);
    ParentIs(t, k, a);
    if x == j {
      if x != k { ReachedDeeper(t, keep, k, a, depth, n); }
    } else if x == k {
      ReachedDeeper(t, keep, j, a, depth, n);
    } else {
      OneWayUp(t, keep, a, j, k, ParentOf(t, x), depth, n);
    }
  }

  lemma {:induction false} DescendantsOnce<D>(t: seq<Node<D>>, le: (D, D) -> bool, keep: nat -> bool, a: nat,
                                              depth: nat -> nat, n: nat)
    requires a < |t| && Deep(t, depth, n) && UniqueIds(t)
    ensures NoRepeats(Descendants(t, le, keep, a, depth, n))
    decreases n - depth(a), 1, 0
  {
    hide Children; hide BelowFirst; hide UniqueIds; hide NoRepeats;
    var kids := Children(t, le, keep, a);
    BelowOnce(t, le, keep, a, |kids|, depth, n);
    NotBelowItself(t, le, keep, a, |kids|, depth, n);
    OnceSingle(a);
    NoRepeatsJoin([a], BelowFirst(t, le, keep, a, |kids|, depth, n));
  }

  lemma OnceSingle(a: nat)
    ensures NoRepeats([a])
  {
  }

  lemma {:induction false} NotBelowItself<D>(t: seq<Node<D>>, le: (D, D) -> bool, keep: nat -> bool, a: nat, m: nat,
                                             depth: nat -> nat, n: nat)
    requires a < |t| && Deep(t, depth, n) && UniqueIds(t) && m <= |Children(t, le, keep, a)|
    ensures a !in BelowFirst(t, le, keep, a, m, depth, n)
    decreases m
  {
    hide Children; hide Descendants; hide UniqueIds; hide Reaches;
    if m > 0 {
      var kid := Children(t, le, keep, a)[m - 1];
      assert kid in Children(t, le, keep, a);
      NotBelowItself(t, le, keep, a, m - 1, depth, n);
      if a in Descendants(t, le, keep, kid, depth, n) {
        ListedReach(t, le, keep, kid, a, depth, n);
        ReachedDeeper(t, keep, kid, a, depth, n);
      }
    }
  }

  lemma ChildrenOnce<D>(t: seq<Node<D>>, le: (D, D) -> bool, keep: nat -> bool, a: nat, i: nat, j: nat)
    requires a < |t| && i < j < |Children(t, le, keep, a)|
    ensures Children(t, le, keep, a)[i] != Children(t, le, keep, a)[j]
    ensures forall k :: k in {Children(t, le, keep, a)[i], Children(t, le, keep, a)[j]} ==>
                  k < |t| && t[k].parentId == t[a].id
  {
    var kids := Children(t, le, keep, a);
    assert kids[i] in kids && kids[j] in kids;
    KidsOnce(t, le, keep, t[a].id, |t|);
  }

  lemma KidsApart<D>(t: seq<Node<D>>, le: (D, D) -> bool, keep: nat -> bool, a: nat, i: nat, j: nat, x: nat,
                     depth: nat -> nat, n: nat)
    requires a < |t| && Deep(t, depth, n) && UniqueIds(t) && i < j < |Children(t, le, keep, a)|
    requires Children(t, le, keep, a)[i] < |t| && Children(t, le, keep, a)[j] < |t|
    requires x in Descendants(t, le, keep, Children(t, le, keep, a)[i], depth, n)
    ensures x !in Descendants(t, le, keep, Children(t, le, keep, a)[j], depth, n)
  {
    var p, q := Children(t, le, keep, a)[i], Children(t, le, keep, a)[j];
    ChildrenOnce(t, le, keep, a, i, j);
    hide *;
    ListedReach(t, le, keep, p, x, depth, n);
    if x in Descendants(t, le, keep, q, depth, n) {
      ListedReach(t, le, keep, q, x, depth, n);
      OneWayUp(t, keep, a, p, q, x, depth, n);
    }
  }

  /** The walk lists no record twice. */
  lemma {:induction false} BelowOnce<D>(t: seq<Node<D>>, le: (D, D) -> bool, keep: nat -> bool, a: nat, m: nat,
                                        depth: nat -> nat, n: nat)
    requires a < |t| && Deep(t, depth, n) && UniqueIds(t) && m <= |Children(t, le, keep, a)|
    ensures NoRepeats(BelowFirst(t, le, keep, a, m, depth, n))
    decreases n - depth(a), 0, m
  {
    BelowNext(t, le, keep, a, m, depth, n);
    hide *;
    if m > 0 {
      var kid := Children(t, le, keep, a)[m - 1];
      BelowOnce(t, le, keep, a, m - 1, depth, n);
      DescendantsOnce(t, le, keep, kid, depth, n);
      KidsDisjoint(t, le, keep, a, m - 1, depth, n);
      NoRepeatsJoin(BelowFirst(t, le, keep, a, m - 1, depth, n), Descendants(t, le, keep, kid, depth, n));
    }
  }

  lemma BelowNext<D>(t: seq<Node<D>>, le: (D, D) -> bool, keep: nat -> bool, a: nat, m: nat, depth: nat -> nat, n: nat)
    requires a < |t| && Deep(t, depth, n) && m <= |Children(t, le, keep, a)|
    ensures m == 0 ==> NoRepeats(BelowFirst(t, le, keep, a, m, depth, n))
    ensures m > 0 ==> var kid := Children(t, le, keep, a)[m - 1];
      && kid < |t| && n >= depth(kid) > depth(a)
      && BelowFirst(t, le, keep, a, m, depth, n)
         == BelowFirst(t, le, keep, a, m - 1, depth, n) + Descendants(t, le, keep, kid, depth, n)
  {
    if m > 0 {
      assert Children(t, le, keep, a)[m - 1] in Children(t, le, keep, a);
      hide Children; hide Descendants;
    } else {
      hide Children;
    }
  }

  lemma KidsDisjoint<D>(t: seq<Node<D>>, le: (D, D) -> bool, keep: nat -> bool, a: nat, m: nat, depth: nat -> nat,
                        n: nat)
    requires a < |t| && Deep(t, depth, n) && UniqueIds(t) && m < |Children(t, le, keep, a)|
    requires Children(t, le, keep, a)[m] < |t|
    ensures forall x :: x in BelowFirst(t, le, keep, a, m, depth, n) ==>
      x !in Descendants(t, le, keep, Children(t, le, keep, a)[m], depth, n)
  {
    hide *;
    forall x | x in BelowFirst(t, le, keep, a, m, depth, n)
      ensures x !in Descendants(t, le, keep, Children(t, le, keep, a)[m], depth, n) {
      var i := FromKid(t, le, keep, a, m, x, depth, n);
      KidsApart(t, le, keep, a, i, m, x, depth, n);
    }
  }

  lemma {:induction false} FromKid<D>(t: seq<Node<D>>, le: (D, D) -> bool, keep: nat -> bool, a: nat, m: nat, x: nat,
                                      depth: nat -> nat, n: nat)
    returns (i: nat)
    requires a < |t| && Deep(t, depth, n) && m <= |Children(t, le, keep, a)|
    requires x in BelowFirst(t, le, keep, a, m, depth, n)
    ensures i < m && Children(t, le, keep, a)[i] < |t|
    ensures x in Descendants(t, le, keep, Children(t, le, keep, a)[i], depth, n)
    decreases m
  {
    hide Children; hide Descendants;
    assert Children(t, le, keep, a)[m - 1] in Children(t, le, keep, a);
    if x in BelowFirst(t, le, keep, a, m - 1, depth, n) {
      i := FromKid(t, le, keep, a, m - 1, x, depth, n);
    } else {
      i := m - 1;
    }
  }
}
