/** The order in which descendants come: a record before all below it, and siblings, each with all below it, in the
    order asked for. */
module TreeOrder {
  import opened Tree

  /** A total preorder, as a database sorts by. */
  ghost predicate Sorts<D(!new)>(le: (D, D) -> bool) {
    && (forall a, b :: le(a, b) || le(b, a))
    && forall a, b, c :: le(a, b) && le(b, c) ==> le(a, c)
  }

  /** x comes before y: it is less, or equal and stored earlier. */
  ghost predicate Before<D>(t: seq<Node<D>>, le: (D, D) -> bool, x: nat, y: nat)
    requires x < |t| && y < |t|
  {
    le(t[x].data, t[y].data) && (le(t[y].data, t[x].data) ==> x < y)
  }

  ghost predicate Ordered<D>(t: seq<Node<D>>, le: (D, D) -> bool, r: seq<nat>)
    requires In(t, r)
  {
    forall i, j :: 0 <= i < j < |r| ==> Before(t, le, r[i], r[j])
  }

  lemma {:induction false} InsertOrdered<D(!new)>(t: seq<Node<D>>, le: (D, D) -> bool, x: nat, r: seq<nat>)
    requires In(t, r) && x < |t| && Ordered(t, le, r) && Sorts(le) && forall i :: 0 <= i < |r| ==> r[i] < x
    ensures Ordered(t, le, Insert(t, le, x, r))
  {
    if r != [] {
      var init, last := r[..|r| - 1], r[|r| - 1];
      if le(t[last].data, t[x].data) {
        forall i | 0 <= i < |r| ensures Before(t, le, r[i], x) {
          if i < |r| - 1 { assert Before(t, le, r[i], last); }
        }
      } else {
        InsertOrdered(t, le, x, init);
        var s := Insert(t, le, x, init);
        forall i | 0 <= i < |s| ensures Before(t, le, s[i], last) {
          assert s[i] in s;
          if s[i] != x {
            var j :| 0 <= j < |init| && init[j] == s[i];
            assert r[j] == init[j];
          }
        }
      }
    }
  }

  lemma KidsBelow<D>(t: seq<Node<D>>, le: (D, D) -> bool, keep: nat -> bool, id: nat, n: nat)
    requires n <= |t|
    ensures forall i :: 0 <= i < |Kids(t, le, keep, id, n)| ==> Kids(t, le, keep, id, n)[i] < n
  {
    var r := Kids(t, le, keep, id, n);
    hide Kids;
    forall i | 0 <= i < |r| ensures r[i] < n { assert r[i] in r; }
  }

  /** The children that pass the block come in the order asked for. */
  lemma {:induction false} KidsOrdered<D(!new)>(t: seq<Node<D>>, le: (D, D) -> bool, keep: nat -> bool, id: nat, n: nat)
    requires n <= |t| && Sorts(le)
    ensures Ordered(t, le, Kids(t, le, keep, id, n))
  {
    hide Sorts; hide Before; hide Insert;
    if n > 0 {
      KidsOrdered(t, le, keep, id, n - 1);
      KidsBelow(t, le, keep, id, n - 1);
      InsertOrdered(t, le, n - 1, Kids(t, le, keep, id, n - 1));
      hide Ordered;
    }
  }

  /** x is listed before y: y lies below it, or they lie at or below siblings p before q. */
  ghost predicate Earlier<D>(t: seq<Node<D>>, le: (D, D) -> bool, keep: nat -> bool, x: nat, y: nat,
                             depth: nat -> nat, n: nat)
    requires x < |t| && y < |t| && Deep(t, depth, n)
  {
    (x != y && Reaches(t, keep, x, y, depth, n)) || exists p, q :: Branch(t, le, keep, x, y, p, q, depth, n)
  }

  ghost predicate Branch<D>(t: seq<Node<D>>, le: (D, D) -> bool, keep: nat -> bool, x: nat, y: nat, p: nat, q: nat,
                            depth: nat -> nat, n: nat)
    requires x < |t| && y < |t| && Deep(t, depth, n)
  {
    && p < |t| && q < |t| && t[p].parentId == t[q].parentId && Before(t, le, p, q)
    && Reaches(t, keep, p, x, depth, n) && Reaches(t, keep, q, y, depth, n)
  }

  ghost predicate InOrder<D>(t: seq<Node<D>>, le: (D, D) -> bool, keep: nat -> bool, r: seq<nat>, depth: nat -> nat,
                             n: nat)
    requires In(t, r) && Deep(t, depth, n)
  {
    forall i, j :: 0 <= i < j < |r| ==> Earlier(t, le, keep, r[i], r[j], depth, n)
  }

  /** The child under which a record below the first m children lies. */
  lemma {:induction false} UnderKid<D>(t: seq<Node<D>>, le: (D, D) -> bool, keep: nat -> bool, a: nat, m: nat, x: nat,
                                       depth: nat -> nat, n: nat) returns (i: nat)
    requires a < |t| && Deep(t, depth, n) && UniqueIds(t) && m <= |Children(t, le, keep, a)|
    requires x in BelowFirst(t, le, keep, a, m, depth, n)
    ensures i < m && x < |t| && Children(t, le, keep, a)[i] < |t|
    ensures Reaches(t, keep, Children(t, le, keep, a)[i], x, depth, n)
    decreases m
  {
    hide Children; hide Reaches; hide UniqueIds; hide Descendants;
    var kid := Children(t, le, keep, a)[m - 1];
    assert kid in Children(t, le, keep, a);
    if x in BelowFirst(t, le, keep, a, m - 1, depth, n) {
      i := UnderKid(t, le, keep, a, m - 1, x, depth, n);
    } else {
      i := m - 1;
      ListedReach(t, le, keep, kid, x, depth, n);
    }
  }

  /** Descendants come in this order. */
  lemma {:induction false} DescendantsInOrder<D(!new)>(t: seq<Node<D>>, le: (D, D) -> bool, keep: nat -> bool, a: nat,
                                                       depth: nat -> nat, n: nat)
    requires a < |t| && Deep(t, depth, n) && UniqueIds(t) && Sorts(le)
    ensures InOrder(t, le, keep, Descendants(t, le, keep, a, depth, n), depth, n)
    decreases n - depth(a), 1, 0
  {
    hide Children; hide Sorts; hide UniqueIds; hide Earlier;
    var m := |Children(t, le, keep, a)|;
    BelowInOrder(t, le, keep, a, m, depth, n);
    var r := BelowFirst(t, le, keep, a, m, depth, n);
    hide BelowFirst;
    forall j | 0 <= j < |r| ensures Earlier(t, le, keep, a, r[j], depth, n) {
      assert r[j] in r;
      FirstEarlier(t, le, keep, a, r[j], depth, n);
    }
  }

  lemma FirstEarlier<D>(t: seq<Node<D>>, le: (D, D) -> bool, keep: nat -> bool, a: nat, x: nat, depth: nat -> nat,
                        n: nat)
    requires a < |t| && Deep(t, depth, n) && UniqueIds(t)
    requires x in BelowFirst(t, le, keep, a, |Children(t, le, keep, a)|, depth, n)
    ensures x < |t| && Earlier(t, le, keep, a, x, depth, n)
  {
    hide Children; hide UniqueIds;
    var i := UnderKid(t, le, keep, a, |Children(t, le, keep, a)|, x, depth, n);
    var kid := Children(t, le, keep, a)[i];
    assert kid in Children(t, le, keep, a);
    ChildReaches(t, le, keep, a, kid, depth, n);
    ReachedDeeper(t, keep, kid, x, depth, n);
    ReachesOn(t, keep, a, kid, x, depth, n);
  }

  lemma ChildReaches<D>(t: seq<Node<D>>, le: (D, D) -> bool, keep: nat -> bool, a: nat, kid: nat, depth: nat -> nat,
                        n: nat)
    requires a < |t| && Deep(t, depth, n) && UniqueIds(t) && kid in Children(t, le, keep, a)
    ensures kid < |t| && t[kid].parentId == t[a].id && depth(a) < depth(kid) && Reaches(t, keep, a, kid, depth, n)
  {
    hide UniqueIds;
    KidReaches(t, keep, a, kid, depth, n);
  }

  lemma SiblingsEarlier<D(!new)>(t: seq<Node<D>>, le: (D, D) -> bool, keep: nat -> bool, a: nat, m: nat, x: nat,
                                 y: nat, depth: nat -> nat, n: nat)
    requires a < |t| && Deep(t, depth, n) && UniqueIds(t) && Sorts(le) && m < |Children(t, le, keep, a)|
    requires x in BelowFirst(t, le, keep, a, m, depth, n) && Children(t, le, keep, a)[m] < |t| && y < |t|
    requires Reaches(t, keep, Children(t, le, keep, a)[m], y, depth, n)
    ensures x < |t| && Earlier(t, le, keep, x, y, depth, n)
  {
    var kids := Children(t, le, keep, a);
    KidsOrdered(t, le, keep, t[a].id, |t|);
    hide UniqueIds; hide Sorts; hide Kids; hide BelowFirst; hide Reaches;
    var i := UnderKid(t, le, keep, a, m, x, depth, n);
    assert kids[i] in kids && kids[m] in kids;
    assert Branch(t, le, keep, x, y, kids[i], kids[m], depth, n);
  }

  lemma {:induction false} BelowInOrder<D(!new)>(t: seq<Node<D>>, le: (D, D) -> bool, keep: nat -> bool, a: nat, m: nat,
                                                 depth: nat -> nat, n: nat)
    requires a < |t| && Deep(t, depth, n) && UniqueIds(t) && Sorts(le) && m <= |Children(t, le, keep, a)|
    ensures InOrder(t, le, keep, BelowFirst(t, le, keep, a, m, depth, n), depth, n)
    decreases n - depth(a), 0, m
  {
    hide Children; hide Sorts; hide UniqueIds; hide Earlier; hide Descendants; hide Reaches;
    if m > 0 {
      var kid := Children(t, le, keep, a)[m - 1];
      assert kid in Children(t, le, keep, a);
      BelowInOrder(t, le, keep, a, m - 1, depth, n);
      DescendantsInOrder(t, le, keep, kid, depth, n);
      var p, q := BelowFirst(t, le, keep, a, m - 1, depth, n), Descendants(t, le, keep, kid, depth, n);
      forall i, j | 0 <= i < |p| && 0 <= j < |q| ensures Earlier(t, le, keep, p[i], q[j], depth, n) {
        assert p[i] in p && q[j] in q;
        ListedReach(t, le, keep, kid, q[j], depth, n);
        SiblingsEarlier(t, le, keep, a, m - 1, p[i], q[j], depth, n);
      }
    }
  }

  /** Everything in r lies at or below one of the first m roots. */
  ghost predicate UnderFirst<D>(t: seq<Node<D>>, keep: nat -> bool, roots: seq<nat>, m: nat, r: seq<nat>,
                                depth: nat -> nat, n: nat)
    requires Deep(t, depth, n) && In(t, roots) && In(t, r) && m <= |roots|
  {
    forall j :: 0 <= j < |r| ==> exists i :: 0 <= i < m && Reaches(t, keep, roots[i], r[j], depth, n)
  }

  lemma NoneInOrder<D>(t: seq<Node<D>>, le: (D, D) -> bool, keep: nat -> bool, roots: seq<nat>, depth: nat -> nat,
                       n: nat)
    requires Deep(t, depth, n) && In(t, roots)
    ensures In(t, []) && InOrder(t, le, keep, [], depth, n) && UnderFirst(t, keep, roots, 0, [], depth, n)
  {
  }

  /** Another root with all below it, after those before it. */
  lemma RootsJoin<D(!new)>(t: seq<Node<D>>, le: (D, D) -> bool, keep: nat -> bool, roots: seq<nat>, m: nat,
                           p: seq<nat>, depth: nat -> nat, n: nat)
    requires Deep(t, depth, n) && UniqueIds(t) && Sorts(le) && In(t, roots) && m < |roots| && Ordered(t, le, roots)
    requires forall i :: 0 <= i < |roots| ==> t[roots[i]].parentId == 0
    requires In(t, p) && InOrder(t, le, keep, p, depth, n) && UnderFirst(t, keep, roots, m, p, depth, n)
    ensures roots[m] < |t|
    ensures var r := p + Descendants(t, le, keep, roots[m], depth, n);
      InOrder(t, le, keep, r, depth, n) && UnderFirst(t, keep, roots, m + 1, r, depth, n)
  {
    var q := Descendants(t, le, keep, roots[m], depth, n);
    DescendantsInOrder(t, le, keep, roots[m], depth, n);
    hide Descendants; hide UniqueIds; hide Sorts; hide Reaches;
    forall j | 0 <= j < |q| ensures Reaches(t, keep, roots[m], q[j], depth, n) {
      assert q[j] in q;
      ListedReach(t, le, keep, roots[m], q[j], depth, n);
    }
    forall i, j | 0 <= i < |p| && 0 <= j < |q| ensures Earlier(t, le, keep, p[i], q[j], depth, n) {
      var k :| 0 <= k < m && Reaches(t, keep, roots[k], p[i], depth, n);
      assert Branch(t, le, keep, p[i], q[j], roots[k], roots[m], depth, n);
    }
    hide Earlier;
  }
}
