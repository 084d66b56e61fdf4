/** The order in which user rows are followed: group by group from the top, and under one group by sort number and
    code. */
module LdapOrder {
  import opened Collections
  import opened LdapMirror
  import opened LdapStaging
  import opened LdapSync
  import opened Text

  /** Row i comes before row j under the same parent: by sort number, then code, then id. */
  ghost predicate RowBefore(t: seq<Row>, i: nat, j: nat)
    requires 1 <= i <= |t| && 1 <= j <= |t|
  {
    var a, b := t[i - 1], t[j - 1];
    Less(a.sortNo, b.sortNo) || (a.sortNo == b.sortNo && (Less(a.code, b.code) || (a.code == b.code && i < j)))
  }

  lemma BeforeTransitive(t: seq<Row>, i: nat, j: nat, k: nat)
    requires 1 <= i <= |t| && 1 <= j <= |t| && 1 <= k <= |t| && RowBefore(t, i, j) && RowBefore(t, j, k)
    ensures RowBefore(t, i, k)
  {
    var a, b, c := t[i - 1], t[j - 1], t[k - 1];
    if Less(a.sortNo, b.sortNo) && Less(b.sortNo, c.sortNo) { LessTransitive(a.sortNo, b.sortNo, c.sortNo); }
    if Less(a.code, b.code) && Less(b.code, c.code) { LessTransitive(a.code, b.code, c.code); }
  }

  ghost predicate InRowOrder(t: seq<Row>, ids: seq<nat>)
    requires Ids(t, ids)
  {
    forall p, q :: 0 <= p < q < |ids| ==> RowBefore(t, ids[p], ids[q])
  }

  lemma LeIs(t: seq<Row>, i: nat, k: nat)
    requires 1 <= i < k <= |t|
    ensures if RowLe(t[i - 1], t[k - 1]) then RowBefore(t, i, k) else RowBefore(t, k, i)
  {
    LessTotal(t[i - 1].sortNo, t[k - 1].sortNo);
    LessTotal(t[i - 1].code, t[k - 1].code);
  }

  lemma OrderAppend(t: seq<Row>, ids: seq<nat>, k: nat)
    requires Ids(t, ids) && InRowOrder(t, ids) && 1 <= k <= |t| && |ids| > 0 && RowBefore(t, ids[|ids| - 1], k)
    ensures Ids(t, ids + [k]) && InRowOrder(t, ids + [k])
  {
    hide RowBefore;
    forall p | 0 <= p < |ids| ensures RowBefore(t, ids[p], k) {
      if p < |ids| - 1 { BeforeTransitive(t, ids[p], ids[|ids| - 1], k); }
    }
  }

  lemma {:induction false} InsertOrdered(t: seq<Row>, k: nat, ids: seq<nat>)
    requires Ids(t, ids) && InRowOrder(t, ids) && 1 <= k <= |t| && forall x :: x in ids ==> x < k
    ensures InRowOrder(t, Insert(t, k, ids))
  {
    hide RowBefore; hide RowLe;
    if ids != [] {
      var n := |ids| - 1;
      var init, last := ids[..n], ids[n];
      assert last in ids;
      LeIs(t, last, k);
      if RowLe(t[last - 1], t[k - 1]) {
        OrderAppend(t, ids, k);
      } else {
        assert forall x :: x in init ==> x in ids;
        InsertOrdered(t, k, init);
        var r := Insert(t, k, init);
        forall p | 0 <= p < |r| ensures RowBefore(t, r[p], last) {
          assert r[p] in r;
          if r[p] != k {
            var q :| 0 <= q < |init| && init[q] == r[p];
            assert ids[q] == init[q];
          }
        }
      }
    }
  }

  lemma {:induction false} SortOrdered(t: seq<Row>, ids: seq<nat>)
    requires Ids(t, ids) && forall p, q :: 0 <= p < q < |ids| ==> ids[p] < ids[q]
    ensures InRowOrder(t, Sort(t, ids))
  {
    hide RowBefore; hide Insert;
    if ids != [] {
      var n := |ids| - 1;
      SortOrdered(t, ids[..n]);
      InsertOrdered(t, ids[n], Sort(t, ids[..n]));
    }
  }

  lemma {:induction false} SelectedAscends(t: seq<Row>, id: nat, group: bool, n: nat)
    requires n <= |t|
    ensures forall p, q :: 0 <= p < q < |Selected(t, id, group, n)| ==>
      Selected(t, id, group, n)[p] < Selected(t, id, group, n)[q]
  {
    if n > 0 {
      SelectedAscends(t, id, group, n - 1);
      var before := Selected(t, id, group, n - 1);
      forall p | 0 <= p < |before| ensures before[p] < n { assert before[p] in before; }
    }
  }

  /** children and users come by sort number, then code, then id; and each row once. */
  lemma QueryOrdered(t: seq<Row>, id: nat, group: bool)
    ensures InRowOrder(t, Query(t, id, group)) && NoRepeats(Query(t, id, group))
  {
    SelectedAscends(t, id, group, |t|);
    hide Sort; hide Selected;
    SortOrdered(t, Selected(t, id, group, |t|));
    var r := Query(t, id, group);
    forall p, q | 0 <= p < q < |r| ensures r[p] != r[q] {
      assert RowBefore(t, r[p], r[q]);
      LessTotal(t[r[p] - 1].sortNo, t[r[p] - 1].sortNo);
      LessTotal(t[r[p] - 1].code, t[r[p] - 1].code);
    }
  }

  // ----- Which rows are visited -----

  predicate IsUser(t: seq<Row>, j: nat) {
    1 <= j <= |t| && !t[j - 1].group
  }

  lemma {:induction false} VisitsAre(t: seq<Row>, k: nat)
    requires Rooted(t) && IsGroup(t, k)
    ensures forall j :: j in Visits(t, k) ==> IsUser(t, j) && t[j - 1].parentId in Below(t, k)
    decreases |t| - k, 1, 0
  {
    hide Query; hide Rooted; hide BelowKids;
    assert k in Below(t, k);
    KidVisitsAre(t, k, |Query(t, k, true)|);
  }

  lemma {:induction false} KidVisitsAre(t: seq<Row>, k: nat, n: nat)
    requires Rooted(t) && k <= |t| && n <= |Query(t, k, true)|
    ensures forall j :: j in KidVisits(t, k, n) ==> IsUser(t, j) && t[j - 1].parentId in BelowKids(t, k, n)
    decreases |t| - k, 0, n
  {
    hide Query; hide Visits; hide Below;
    if n > 0 {
      var kid := Query(t, k, true)[n - 1];
      assert kid in Query(t, k, true);
      assert k < kid;
      hide Rooted;
      KidVisitsAre(t, k, n - 1);
      VisitsAre(t, kid);
    }
  }

  /** The visits of a reached row are among all visits. */
  lemma {:induction false} ReachedVisits(t: seq<Row>, k: nat, q: nat, x: nat)
    requires Rooted(t) && 1 <= k <= |t| && q in Below(t, k) && 1 <= q <= |t| && x in Visits(t, q)
    ensures x in Visits(t, k)
    decreases |t| - k, 1, 0
  {
    hide Query; hide Rooted; hide KidVisits; hide BelowKids;
    if q != k {
      ReachedKidVisits(t, k, |Query(t, k, true)|, q, x);
    }
  }

  lemma {:induction false} ReachedKidVisits(t: seq<Row>, k: nat, n: nat, q: nat, x: nat)
    requires Rooted(t) && k <= |t| && n <= |Query(t, k, true)| && q in BelowKids(t, k, n) && 1 <= q <= |t|
    requires x in Visits(t, q)
    ensures x in KidVisits(t, k, n)
    decreases |t| - k, 0, n
  {
    hide Query; hide Below; hide Visits;
    var kid := Query(t, k, true)[n - 1];
    assert kid in Query(t, k, true);
    assert k < kid;
    hide Rooted;
    if q in BelowKids(t, k, n - 1) { ReachedKidVisits(t, k, n - 1, q, x); } else { ReachedVisits(t, kid, q, x); }
  }

  /** All user rows in the order in which they are followed. */
  function AllVisits(t: seq<Row>): (w: seq<nat>)
    requires Rooted(t)
    ensures Ids(t, w)
  {
    KidVisits(t, 0, |Query(t, 0, true)|)
  }

  lemma OwnVisit(t: seq<Row>, j: nat)
    requires Rooted(t) && IsUser(t, j)
    ensures IsGroup(t, t[j - 1].parentId) && j in Visits(t, t[j - 1].parentId)
  {
    hide KidVisits;
    assert j in Query(t, t[j - 1].parentId, false);
  }

  /** The rows visited are exactly the user rows. */
  lemma VisitedIff(t: seq<Row>, j: nat)
    requires Rooted(t)
    ensures j in AllVisits(t) <==> IsUser(t, j)
  {
    hide Query; hide KidVisits; hide Visits; hide Rooted; hide BelowKids;
    KidVisitsAre(t, 0, |Query(t, 0, true)|);
    if IsUser(t, j) {
      OwnVisit(t, j);
      AllReached(t, t[j - 1].parentId);
      ReachedKidVisits(t, 0, |Query(t, 0, true)|, t[j - 1].parentId, j);
    }
  }

  // ----- In which order -----

  /** Group row c lies at or below group row a. */
  ghost predicate AtOrBelow(t: seq<Row>, a: nat, c: nat)
    requires Rooted(t) && c <= |t|
    decreases c
  {
    c == a || (c > 0 && AtOrBelow(t, a, t[c - 1].parentId))
  }

  /** Group row a is passed before group row b: b lies below a, or they lie at or below siblings x before y. */
  ghost predicate GroupBefore(t: seq<Row>, a: nat, b: nat)
    requires Rooted(t) && a <= |t| && b <= |t|
  {
    (a != b && AtOrBelow(t, a, b)) || exists x, y :: Branch(t, a, b, x, y)
  }

  ghost predicate Branch(t: seq<Row>, a: nat, b: nat, x: nat, y: nat)
    requires Rooted(t) && a <= |t| && b <= |t|
  {
    && IsGroup(t, x) && IsGroup(t, y) && t[x - 1].parentId == t[y - 1].parentId && RowBefore(t, x, y)
    && AtOrBelow(t, x, a) && AtOrBelow(t, y, b)
  }

  /** User row i is followed before user row j. */
  ghost predicate FollowedBefore(t: seq<Row>, i: nat, j: nat)
    requires Rooted(t) && 1 <= i <= |t| && 1 <= j <= |t|
  {
    assert t[i - 1].parentId <= i - 1 && t[j - 1].parentId <= j - 1;
    if t[i - 1].parentId == t[j - 1].parentId then RowBefore(t, i, j)
    else GroupBefore(t, t[i - 1].parentId, t[j - 1].parentId)
  }

  lemma {:induction false} BelowIsBelow(t: seq<Row>, k: nat, c: nat)
    requires Rooted(t) && 1 <= k <= |t| && c in Below(t, k)
    ensures k <= c <= |t| && AtOrBelow(t, k, c)
    decreases |t| - k, 1, 0
  {
    hide Query; hide Rooted; hide BelowKids;
    if c != k { var kid := BelowKid(t, k, |Query(t, k, true)|, c); }
  }

  lemma {:induction false} Under(t: seq<Row>, k: nat, kid: nat, c: nat)
    requires Rooted(t) && IsGroup(t, kid) && t[kid - 1].parentId == k && c <= |t| && AtOrBelow(t, kid, c)
    ensures AtOrBelow(t, k, c)
    decreases c
  {
    assert t[kid - 1].parentId <= kid - 1;
    if c != kid { Under(t, k, kid, t[c - 1].parentId); }
  }

  lemma {:induction false} BelowKid(t: seq<Row>, k: nat, n: nat, c: nat) returns (i: nat)
    requires Rooted(t) && k <= |t| && n <= |Query(t, k, true)| && c in BelowKids(t, k, n)
    ensures i < n && k < Query(t, k, true)[i] <= c <= |t| && AtOrBelow(t, Query(t, k, true)[i], c)
    ensures AtOrBelow(t, k, c)
    decreases |t| - k, 0, n
  {
    hide Query; hide Below;
    var kid := Query(t, k, true)[n - 1];
    assert kid in Query(t, k, true);
    assert k < kid;
    if c in BelowKids(t, k, n - 1) {
      i := BelowKid(t, k, n - 1, c);
    } else {
      i := n - 1;
      BelowIsBelow(t, kid, c);
      Under(t, k, kid, c);
    }
  }

  ghost predicate InOrder(t: seq<Row>, w: seq<nat>)
    requires Rooted(t) && Ids(t, w)
  {
    forall p, q :: 0 <= p < q < |w| ==> FollowedBefore(t, w[p], w[q])
  }

  lemma OwnBefore(t: seq<Row>, k: nat, i: nat, j: nat)
    requires Rooted(t) && IsGroup(t, k) && 1 <= i <= |t| && t[i - 1].parentId == k && 1 <= j <= |t|
    requires t[j - 1].parentId in BelowKids(t, k, |Query(t, k, true)|)
    ensures FollowedBefore(t, i, j)
  {
    hide Query; hide RowBefore;
    var m := BelowKid(t, k, |Query(t, k, true)|, t[j - 1].parentId);
  }

  lemma {:induction false} VisitsInOrder(t: seq<Row>, k: nat)
    requires Rooted(t) && IsGroup(t, k)
    ensures InOrder(t, Visits(t, k))
    decreases |t| - k, 1, 0
  {
    hide Query; hide FollowedBefore; hide BelowKids;
    var own, n := Query(t, k, false), |Query(t, k, true)|;
    var rest := KidVisits(t, k, n);
    QueryOrdered(t, k, false);
    KidVisitsInOrder(t, k, n);
    KidVisitsAre(t, k, n);
    hide Rooted;
    forall p, q | 0 <= p < q < |own| ensures FollowedBefore(t, own[p], own[q]) {
      assert own[p] in own && own[q] in own;
      SameGroupBefore(t, own[p], own[q]);
    }
    forall p, q | 0 <= p < |own| && 0 <= q < |rest| ensures FollowedBefore(t, own[p], rest[q]) {
      assert own[p] in own && rest[q] in rest;
      OwnBefore(t, k, own[p], rest[q]);
    }
  }

  lemma SameGroupBefore(t: seq<Row>, i: nat, j: nat)
    requires Rooted(t) && 1 <= i <= |t| && 1 <= j <= |t| && t[i - 1].parentId == t[j - 1].parentId
    requires RowBefore(t, i, j)
    ensures FollowedBefore(t, i, j)
  {
  }

  lemma SiblingsBefore(t: seq<Row>, k: nat, n: nat, i: nat, j: nat)
    requires Rooted(t) && k <= |t| && n < |Query(t, k, true)| && 1 <= i <= |t| && 1 <= j <= |t|
    requires t[i - 1].parentId in BelowKids(t, k, n)
    requires 1 <= Query(t, k, true)[n] <= |t| && t[j - 1].parentId in Below(t, Query(t, k, true)[n])
    ensures FollowedBefore(t, i, j)
  {
    var kids := Query(t, k, true);
    QueryOrdered(t, k, true);
    hide Query; hide RowBefore; hide BelowKids; hide Below;
    var a, b, y := t[i - 1].parentId, t[j - 1].parentId, kids[n];
    var m := BelowKid(t, k, n, a);
    var x := kids[m];
    assert x in kids && y in kids;
    BelowIsBelow(t, y, b);
    assert Branch(t, a, b, x, y);
    if a == b { SiblingsApart(t, k, x, y, a); }
  }

  /** Nothing lies below two siblings. */
  lemma {:induction false} SiblingsApart(t: seq<Row>, k: nat, x: nat, y: nat, c: nat)
    requires Rooted(t) && IsGroup(t, x) && IsGroup(t, y) && t[x - 1].parentId == t[y - 1].parentId == k && c <= |t|
    requires AtOrBelow(t, x, c) && AtOrBelow(t, y, c)
    ensures x == y
    decreases c
  {
    assert k < x && k < y;
    if c == x {
      if y != x { BelowIsLater(t, y, k); }
    } else if c == y {
      BelowIsLater(t, x, k);
    } else {
      SiblingsApart(t, k, x, y, t[c - 1].parentId);
    }
  }

  lemma {:induction false} BelowIsLater(t: seq<Row>, a: nat, c: nat)
    requires Rooted(t) && c <= |t| && AtOrBelow(t, a, c)
    ensures a <= c
    decreases c
  {
    if c != a { BelowIsLater(t, a, t[c - 1].parentId); }
  }

  lemma {:induction false} KidVisitsInOrder(t: seq<Row>, k: nat, n: nat)
    requires Rooted(t) && k <= |t| && n <= |Query(t, k, true)|
    ensures InOrder(t, KidVisits(t, k, n))
    decreases |t| - k, 0, n
  {
    hide Query; hide FollowedBefore; hide Visits; hide Below; hide BelowKids;
    if n > 0 {
      var kid := Query(t, k, true)[n - 1];
      assert kid in Query(t, k, true);
      assert k < kid;
      hide Rooted;
      KidVisitsInOrder(t, k, n - 1);
      VisitsInOrder(t, kid);
      KidVisitsAre(t, k, n - 1);
      VisitsAre(t, kid);
      var x, y := KidVisits(t, k, n - 1), Visits(t, kid);
      forall p, q | 0 <= p < |x| && 0 <= q < |y| ensures FollowedBefore(t, x[p], y[q]) {
        assert x[p] in x && y[q] in y;
        SiblingsBefore(t, k, n - 1, x[p], y[q]);
      }
    }
  }

  lemma AllInOrder(t: seq<Row>)
    requires Rooted(t)
    ensures InOrder(t, AllVisits(t))
  {
    hide KidVisits; hide Query; hide Rooted; hide FollowedBefore;
    KidVisitsInOrder(t, 0, |Query(t, 0, true)|);
  }

  lemma OrderAt(t: seq<Row>, w: seq<nat>, p: nat, q: nat)
    requires Rooted(t) && Ids(t, w) && InOrder(t, w) && p < q < |w|
    ensures 1 <= w[p] <= |t| && 1 <= w[q] <= |t| && FollowedBefore(t, w[p], w[q])
  {
    hide FollowedBefore; hide Rooted;
  }

  lemma LastInOrder(t: seq<Row>, w: seq<nat>, account: string, i: nat)
    requires Rooted(t) && Ids(t, w) && InOrder(t, w) && i in w && t[i - 1].code == account
    ensures var j := LastVisit(t, w, account); 1 <= j <= |t| && 1 <= i && (i == j || FollowedBefore(t, i, j))
  {
    hide *;
    var p :| 0 <= p < |w| && w[p] == i;
    IdAt(t, w, p);
    var q := LastAt(t, w, account, p);
    IdAt(t, w, q);
    if p < q { OrderAt(t, w, p, q); }
  }

  lemma IdAt(t: seq<Row>, w: seq<nat>, p: nat)
    requires Ids(t, w) && p < |w|
    ensures 1 <= w[p] <= |t|
  {
  }

  /** The row an account follows is its last listing: every other row that names it is followed before. */
  lemma LastListing(t: seq<Row>, account: string, i: nat)
    requires Rooted(t) && IsUser(t, i) && t[i - 1].code == account
    ensures var j := LastVisit(t, AllVisits(t), account);
      1 <= j <= |t| && t[j - 1].code == account && (i == j || FollowedBefore(t, i, j))
  {
    IsUserAt(t, i);
    hide *;
    AllInOrder(t);
    VisitedIff(t, i);
    LastInOrder(t, AllVisits(t), account, i);
  }

  lemma IsUserAt(t: seq<Row>, i: nat)
    requires IsUser(t, i)
    ensures 1 <= i <= |t|
  {
  }

  lemma {:induction false} LastAt(t: seq<Row>, w: seq<nat>, account: string, p: nat) returns (q: nat)
    requires Ids(t, w) && p < |w| && t[w[p] - 1].code == account
    ensures p <= q < |w| && w[q] == LastVisit(t, w, account)
  {
    if t[w[|w| - 1] - 1].code == account { q := |w| - 1; } else { q := LastAt(t, w[..|w| - 1], account, p); }
  }
}
