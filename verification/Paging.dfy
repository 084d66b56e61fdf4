/** Listing pages, starred order, and links from mail to mail. */
module Paging {
  import opened Collections
  import opened Wrappers

  /** One comma-separated element of a PARTIAL response. */
  datatype Element = Nil | One(uid: nat) | Range(first: nat, last: nat)

  function Up(a: nat, b: nat): (r: seq<nat>)
    ensures |r| == (if a <= b then b - a + 1 else 0) && forall i :: 0 <= i < |r| ==> r[i] == a + i
    decreases b + 1 - a
  {
    if a > b then [] else [a] + Up(a + 1, b)
  }

  function Down(a: nat, b: nat): (r: seq<nat>)
    ensures |r| == (if a >= b then a - b + 1 else 0) && forall i :: 0 <= i < |r| ==> r[i] == a - i
  {
    if a < b then [] else if a == 0 then [0] else [a] + Down(a - 1, b)
  }

  /** The numbers from the first to the last one of an element, none when they descend. */
  function Expand(e: Element): seq<nat> {
    match e
    case Nil => []
    case One(u) => Up(u, u)
    case Range(a, b) => Up(a, b)
  }

  /** What an element stands for in a sorted answer. That a range a server writes downwards runs downwards is how
      this model reads section 4.4 of RFC 5267, where the elements follow the sort order of the result. */
  function Meaning(e: Element): seq<nat> {
    match e
    case Nil => []
    case One(u) => [u]
    case Range(a, b) => if a <= b then Up(a, b) else Down(a, b)
  }

  function ExpandAll(es: seq<Element>): seq<nat> {
    if es == [] then [] else ExpandAll(es[..|es| - 1]) + Expand(es[|es| - 1])
  }

  function MeaningAll(es: seq<Element>): seq<nat> {
    if es == [] then [] else MeaningAll(es[..|es| - 1]) + Meaning(es[|es| - 1])
  }

  method ExtendPartialUids(es: seq<Element>) returns (uids: seq<nat>)
    ensures uids == ExpandAll(es)
  {
    uids := [];
    for k := 0 to |es|
      invariant uids == ExpandAll(es[..k])
    {
      assert es[..k + 1][..k] == es[..k];
      match es[k] {
        case Nil =>
        case One(u) => uids := uids + Up(u, u);
        case Range(a, b) => uids := uids + Up(a, b);
      }
    }
    assert es[..|es|] == es;
  }

  predicate Descends(e: Element) {
    e.Range? && e.first > e.last
  }

  ghost predicate NoneDescends(es: seq<Element>) {
    forall i :: 0 <= i < |es| ==> !Descends(es[i])
  }

  lemma ExpandOne(e: Element)
    ensures |Expand(e)| <= |Meaning(e)| && (|Expand(e)| == |Meaning(e)| <==> !Descends(e))
    ensures !Descends(e) ==> Expand(e) == Meaning(e)
  {
  }

  lemma NoneDescendsLast(init: seq<Element>, last: Element)
    ensures NoneDescends(init + [last]) <==> NoneDescends(init) && !Descends(last)
  {
    var es := init + [last];
    assert es[|init|] == last && forall i :: 0 <= i < |init| ==> es[i] == init[i];
  }

  lemma {:induction false} ExpandAtMost(es: seq<Element>)
    ensures |ExpandAll(es)| <= |MeaningAll(es)|
    ensures |ExpandAll(es)| == |MeaningAll(es)| <==> NoneDescends(es)
  {
    hide Expand; hide Meaning; hide Descends; hide NoneDescends;
    if es == [] {
      assert NoneDescends(es) by { NoElements(); }
    } else {
      var init, last := es[..|es| - 1], es[|es| - 1];
      ExpandAtMost(init);
      ExpandOne(last);
      NoneDescendsLast(init, last);
      assert es == init + [last];
    }
  }

  lemma NoElements()
    ensures NoneDescends([])
  {
  }

  lemma {:induction false} ExpandSame(es: seq<Element>)
    requires NoneDescends(es)
    ensures ExpandAll(es) == MeaningAll(es)
  {
    if es != [] {
      var init, last := es[..|es| - 1], es[|es| - 1];
      assert es == init + [last];
      NoneDescendsLast(init, last);
      ExpandOne(last);
      hide Expand; hide Meaning; hide Descends; hide NoneDescends;
      ExpandSame(init);
    }
  }

  /** The response is read back as sent exactly when no range in it descends; then nothing is lost,
      otherwise UIDs are. */
  lemma PartialReadBack(es: seq<Element>)
    ensures ExpandAll(es) == MeaningAll(es) <==> NoneDescends(es)
  {
    ExpandAtMost(es);
    if NoneDescends(es) { ExpandSame(es); }
  }

  // ----- Pages -----

  /** At most `limit` entries from `offset` on, none beyond the end. */
  function Slice(xs: seq<nat>, offset: nat, limit: nat): seq<nat> {
    if offset > |xs| then [] else if offset + limit > |xs| then xs[offset..] else xs[offset..offset + limit]
  }

  /** paginate_uids_by_sort */
  function PageBySort(sorted: seq<nat>, page: int, limit: nat): (seq<nat>, nat) {
    var offset := (if page - 1 > 0 then page - 1 else 0) * limit;
    (Slice(sorted, offset, limit), |sorted|)
  }

  /** The elements a server may answer for positions offset + 1 .. offset + limit of a sorted list
      (section 4.4 of RFC 5267). */
  ghost predicate PartialAnswer(sorted: seq<nat>, offset: nat, limit: nat, es: seq<Element>) {
    NoneDescends(es) && MeaningAll(es) == Slice(sorted, offset, limit)
  }

  lemma Positive(page: nat, limit: nat)
    requires page >= 1 && limit >= 1
    ensures 1 <= limit * (page - 1) + 1 <= limit * page && limit * page == limit * (page - 1) + limit
    ensures (page - 1) * limit == limit * (page - 1)
  {
  }

  /** paginate_uids_by_esort, for the server's COUNT and PARTIAL */
  method PageByEsort(count: nat, es: seq<Element>, page: nat, limit: nat) returns (uids: seq<nat>, total: nat)
    requires page >= 1 && limit >= 1
    ensures total == count
    ensures uids == if limit * (page - 1) + 1 > count then [] else ExpandAll(es)
  {
    var st := limit * (page - 1) + 1;
    if st > count { return [], count; }
    uids := ExtendPartialUids(es);
    total := count;
  }

  /** Both ways show the same page and total. */
  lemma EsortIsSort(sorted: seq<nat>, page: nat, limit: nat, es: seq<Element>)
    requires page >= 1 && limit >= 1
    requires PartialAnswer(sorted, limit * (page - 1), limit, es)
    ensures PageBySort(sorted, page, limit) ==
      (if limit * (page - 1) + 1 > |sorted| then [] else ExpandAll(es), |sorted|)
  {
    Positive(page, limit);
    ExpandSame(es);
    var offset := limit * (page - 1);
    assert PageBySort(sorted, page, limit).0 == Slice(sorted, offset, limit);
    if offset >= |sorted| { assert Slice(sorted, offset, limit) == []; }
  }

  function PagesUpTo(sorted: seq<nat>, limit: nat, n: nat): seq<nat> {
    if n == 0 then [] else PagesUpTo(sorted, limit, n - 1) + PageBySort(sorted, n, limit).0
  }

  function UpTo(xs: seq<nat>, n: nat): seq<nat> {
    if n < |xs| then xs[..n] else xs
  }

  lemma SliceExtends(xs: seq<nat>, offset: nat, limit: nat)
    ensures UpTo(xs, offset) + Slice(xs, offset, limit) == UpTo(xs, offset + limit)
  {
  }

  /** Pages 1..n are the first n * limit entries, in order, each once. */
  lemma {:induction false} PagesCover(sorted: seq<nat>, limit: nat, n: nat)
    requires limit >= 1
    ensures PagesUpTo(sorted, limit, n) == if n * limit < |sorted| then sorted[..n * limit] else sorted
  {
    if n > 0 {
      PagesCover(sorted, limit, n - 1);
      Positive(n, limit);
      SliceExtends(sorted, (n - 1) * limit, limit);
      hide Slice;
    }
  }

  // ----- Starred order -----

  function Only(sorted: seq<nat>, flagged: set<nat>, want: bool): (r: seq<nat>)
    ensures forall u :: u in r <==> u in sorted && (u in flagged) == want
  {
    if sorted == [] then []
    else (if (sorted[0] in flagged) == want then [sorted[0]] else []) + Only(sorted[1..], flagged, want)
  }

  /** FLAGGED first, then UNFLAGGED, each in the sorted order. */
  function Starred(sorted: seq<nat>, flagged: set<nat>): seq<nat> {
    Only(sorted, flagged, true) + Only(sorted, flagged, false)
  }

  lemma {:induction false} OnlyCounts(sorted: seq<nat>, flagged: set<nat>, u: nat)
    ensures multiset(Only(sorted, flagged, true))[u] + multiset(Only(sorted, flagged, false))[u] == multiset(sorted)[u]
  {
    if sorted != [] {
      OnlyCounts(sorted[1..], flagged, u);
      assert sorted == [sorted[0]] + sorted[1..];
    }
  }

  /** The starred order is a permutation with no unflagged mail before a flagged one. */
  lemma StarredPermutes(sorted: seq<nat>, flagged: set<nat>)
    ensures multiset(Starred(sorted, flagged)) == multiset(sorted)
    ensures var s := Starred(sorted, flagged);
      forall i, j :: 0 <= i < j < |s| && s[j] in flagged ==> s[i] in flagged
  {
    var a, b := Only(sorted, flagged, true), Only(sorted, flagged, false);
    hide Only;
    forall u ensures multiset(a + b)[u] == multiset(sorted)[u] { OnlyCounts(sorted, flagged, u); }
    FirstThenRest(a, b, flagged);
  }

  lemma FirstThenRest(a: seq<nat>, b: seq<nat>, flagged: set<nat>)
    requires (forall u :: u in a ==> u in flagged) && forall u :: u in b ==> u !in flagged
    ensures forall i, j :: 0 <= i < j < |a + b| && (a + b)[j] in flagged ==> (a + b)[i] in flagged
  {
    assert forall k :: |a| <= k < |a + b| ==> (a + b)[k] == b[k - |a|];
  }

  ghost predicate InOrder(xs: seq<nat>, u: nat, v: nat) {
    exists p, q :: 0 <= p < q < |xs| && xs[p] == u && xs[q] == v
  }

  lemma InOrderTail(xs: seq<nat>, u: nat, v: nat)
    requires xs != [] && InOrder(xs[1..], u, v)
    ensures InOrder(xs, u, v)
  {
    var p, q :| 0 <= p < q < |xs[1..]| && xs[1..][p] == u && xs[1..][q] == v;
    assert xs[p + 1] == u && xs[q + 1] == v;
  }

  lemma InOrderHead(xs: seq<nat>, v: nat)
    requires xs != [] && v in xs[1..]
    ensures InOrder(xs, xs[0], v)
  {
    var q :| 0 <= q < |xs[1..]| && xs[1..][q] == v;
    assert xs[q + 1] == v;
  }

  lemma {:induction false} OnlyInOrder(sorted: seq<nat>, flagged: set<nat>, want: bool, i: nat, j: nat)
    requires i < j < |Only(sorted, flagged, want)|
    ensures InOrder(sorted, Only(sorted, flagged, want)[i], Only(sorted, flagged, want)[j])
  {
    hide InOrder;
    var r, rest := Only(sorted, flagged, want), Only(sorted[1..], flagged, want);
    if (sorted[0] in flagged) != want {
      OnlyInOrder(sorted[1..], flagged, want, i, j);
      InOrderTail(sorted, r[i], r[j]);
    } else if i == 0 {
      assert r[j] == rest[j - 1] && r[j] in rest;
      InOrderHead(sorted, r[j]);
    } else {
      OnlyInOrder(sorted[1..], flagged, want, i - 1, j - 1);
      assert r[i] == rest[i - 1] && r[j] == rest[j - 1];
      InOrderTail(sorted, r[i], r[j]);
    }
  }

  /** Flagged mails, and the others, stay in the order of the sorted list. */
  lemma StarredInOrder(sorted: seq<nat>, flagged: set<nat>, p: nat, q: nat, i: nat, j: nat)
    requires NoRepeats(sorted) && p < q < |sorted| && (sorted[p] in flagged) == (sorted[q] in flagged)
    requires i < |sorted| && j < |sorted| && |Starred(sorted, flagged)| == |sorted|
    requires Starred(sorted, flagged)[i] == sorted[p] && Starred(sorted, flagged)[j] == sorted[q]
    ensures i < j
  {
    var a, b := Only(sorted, flagged, true), Only(sorted, flagged, false);
    var s := a + b;
    assert s[i] in a <==> i < |a| by { if i < |a| { assert a[i] in a; } else { assert b[i - |a|] in b; } }
    assert s[j] in a <==> j < |a| by { if j < |a| { assert a[j] in a; } else { assert b[j - |a|] in b; } }
    hide Only;
    if j < i {
      if i < |a| {
        OnlyInOrder(sorted, flagged, true, j, i);
      } else {
        OnlyInOrder(sorted, flagged, false, j - |a|, i - |a|);
      }
    }
  }

  // ----- Previous and next -----

  datatype Links = Links(total: nat, prev: Option<nat>, next: Option<nat>, current: Option<nat>)

  function Find(uids: seq<nat>, u: nat): (r: Option<nat>)
    ensures r.None? <==> u !in uids
    ensures r.Some? ==> r.value < |uids| && uids[r.value] == u && forall j :: 0 <= j < r.value ==> uids[j] != u
  {
    if uids == [] then None
    else if uids[0] == u then Some(0)
    else
      var r := Find(uids[1..], u);
      if r.None? then None else Some(r.value + 1)
  }

  /** paginate_by_uid */
  function LinksOf(uids: seq<nat>, u: nat): Links {
    match Find(uids, u)
    case None => Links(|uids|, None, None, None)
    case Some(i) =>
      Links(|uids|,
            if i > 0 then Some(uids[i - 1]) else None,
            if i < |uids| - 1 then Some(uids[i + 1]) else None,
            Some(i + 1))
  }

  lemma FindAt(uids: seq<nat>, i: nat)
    requires NoRepeats(uids) && i < |uids|
    ensures Find(uids, uids[i]) == Some(i)
  {
    var r := Find(uids, uids[i]).value;
    assert uids[r] == uids[i];
  }

  /** In a list without repeats next and previous are inverse. */
  lemma LinksInverse(uids: seq<nat>, u: nat, v: nat)
    requires NoRepeats(uids)
    ensures u in uids && LinksOf(uids, u).next == Some(v) <==> v in uids && LinksOf(uids, v).prev == Some(u)
  {
    if u in uids && LinksOf(uids, u).next == Some(v) { FindAt(uids, Find(uids, u).value + 1); }
    if v in uids && LinksOf(uids, v).prev == Some(u) { FindAt(uids, Find(uids, v).value - 1); }
  }

  /** Following next n times from u. */
  function Follow(uids: seq<nat>, u: nat, n: nat): Option<nat> {
    if n == 0 then Some(u)
    else
      match Follow(uids, u, n - 1)
      case None => None
      case Some(v) => LinksOf(uids, v).next
  }

  /** From the first mail, next visits every mail in order and then ends. */
  lemma {:induction false} NextVisitsAll(uids: seq<nat>, n: nat)
    requires NoRepeats(uids) && uids != []
    ensures Follow(uids, uids[0], n) == if n < |uids| then Some(uids[n]) else None
    ensures n < |uids| ==> LinksOf(uids, uids[n]).current == Some(n + 1) && LinksOf(uids, uids[n]).total == |uids|
  {
    if n > 0 { NextVisitsAll(uids, n - 1); }
    if n < |uids| { FindAt(uids, n); }
    if 0 < n <= |uids| { FindAt(uids, n - 1); }
  }

  /** The answer 3:1 stands for three UIDs; none is read back. */
  lemma DescendingRangeLost()
    ensures MeaningAll([Range(3, 1)]) == [3, 2, 1] && ExpandAll([Range(3, 1)]) == []
  {
    assert [Range(3, 1)][..0] == [];
    assert Down(3, 1) == [3] + Down(2, 1) && Down(2, 1) == [2] + Down(1, 1) && Down(1, 1) == [1] + Down(0, 1);
  }
}
