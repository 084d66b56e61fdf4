/** The display order of mailboxes: sorted by name, then grouped. */
module MailboxOrder {
  import opened MailboxNames
  import opened Text

  /** How a name is shown: `decode` for one segment, `top` and `second` for the translated titles of
      the first two segments, `low` for letter case. */
  datatype Display = Display(decode: string -> string, top: string -> string, second: (string, string) -> string,
    low: char -> char)

  function MapSegments(xs: seq<string>, f: string -> string): (r: seq<string>)
    ensures |r| == |xs| && forall i :: 0 <= i < |xs| ==> r[i] == f(xs[i])
  {
    if xs == [] then [] else [f(xs[0])] + MapSegments(xs[1..], f)
  }

  /** The translated segments of decode_name. */
  function Shown(xs: seq<string>, v: Display): (r: seq<string>)
    ensures |r| == |xs|
  {
    var ys := MapSegments(xs, v.decode);
    if |ys| == 0 then []
    else if |ys| == 1 then [v.top(ys[0])]
    else [v.top(ys[0]), v.second(ys[0], ys[1])] + ys[2..]
  }

  /** decode_name(...).downcase */
  function SortKey(name: string, d: char, v: Display): string {
    Lower(Join(Shown(Split(name, d), v), d), v.low)
  }

  function Group(name: string, d: char, orders: seq<string>): string {
    var xs := Split(name, d);
    if xs != [] && xs[0] in orders then xs[0] else "***"
  }

  function InGroup(sorted: seq<string>, g: string, d: char, orders: seq<string>): seq<string> {
    if sorted == [] then []
    else
      var rest := InGroup(sorted[..|sorted| - 1], g, d, orders);
      if Group(sorted[|sorted| - 1], d, orders) == g then rest + [sorted[|sorted| - 1]] else rest
  }

  /** The groups of the first n configured names, one after the other; names without a group are skipped. */
  function Flatten(sorted: seq<string>, n: nat, d: char, orders: seq<string>): seq<string>
    requires n <= |orders|
  {
    if n == 0 then [] else Flatten(sorted, n - 1, d, orders) + InGroup(sorted, orders[n - 1], d, orders)
  }

  /** `out` is a result sort_list may give for `boxes`: Ruby's sort fixes no order between equal keys. */
  ghost predicate IsSortList(boxes: seq<string>, out: seq<string>, d: char, v: Display, orders: seq<string>) {
    exists sorted :: IsSorted(boxes, sorted, d, v) && out == Flatten(sorted, |orders|, d, orders)
  }

  ghost predicate IsSorted(boxes: seq<string>, sorted: seq<string>, d: char, v: Display) {
    && multiset(sorted) == multiset(boxes)
    && forall i, j :: 0 <= i < j < |sorted| ==> !Less(SortKey(sorted[j], d, v), SortKey(sorted[i], d, v))
  }

  ghost predicate DistinctOrders(orders: seq<string>) {
    forall k, l :: 0 <= k < l < |orders| ==> orders[k] != orders[l]
  }

  // ----- Nothing lost, nothing doubled -----

  ghost function Count(xs: seq<string>, x: string): nat {
    multiset(xs)[x]
  }

  lemma {:induction false} InGroupCount(sorted: seq<string>, g: string, d: char, orders: seq<string>, b: string)
    ensures multiset(InGroup(sorted, g, d, orders))[b] == if Group(b, d, orders) == g then multiset(sorted)[b] else 0
  {
    if sorted != [] {
      hide Group;
      assert sorted == sorted[..|sorted| - 1] + [sorted[|sorted| - 1]];
      InGroupCount(sorted[..|sorted| - 1], g, d, orders, b);
    }
  }

  lemma {:induction false} FlattenCount(sorted: seq<string>, n: nat, d: char, orders: seq<string>, b: string)
    requires n <= |orders|
    ensures multiset(Flatten(sorted, n, d, orders))[b] == Count(orders[..n], Group(b, d, orders)) * multiset(sorted)[b]
  {
    hide Group; hide InGroup;
    var g, m := Group(b, d, orders), multiset(sorted)[b];
    if n > 0 {
      FlattenCount(sorted, n - 1, d, orders, b);
      InGroupCount(sorted, orders[n - 1], d, orders, b);
      CountNext(orders, n - 1, g);
      OneMore(Count(orders[..n - 1], g), m);
    }
  }

  lemma CountNext(xs: seq<string>, n: nat, x: string)
    requires n < |xs|
    ensures Count(xs[..n + 1], x) == Count(xs[..n], x) + if xs[n] == x then 1 else 0
  {
    assert xs[..n + 1] == xs[..n] + [xs[n]];
  }

  lemma OneMore(c: nat, m: nat)
    ensures (c + 1) * m == c * m + m
  {
  }

  lemma OutCount(boxes: seq<string>, out: seq<string>, d: char, v: Display, orders: seq<string>, b: string)
    requires IsSortList(boxes, out, d, v, orders)
    ensures multiset(out)[b] == Count(orders, Group(b, d, orders)) * multiset(boxes)[b]
  {
    hide Group; hide Flatten; hide SortKey; hide Less;
    var sorted :| IsSorted(boxes, sorted, d, v) && out == Flatten(sorted, |orders|, d, orders);
    assert orders[..|orders|] == orders;
    FlattenCount(sorted, |orders|, d, orders, b);
  }

  lemma OnlyOne(c: nat, m: nat)
    requires m > 0
    ensures c * m == m <==> c == 1
  {
    if c > 1 { assert c * m >= 2 * m; }
  }

  /** Each mailbox comes out as often as its group is configured; so sort_list permutes the listing
      if and only if every group that occurs is configured exactly once. */
  lemma SortListPermutes(boxes: seq<string>, out: seq<string>, d: char, v: Display, orders: seq<string>)
    requires IsSortList(boxes, out, d, v, orders)
    ensures forall b :: multiset(out)[b] == Count(orders, Group(b, d, orders)) * multiset(boxes)[b]
    ensures multiset(out) == multiset(boxes) <==> forall b :: b in boxes ==> Count(orders, Group(b, d, orders)) == 1
  {
    hide Group; hide Flatten; hide Count; hide IsSortList;
    forall b
      ensures multiset(out)[b] == Count(orders, Group(b, d, orders)) * multiset(boxes)[b]
      ensures multiset(out)[b] == multiset(boxes)[b] <==> (b in boxes ==> Count(orders, Group(b, d, orders)) == 1)
    {
      OutCount(boxes, out, d, v, orders, b);
      if b in boxes { OnlyOne(Count(orders, Group(b, d, orders)), multiset(boxes)[b]); }
    }
  }

  /** In particular for distinct entries among which is the catch-all. */
  lemma DistinctOrdersPermute(boxes: seq<string>, out: seq<string>, d: char, v: Display, orders: seq<string>)
    requires IsSortList(boxes, out, d, v, orders)
    requires DistinctOrders(orders) && "***" in orders
    ensures multiset(out) == multiset(boxes)
  {
    forall b | b in boxes ensures Count(orders, Group(b, d, orders)) == 1 {
      OnceEach(orders, Group(b, d, orders));
    }
    SortListPermutes(boxes, out, d, v, orders);
  }

  lemma {:induction false} OnceEach(xs: seq<string>, x: string)
    requires forall i, j :: 0 <= i < j < |xs| ==> xs[i] != xs[j]
    ensures Count(xs, x) == if x in xs then 1 else 0
  {
    if xs != [] {
      OnceEach(xs[1..], x);
      assert xs == [xs[0]] + xs[1..];
      assert xs[0] !in xs[1..];
    }
  }

  // ----- Parents before children -----

  lemma {:induction false} LessExtended(p: string, r: string)
    requires r != ""
    ensures Less(p, p + r)
  {
    if p != "" {
      assert (p + r)[1..] == p[1..] + r;
      LessExtended(p[1..], r);
    }
  }

  lemma LowerAppend(a: string, b: string, low: char -> char)
    ensures Lower(a + b, low) == Lower(a, low) + Lower(b, low)
  {
  }

  lemma ShownPrefix(xs: seq<string>, ys: seq<string>, v: Display)
    requires xs != [] && ys != []
    ensures exists zs :: zs != [] && Shown(xs + ys, v) == Shown(xs, v) + zs
  {
    var all := Shown(xs + ys, v);
    assert all[..|xs|] == Shown(xs, v);
    assert all == all[..|xs|] + all[|xs|..];
    assert all[|xs|..] != [];
  }

  /** A mailbox's key sorts strictly before those of its inferiors, whatever the display names. */
  lemma AncestorSortsFirst(x: string, a: string, d: char, v: Display)
    requires WellNamed(x, d) && WellNamed(a, d) && Under(x, a, d) && x != a
    ensures Less(SortKey(a, d, v), SortKey(x, d, v))
  {
    hide SplitAll; hide Join; hide Shown; hide Lower; hide Less;
    UnderRest(x, a, d);
    var s := x[|a| + 1..];
    WellNamedConcat(a, s, d);
    PiecesSplit(x, d);
    PiecesSplit(a, d);
    ShownPrefix(SplitAll(a, d), SplitAll(s, d), v);
    var zs :| zs != [] && Shown(Split(x, d), v) == Shown(Split(a, d), v) + zs;
    JoinConcat(Shown(Split(a, d), v), zs, d);
    var p, r := Join(Shown(Split(a, d), v), d), [d] + Join(zs, d);
    assert Join(Shown(Split(x, d), v), d) == p + r;
    LowerAppend(p, r, v.low);
    LessExtended(Lower(p, v.low), Lower(r, v.low));
  }

  lemma PiecesSplit(x: string, d: char)
    requires WellNamed(x, d)
    ensures Split(x, d) == SplitAll(x, d)
  {
  }

  /** How the last segment below p is shown: the titles of the first two segments are translated. */
  function OwnTitle(p: string, seg: string, d: char, v: Display): string {
    if |Split(p, d)| == 1 then v.second(v.decode(p), v.decode(seg)) else v.decode(seg)
  }

  lemma ShownNext(xs: seq<string>, seg: string, v: Display)
    requires xs != []
    ensures Shown(xs + [seg], v) ==
      Shown(xs, v) + [if |xs| == 1 then v.second(v.decode(xs[0]), v.decode(seg)) else v.decode(seg)]
  {
    var title := if |xs| == 1 then v.second(v.decode(xs[0]), v.decode(seg)) else v.decode(seg);
    var a, b := Shown(xs + [seg], v), Shown(xs, v) + [title];
    assert |a| == |b| && forall i :: 0 <= i < |a| ==> a[i] == b[i];
  }

  /** The key of a mailbox is that of its parent, the delimiter and its own title, all in lower case. */
  lemma KeyBelow(p: string, seg: string, d: char, v: Display)
    requires WellNamed(p, d) && seg != "" && d !in seg
    ensures SortKey(p + [d] + seg, d, v) == SortKey(p, d, v) + [v.low(d)] + Lower(OwnTitle(p, seg, d, v), v.low)
    ensures SortKey(seg, d, v) == Lower(v.top(v.decode(seg)), v.low)
  {
    hide Join; hide Shown; hide Lower;
    Indivisible(seg, d);
    WellNamedConcat(p, seg, d);
    PiecesSplit(p, d);
    PiecesSplit(seg, d);
    PiecesSplit(p + [d] + seg, d);
    hide SplitAll; hide WellNamed;
    var xs := Split(p, d);
    OnePiece(p, d);
    ShownNext(xs, seg, v);
    TopKey(seg, d, v);
    var title := OwnTitle(p, seg, d, v);
    JoinConcat(Shown(xs, v), [title], d);
    JoinOne(title, d);
    LowerAppend(Join(Shown(xs, v), d) + [d], title, v.low);
    LowerAppend(Join(Shown(xs, v), d), [d], v.low);
    LowerOne(d, v.low);
  }

  lemma JoinOne(x: string, d: char)
    ensures Join([x], d) == x
  {
  }

  lemma LowerOne(c: char, low: char -> char)
    ensures Lower([c], low) == [low(c)]
  {
  }

  lemma TopKey(seg: string, d: char, v: Display)
    requires Split(seg, d) == [seg]
    ensures SortKey(seg, d, v) == Lower(v.top(v.decode(seg)), v.low)
  {
    hide Lower;
  }

  lemma OnePiece(p: string, d: char)
    requires WellNamed(p, d)
    ensures |Split(p, d)| >= 1 && (|Split(p, d)| == 1 ==> Split(p, d)[0] == p)
  {
    PiecesSplit(p, d);
    JoinSplit(p, d);
    hide SplitAll; hide Split;
  }

  lemma SameGroup(x: string, a: string, d: char, orders: seq<string>)
    requires WellNamed(x, d) && WellNamed(a, d) && Under(x, a, d)
    ensures Group(x, d, orders) == Group(a, d, orders)
  {
    if x != a {
      UnderRest(x, a, d);
      WellNamedConcat(a, x[|a| + 1..], d);
    }
  }

  ghost predicate GroupsSorted(out: seq<string>, d: char, v: Display, orders: seq<string>) {
    forall i, j :: 0 <= i < j < |out| && Group(out[i], d, orders) == Group(out[j], d, orders) ==>
      !Less(SortKey(out[j], d, v), SortKey(out[i], d, v))
  }

  lemma {:induction false} InGroupSorted(sorted: seq<string>, g: string, d: char, v: Display, orders: seq<string>)
    requires forall i, j :: 0 <= i < j < |sorted| ==> !Less(SortKey(sorted[j], d, v), SortKey(sorted[i], d, v))
    ensures GroupsSorted(InGroup(sorted, g, d, orders), d, v, orders)
    ensures forall x :: x in InGroup(sorted, g, d, orders) ==> Group(x, d, orders) == g && x in sorted
  {
    hide Group; hide SortKey; hide Less;
    if sorted != [] {
      var init := sorted[..|sorted| - 1];
      assert forall i :: 0 <= i < |init| ==> init[i] == sorted[i];
      InGroupSorted(init, g, d, v, orders);
      var rest := InGroup(init, g, d, orders);
      forall i | 0 <= i < |rest| ensures !Less(SortKey(sorted[|sorted| - 1], d, v), SortKey(rest[i], d, v)) {
        assert rest[i] in init;
        var k :| 0 <= k < |init| && init[k] == rest[i];
      }
    }
  }

  lemma {:induction false} FlattenSorted(sorted: seq<string>, n: nat, d: char, v: Display, orders: seq<string>)
    requires n <= |orders| && DistinctOrders(orders)
    requires forall i, j :: 0 <= i < j < |sorted| ==> !Less(SortKey(sorted[j], d, v), SortKey(sorted[i], d, v))
    ensures GroupsSorted(Flatten(sorted, n, d, orders), d, v, orders)
    ensures forall x :: x in Flatten(sorted, n, d, orders) ==> Group(x, d, orders) in orders[..n] && x in sorted
  {
    hide Group; hide SortKey; hide Less; hide InGroup;
    if n > 0 {
      FlattenSorted(sorted, n - 1, d, v, orders);
      InGroupSorted(sorted, orders[n - 1], d, v, orders);
      assert orders[..n] == orders[..n - 1] + [orders[n - 1]];
      assert orders[n - 1] !in orders[..n - 1];
      SortedAppend(Flatten(sorted, n - 1, d, orders), InGroup(sorted, orders[n - 1], d, orders), orders[n - 1], d, v,
        orders);
    }
  }

  lemma SortedAppend(xs: seq<string>, ys: seq<string>, g: string, d: char, v: Display, orders: seq<string>)
    requires GroupsSorted(xs, d, v, orders) && GroupsSorted(ys, d, v, orders)
    requires forall x :: x in xs ==> Group(x, d, orders) != g
    requires forall y :: y in ys ==> Group(y, d, orders) == g
    ensures GroupsSorted(xs + ys, d, v, orders)
  {
    hide Group; hide SortKey; hide Less;
    var zs := xs + ys;
    forall i, j | 0 <= i < j < |zs| && Group(zs[i], d, orders) == Group(zs[j], d, orders)
      ensures !Less(SortKey(zs[j], d, v), SortKey(zs[i], d, v))
    {
      if i < |xs| {
        assert zs[i] in xs;
      }
    }
  }

  /** Entry k of the configured orders is the one a name is shown under: that of its first segment, or else the
      catch-all. */
  ghost predicate PlacedAt(name: string, k: nat, d: char, orders: seq<string>) {
    && k < |orders|
    && orders[k] == if Split(name, d) != [] && Split(name, d)[0] in orders then Split(name, d)[0] else "***"
  }

  ghost predicate GroupsAscend(xs: seq<string>, d: char, orders: seq<string>) {
    forall i, j, k, l | 0 <= i < j < |xs| && 0 <= k < |orders| && 0 <= l < |orders| ::
      Group(xs[i], d, orders) == orders[k] && Group(xs[j], d, orders) == orders[l] ==> k <= l
  }

  lemma {:induction false} InGroupHas(sorted: seq<string>, g: string, d: char, orders: seq<string>)
    ensures forall x :: x in InGroup(sorted, g, d, orders) ==> Group(x, d, orders) == g
  {
    hide Group;
    if sorted != [] { InGroupHas(sorted[..|sorted| - 1], g, d, orders); }
  }

  lemma {:induction false} FlattenAscends(sorted: seq<string>, n: nat, d: char, orders: seq<string>)
    requires n <= |orders| && DistinctOrders(orders)
    ensures GroupsAscend(Flatten(sorted, n, d, orders), d, orders)
    ensures forall x :: x in Flatten(sorted, n, d, orders) ==> Group(x, d, orders) in orders[..n]
  {
    hide Group; hide InGroup;
    if n > 0 {
      FlattenAscends(sorted, n - 1, d, orders);
      InGroupHas(sorted, orders[n - 1], d, orders);
      assert orders[..n] == orders[..n - 1] + [orders[n - 1]];
      AscendAppend(Flatten(sorted, n - 1, d, orders), InGroup(sorted, orders[n - 1], d, orders), n - 1, d, orders);
    }
  }

  lemma AscendAppend(xs: seq<string>, ys: seq<string>, n: nat, d: char, orders: seq<string>)
    requires n < |orders| && DistinctOrders(orders) && GroupsAscend(xs, d, orders)
    requires forall x :: x in xs ==> Group(x, d, orders) in orders[..n]
    requires forall y :: y in ys ==> Group(y, d, orders) == orders[n]
    ensures GroupsAscend(xs + ys, d, orders)
  {
    hide Group;
    var zs := xs + ys;
    forall i, j, k, l | 0 <= i < j < |zs| && 0 <= k < |orders| && 0 <= l < |orders|
      && Group(zs[i], d, orders) == orders[k] && Group(zs[j], d, orders) == orders[l] ensures k <= l
    {
      if j >= |xs| {
        assert zs[j] in ys && l == n;
        if i < |xs| { assert zs[i] in xs; } else { assert zs[i] in ys; }
      }
    }
  }

  /** With distinct entries mailboxes come out by the configured entry they are shown under, and under one entry
      by their names. */
  lemma GroupsInOrder(boxes: seq<string>, out: seq<string>, d: char, v: Display, orders: seq<string>, i: nat, j: nat,
                      k: nat, l: nat)
    requires IsSortList(boxes, out, d, v, orders) && DistinctOrders(orders)
    requires i < j < |out| && PlacedAt(out[i], k, d, orders) && PlacedAt(out[j], l, d, orders)
    ensures k <= l
    ensures k == l ==> !Less(SortKey(out[j], d, v), SortKey(out[i], d, v))
  {
    hide SortKey; hide Less; hide Flatten; hide Split;
    var sorted :| IsSorted(boxes, sorted, d, v) && out == Flatten(sorted, |orders|, d, orders);
    FlattenSorted(sorted, |orders|, d, v, orders);
    FlattenAscends(sorted, |orders|, d, orders);
    assert Group(out[i], d, orders) == orders[k] && Group(out[j], d, orders) == orders[l];
  }

  /** With distinct entries no mailbox comes after one of its inferiors. */
  lemma ParentsFirst(boxes: seq<string>, out: seq<string>, d: char, v: Display, orders: seq<string>, i: nat, j: nat)
    requires IsSortList(boxes, out, d, v, orders)
    requires DistinctOrders(orders)
    requires forall b :: b in boxes ==> WellNamed(b, d)
    requires i < j < |out|
    ensures out[i] in boxes && out[j] in boxes
    ensures !(Under(out[i], out[j], d) && out[i] != out[j])
  {
    hide Group; hide SortKey; hide Less; hide WellNamed;
    var sorted :| IsSorted(boxes, sorted, d, v) && out == Flatten(sorted, |orders|, d, orders);
    FlattenSorted(sorted, |orders|, d, v, orders);
    forall x | x in sorted ensures x in boxes { assert x in multiset(sorted); }
    assert out[i] in out && out[j] in out;
    if Under(out[i], out[j], d) && out[i] != out[j] {
      SameGroup(out[i], out[j], d, orders);
      AncestorSortsFirst(out[i], out[j], d, v);
    }
  }

  lemma {:induction false} InsertKey(sorted: seq<string>, x: string, d: char, v: Display) returns (r: seq<string>)
    requires forall i, j :: 0 <= i < j < |sorted| ==> !Less(SortKey(sorted[j], d, v), SortKey(sorted[i], d, v))
    ensures forall i, j :: 0 <= i < j < |r| ==> !Less(SortKey(r[j], d, v), SortKey(r[i], d, v))
    ensures multiset(r) == multiset(sorted) + multiset{x}
  {
    hide SortKey; hide Less;
    if sorted == [] {
      r := [x];
    } else {
      var init, last := sorted[..|sorted| - 1], sorted[|sorted| - 1];
      assert sorted == init + [last];
      var kx, kl := SortKey(x, d, v), SortKey(last, d, v);
      if !Less(kx, kl) {
        r := sorted + [x];
        forall i | 0 <= i < |sorted| ensures !Less(kx, SortKey(sorted[i], d, v)) {
          var ki := SortKey(sorted[i], d, v);
          LessTotal(ki, kl);
          if Less(kx, ki) && ki != kl { LessTransitive(kx, ki, kl); }
        }
      } else {
        var before := InsertKey(init, x, d, v);
        r := before + [last];
        LessTotal(kx, kl);
        forall i | 0 <= i < |before| ensures !Less(kl, SortKey(before[i], d, v)) {
          assert before[i] in multiset(before);
          if before[i] != x {
            assert before[i] in init;
            var j :| 0 <= j < |init| && init[j] == before[i];
            assert sorted[j] == init[j];
          }
        }
      }
    }
  }

  lemma {:induction false} SortExists(boxes: seq<string>, d: char, v: Display) returns (sorted: seq<string>)
    ensures IsSorted(boxes, sorted, d, v)
  {
    hide SortKey; hide Less;
    if boxes == [] {
      sorted := [];
    } else {
      var before := SortExists(boxes[1..], d, v);
      sorted := InsertKey(before, boxes[0], d, v);
      assert boxes == [boxes[0]] + boxes[1..];
    }
  }

  /** There is always a result. */
  lemma SortListExists(boxes: seq<string>, d: char, v: Display, orders: seq<string>) returns (out: seq<string>)
    ensures IsSortList(boxes, out, d, v, orders)
  {
    hide SortKey; hide Less;
    var sorted := SortExists(boxes, d, v);
    out := Flatten(sorted, |orders|, d, orders);
  }

  /** The order in which the trash is emptied. */
  function Reversed(boxes: seq<string>): (r: seq<string>)
    ensures |r| == |boxes| && forall i :: 0 <= i < |r| ==> r[i] == boxes[|boxes| - 1 - i]
  {
    if boxes == [] then [] else [boxes[|boxes| - 1]] + Reversed(boxes[..|boxes| - 1])
  }

  ghost predicate BottomUp(boxes: seq<string>, d: char) {
    forall i, j :: 0 <= i < j < |boxes| && Under(boxes[j], boxes[i], d) ==> boxes[i] == boxes[j]
  }

  lemma NotBelowLater(boxes: seq<string>, out: seq<string>, d: char, v: Display, orders: seq<string>, a: string,
                      b: string, p: nat, q: nat)
    requires IsSortList(boxes, out, d, v, orders)
    requires DistinctOrders(orders)
    requires forall x :: x in boxes ==> WellNamed(x, d)
    requires p < q < |out| && out[q] == a && out[p] == b && Under(b, a, d)
    ensures a == b
  {
    hide *;
    ParentsFirst(boxes, out, d, v, orders, p, q);
  }

  /** The loop that empties the trash deletes no mailbox before one of its inferiors. */
  lemma InferiorsDeletedFirst(boxes: seq<string>, out: seq<string>, d: char, v: Display, orders: seq<string>)
    requires IsSortList(boxes, out, d, v, orders)
    requires DistinctOrders(orders)
    requires forall b :: b in boxes ==> WellNamed(b, d)
    ensures BottomUp(Reversed(out), d)
  {
    hide IsSortList; hide WellNamed; hide Under; hide Reversed;
    var r, n := Reversed(out), |out| - 1;
    forall i, j | 0 <= i < j < |r| && Under(r[j], r[i], d) ensures r[i] == r[j] {
      NotBelowLater(boxes, out, d, v, orders, r[i], r[j], n - j, n - i);
    }
  }
}
