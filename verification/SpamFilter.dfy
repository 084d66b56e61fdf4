/** The junk mail filter: one condition per sender, bounded in number. */
module SpamFilter {
  import opened Collections
  import opened FilterRules
  import opened MailServer

  datatype Row = Row(id: nat, sortNo: int, condition: Condition)

  // ----- Sender addresses -----

  /** The last '>' of s[i..] on the line that starts there, if any. */
  function LastClose(s: string, i: nat): (r: int)
    requires i <= |s|
    ensures r == -1 || (i <= r < |s| && s[r] == '>')
    decreases |s| - i
  {
    if i == |s| || s[i] == '\n' then -1
    else
      var later := LastClose(s, i + 1);
      if later != -1 then later else if s[i] == '>' then i else -1
  }

  /** What stands between angle brackets: the leftmost such part, as long as possible. */
  function AddressFrom(s: string, i: nat): (r: string)
    requires i <= |s|
    ensures r == s || exists a, b :: 0 <= a <= b <= |s| && r == s[a..b]
    decreases |s| - i
  {
    if i == |s| then s
    else if s[i] == '<' && i + 1 < |s| && s[i + 1] != '\n' && LastClose(s, i + 2) != -1
      then s[i + 1..LastClose(s, i + 2)]
    else AddressFrom(s, i + 1)
  }

  /** extract_address_from_mail_list */
  function Address(from: string): string {
    AddressFrom(from, 0)
  }

  /** The brackets at a and b enclose at least one character and no line break. */
  ghost predicate Bracketed(s: string, a: nat, b: nat) {
    a + 2 <= b < |s| && s[a] == '<' && s[b] == '>' && forall k :: a < k < b ==> s[k] != '\n'
  }

  /** No such brackets open before a, and among those that open there b closes last. */
  ghost predicate Outermost(s: string, a: nat, b: nat, i: nat) {
    && Bracketed(s, a, b) && (forall x: nat, y: nat :: i <= x < a ==> !Bracketed(s, x, y))
    && forall y: nat :: y > b ==> !Bracketed(s, a, y)
  }

  lemma {:induction false} LastCloseIs(s: string, i: nat, k: nat)
    requires i <= k <= |s|
    ensures var r := LastClose(s, i);
      && (r != -1 ==> forall j :: i <= j < r ==> s[j] != '\n')
      && (k < |s| && s[k] == '>' && (forall j :: i <= j < k ==> s[j] != '\n') ==> k <= r)
    decreases |s| - i
  {
    if i < |s| && s[i] != '\n' { LastCloseIs(s, i + 1, if k == i then i + 1 else k); }
  }

  /** From the bracket at a the search ends at the last one that closes. */
  lemma ClosesAt(s: string, a: nat, b: nat)
    requires Bracketed(s, a, b) && forall y: nat :: y > b ==> !Bracketed(s, a, y)
    ensures a + 2 <= |s| && LastClose(s, a + 2) == b
  {
    var r := LastClose(s, a + 2);
    LastCloseIs(s, a + 2, b);
    if r > b { assert Bracketed(s, a, r); }
  }

  lemma ClosedIs(s: string, i: nat)
    requires i + 2 <= |s| && s[i] == '<' && s[i + 1] != '\n' && LastClose(s, i + 2) != -1
    ensures Bracketed(s, i, LastClose(s, i + 2))
  {
    LastCloseIs(s, i + 2, i + 2);
  }

  lemma TakenAt(s: string, a: nat, b: nat)
    requires Bracketed(s, a, b) && forall y: nat :: y > b ==> !Bracketed(s, a, y)
    ensures a < |s| && AddressFrom(s, a) == s[a + 1..b]
  {
    ClosesAt(s, a, b);
    hide LastClose;
    assert s[a + 1] != '\n';
  }

  lemma SkippedAt(s: string, i: nat)
    requires i < |s| && forall y: nat :: !Bracketed(s, i, y)
    ensures AddressFrom(s, i) == AddressFrom(s, i + 1)
  {
    if i + 2 <= |s| && s[i] == '<' && s[i + 1] != '\n' && LastClose(s, i + 2) != -1 { ClosedIs(s, i); }
    hide LastClose; hide Bracketed;
  }

  lemma OuterNext(s: string, a: nat, b: nat, i: nat)
    requires i <= a && Outermost(s, a, b, i)
    ensures a + 2 <= b < |s| && Bracketed(s, a, b) && forall y: nat :: y > b ==> !Bracketed(s, a, y)
    ensures i < a ==> Outermost(s, a, b, i + 1) && forall y: nat :: !Bracketed(s, i, y)
  {
  }

  lemma {:induction false} AddressFromIs(s: string, i: nat, a: nat, b: nat)
    requires i <= a && Outermost(s, a, b, i)
    ensures a + 2 <= b < |s| && AddressFrom(s, i) == s[a + 1..b]
    decreases a - i
  {
    hide *;
    OuterNext(s, a, b, i);
    if i == a {
      TakenAt(s, a, b);
    } else {
      SkippedAt(s, i);
      AddressFromIs(s, i + 1, a, b);
    }
  }

  lemma {:induction false} NoAddress(s: string, i: nat)
    requires i <= |s| && forall a: nat, b: nat :: i <= a ==> !Bracketed(s, a, b)
    ensures AddressFrom(s, i) == s
    decreases |s| - i
  {
    hide Bracketed; hide LastClose;
    if i < |s| {
      SkippedAt(s, i);
      NoAddress(s, i + 1);
    }
  }

  /** The address is what stands between the first bracket that is closed on its line and the last one closing
      there; without such brackets it is the whole text. */
  lemma AddressIs(from: string)
    ensures (forall a: nat, b: nat :: !Bracketed(from, a, b)) ==> Address(from) == from
    ensures forall a: nat, b: nat :: Outermost(from, a, b, 0) ==> Address(from) == from[a + 1..b]
  {
    if forall a: nat, b: nat :: !Bracketed(from, a, b) { NoAddress(from, 0); }
    forall a: nat, b: nat | Outermost(from, a, b, 0) ensures Address(from) == from[a + 1..b] {
      AddressFromIs(from, 0, a, b);
    }
  }

  lemma FoldedReflexive(text: string, a: nat, b: nat, low: char -> char)
    requires a <= b <= |text|
    ensures ContainsFolded(text, text[a..b], low)
  {
    assert text[a..a + |text[a..b]|] == text[a..b];
    assert FoldedAt(text, a, text[a..b], low);
  }

  /** The extracted address occurs in the From text it comes from. */
  lemma AddressOccurs(from: string, low: char -> char)
    ensures ContainsFolded(from, Address(from), low)
  {
    if Address(from) == from {
      assert from[0..|from|] == from;
      FoldedReflexive(from, 0, |from|, low);
    } else {
      var a, b :| 0 <= a <= b <= |from| && Address(from) == from[a..b];
      FoldedReflexive(from, a, b, low);
    }
  }

  // ----- Registering -----

  function SenderIs(address: string): Condition {
    Condition(From, Contains, address)
  }

  predicate IsSender(c: Condition, address: string) {
    c.column == From && c.inclusion.Contains? && c.value == address
  }

  predicate Listed(rows: seq<Row>, address: string) {
    exists i :: 0 <= i < |rows| && IsSender(rows[i].condition, address)
  }

  /** The rows after the loop over items: one row, all with the same sort_no, for every new sender. */
  function Registered(rows: seq<Row>, items: seq<Header>, id: nat, sortNo: int): seq<Row> {
    if items == [] then rows
    else
      var before, address := Registered(rows, items[..|items| - 1], id, sortNo), Address(items[|items| - 1].from);
      if Listed(before, address) then before else before + [Row(id + |before|, sortNo, SenderIs(address))]
  }

  ghost predicate BySortNo(rows: seq<Row>) {
    forall i, j :: 0 <= i < j < |rows| ==> rows[i].sortNo <= rows[j].sortNo
  }

  ghost predicate DistinctIds(rows: seq<Row>) {
    forall i, j :: 0 <= i < j < |rows| ==> rows[i].id != rows[j].id
  }

  ghost predicate NoDuplicateSender(rows: seq<Row>) {
    forall i, j :: 0 <= i < j < |rows| ==> Apart(rows[i], rows[j])
  }

  /** What the database may answer to order(:sort_no).limit(k): k rows that nothing else sorts before. */
  ghost predicate IsPick(ids: set<nat>, rows: seq<Row>, k: nat) {
    && |ids| == k && ids <= Ids(rows)
    && forall i, j :: 0 <= i < |rows| && 0 <= j < |rows| && rows[i].id in ids && rows[j].id !in ids ==>
       rows[i].sortNo <= rows[j].sortNo
  }

  /** What an eviction may take. */
  ghost predicate Evicts(ids: set<nat>, rows: seq<Row>, max: nat) {
    if |rows| <= max then ids == {} else IsPick(ids, rows, |rows| - max)
  }

  ghost function Ids(rows: seq<Row>): set<nat> {
    set i | 0 <= i < |rows| :: rows[i].id
  }

  function Remaining(rows: seq<Row>, ids: set<nat>): seq<Row> {
    if rows == [] then []
    else Remaining(rows[..|rows| - 1], ids) + if rows[|rows| - 1].id in ids then [] else [rows[|rows| - 1]]
  }

  lemma IdsNext(rows: seq<Row>, k: nat)
    requires k < |rows|
    ensures Ids(rows[..k + 1]) == Ids(rows[..k]) + {rows[k].id}
  {
    assert rows[..k + 1][k] == rows[k];
    assert forall i :: 0 <= i < k ==> rows[..k + 1][i] == rows[..k][i];
  }

  lemma {:induction false} IdsSize(rows: seq<Row>)
    requires DistinctIds(rows)
    ensures |Ids(rows)| == |rows|
  {
    if rows != [] {
      var n := |rows| - 1;
      IdsSize(rows[..n]);
      IdsNext(rows, n);
      assert rows[..n + 1] == rows;
    }
  }

  /** The database's choice. */
  method Pick(rows: seq<Row>, k: nat) returns (ids: set<nat>)
    requires BySortNo(rows) && DistinctIds(rows) && k <= |rows|
    ensures IsPick(ids, rows, k)
  {
    ids := {};
    for n := 0 to k
      invariant ids == Ids(rows[..n])
    {
      IdsNext(rows, n);
      ids := ids + {rows[n].id};
    }
    IdsSize(rows[..k]);
    assert forall i :: 0 <= i < k ==> rows[..k][i] == rows[i];
    assert forall i :: 0 <= i < |rows| && rows[i].id in ids ==> i < k;
  }

  class Filter {
    var rows: seq<Row>
    var nextId: nat
    const chain: Chain

    constructor (chain: Chain)
      ensures this.chain == chain && rows == [] && nextId == 0
    {
      this.chain, rows, nextId := chain, [], 0;
    }

    ghost predicate Valid()
      reads this
    {
      BySortNo(rows) && DistinctIds(rows) && forall i :: 0 <= i < |rows| ==> rows[i].id < nextId
    }

    method DeleteExceededConditions(max: nat) returns (ghost evicted: set<nat>)
      requires Valid()
      modifies this
      ensures Valid() && nextId == old(nextId)
      ensures Evicts(evicted, old(rows), max)
      ensures rows == Remaining(old(rows), evicted)
    {
      evicted := {};
      if |rows| > max {
        var ids := Pick(rows, |rows| - max);
        evicted := ids;
        RemainingKeeps(rows, ids);
        rows := Remaining(rows, ids);
      } else {
        RemainingNone(rows);
      }
    }

    /** register_spams: `all` are the rows before eviction. */
    method RegisterSpams(items: seq<Header>, max: nat) returns (ghost all: seq<Row>, ghost evicted: set<nat>)
      requires Valid()
      modifies this
      ensures Valid()
      ensures all == Registered(old(rows), items, old(nextId), NextSortNo(old(rows)))
      ensures Evicts(evicted, all, max) && rows == Remaining(all, evicted)
      ensures forall i :: |old(rows)| <= i < |all| ==>
        all[i].sortNo == if old(rows) == [] then 1 else old(rows)[|old(rows)| - 1].sortNo + 2
    {
      hide Registered; hide Listed; hide Address; hide BySortNo; hide DistinctIds; hide Evicts; hide Remaining;
      var sortNo, base := NextSortNo(rows), nextId;
      ghost var rows0 := rows;
      NoneRegistered(rows0, items, base, sortNo);
      for k := 0 to |items|
        invariant rows == Registered(rows0, items[..k], base, sortNo) && |rows| >= |rows0|
        invariant Built(rows, base, sortNo)
      {
        RegisteredOf(rows0, items, k, base, sortNo);
        var address := Address(items[k].from);
        if !Listed(rows, address) {
          BuiltMore(rows, base, sortNo, SenderIs(address));
          rows := rows + [Row(base + |rows|, sortNo, SenderIs(address))];
        }
      }
      assert items[..|items|] == items;
      RegisteredSortNo(rows0, items, base, sortNo);
      nextId := base + |rows|;
      all := rows;
      evicted := DeleteExceededConditions(max);
    }
  }

  /** Every new row has the same sort_no. */
  lemma {:induction false} RegisteredSortNo(rows: seq<Row>, items: seq<Header>, id: nat, sortNo: int)
    ensures rows <= Registered(rows, items, id, sortNo)
    ensures forall i :: |rows| <= i < |Registered(rows, items, id, sortNo)| ==>
      Registered(rows, items, id, sortNo)[i].sortNo == sortNo
  {
    hide Listed; hide Address;
    if items != [] { RegisteredSortNo(rows, items[..|items| - 1], id, sortNo); }
  }

  /** Rows in order with ids below the next one, none behind sortNo. */
  ghost predicate Built(rows: seq<Row>, base: nat, sortNo: int) {
    BySortNo(rows) && DistinctIds(rows)
      && forall i :: 0 <= i < |rows| ==> rows[i].id < base + |rows| && rows[i].sortNo <= sortNo
  }

  lemma BuiltMore(rows: seq<Row>, base: nat, sortNo: int, c: Condition)
    requires Built(rows, base, sortNo)
    ensures Built(rows + [Row(base + |rows|, sortNo, c)], base, sortNo)
  {
  }

  lemma NoneRegistered(rows: seq<Row>, items: seq<Header>, id: nat, sortNo: int)
    requires BySortNo(rows) && DistinctIds(rows) && forall i :: 0 <= i < |rows| ==> rows[i].id < id
    requires sortNo == NextSortNo(rows)
    ensures Registered(rows, items[..0], id, sortNo) == rows && Built(rows, id, sortNo)
  {
  }

  lemma RegisteredOf(rows: seq<Row>, items: seq<Header>, k: nat, id: nat, sortNo: int)
    requires k < |items|
    ensures var before, address := Registered(rows, items[..k], id, sortNo), Address(items[k].from);
      Registered(rows, items[..k + 1], id, sortNo) ==
      if Listed(before, address) then before else before + [Row(id + |before|, sortNo, SenderIs(address))]
  {
    hide Address; hide Listed;
    assert items[..k + 1][..k] == items[..k];
  }

  /** One above the last row, and one more for the row that is built. */
  function NextSortNo(rows: seq<Row>): int {
    if rows == [] then 1 else rows[|rows| - 1].sortNo + 2
  }

  lemma {:induction false} RemainingNone(rows: seq<Row>)
    ensures Remaining(rows, {}) == rows
  {
    if rows != [] { RemainingNone(rows[..|rows| - 1]); }
  }

  lemma {:induction false} RemainingIs(rows: seq<Row>, ids: set<nat>)
    ensures forall r :: r in Remaining(rows, ids) <==> r in rows && r.id !in ids
  {
    if rows != [] {
      RemainingIs(rows[..|rows| - 1], ids);
      assert rows == rows[..|rows| - 1] + [rows[|rows| - 1]];
    }
  }

  /** A property of pairs in order passes to what remains. */
  lemma {:induction false} PairsRemain(rows: seq<Row>, ids: set<nat>, p: (Row, Row) -> bool)
    requires forall i, j :: 0 <= i < j < |rows| ==> p(rows[i], rows[j])
    ensures forall i, j :: 0 <= i < j < |Remaining(rows, ids)| ==> p(Remaining(rows, ids)[i], Remaining(rows, ids)[j])
  {
    if rows != [] {
      var init, last := rows[..|rows| - 1], rows[|rows| - 1];
      PairsRemain(init, ids, p);
      RemainingIs(init, ids);
      var kept := Remaining(init, ids);
      forall i | 0 <= i < |kept| ensures p(kept[i], last) {
        assert kept[i] in init;
      }
    }
  }

  predicate Apart(a: Row, b: Row) {
    !(IsSender(a.condition, a.condition.value) && IsSender(b.condition, a.condition.value))
  }

  /** Leaving rows out keeps their order. */
  lemma RemainingKeeps(rows: seq<Row>, ids: set<nat>)
    ensures BySortNo(rows) ==> BySortNo(Remaining(rows, ids))
    ensures DistinctIds(rows) ==> DistinctIds(Remaining(rows, ids))
    ensures NoDuplicateSender(rows) ==> NoDuplicateSender(Remaining(rows, ids))
    ensures forall r :: r in Remaining(rows, ids) <==> r in rows && r.id !in ids
  {
    RemainingIs(rows, ids);
    if BySortNo(rows) { PairsRemain(rows, ids, (a: Row, b: Row) => a.sortNo <= b.sortNo); }
    if DistinctIds(rows) { PairsRemain(rows, ids, (a: Row, b: Row) => a.id != b.id); }
    if NoDuplicateSender(rows) { PairsRemain(rows, ids, (a: Row, b: Row) => Apart(a, b)); }
  }

  // ----- What registering achieves -----

  /** One of the items came from that address. */
  ghost predicate Sent(items: seq<Header>, address: string) {
    exists h :: h in items && Address(h.from) == address
  }

  lemma SentMore(items: seq<Header>, h: Header, address: string)
    ensures Sent(items, address) ==> Sent(items + [h], address)
    ensures Sent(items + [h], Address(h.from))
  {
    hide Address;
    assert h in items + [h];
    if g :| g in items && Address(g.from) == address { assert g in items + [h]; }
  }

  /** New rows stand after the old ones, each for an item whose sender was not listed; all senders are listed. */
  ghost predicate Grown(rows: seq<Row>, all: seq<Row>, items: seq<Header>, id: nat, sortNo: int) {
    && rows <= all && |all| <= |rows| + |items|
    && (forall i :: |rows| <= i < |all| ==>
           all[i].sortNo == sortNo && all[i].id == id + i && !Listed(rows, all[i].condition.value))
    && (forall i :: |rows| <= i < |all| ==> Sent(items, all[i].condition.value))
    && (forall h :: h in items ==> Listed(all, Address(h.from)))
  }

  /** An item of a listed sender adds nothing. */
  lemma GrownSame(rows: seq<Row>, all: seq<Row>, items: seq<Header>, id: nat, sortNo: int, h: Header)
    requires Grown(rows, all, items, id, sortNo) && Listed(all, Address(h.from))
    ensures Grown(rows, all, items + [h], id, sortNo)
  {
    hide Address; hide Listed; hide Sent;
    forall i | |rows| <= i < |all| ensures Sent(items + [h], all[i].condition.value) {
      SentMore(items, h, all[i].condition.value);
    }
  }

  lemma GrownMore(rows: seq<Row>, all: seq<Row>, items: seq<Header>, id: nat, sortNo: int, h: Header)
    requires Grown(rows, all, items, id, sortNo) && !Listed(all, Address(h.from))
    ensures Grown(rows, all + [Row(id + |all|, sortNo, SenderIs(Address(h.from)))], items + [h], id, sortNo)
  {
    var more := all + [Row(id + |all|, sortNo, SenderIs(Address(h.from)))];
    NotListedBefore(rows, all, Address(h.from));
    assert IsSender(more[|all|].condition, Address(h.from));
    assert Listed(more, Address(h.from));
    hide Address;
    forall g | g in items + [h] ensures Listed(more, Address(g.from)) {
      if g in items { ListedOn(all, more, Address(g.from)); }
    }
    hide Listed; hide Sent;
    forall i | |rows| <= i < |more| ensures Sent(items + [h], more[i].condition.value) {
      if i < |all| { SentMore(items, h, all[i].condition.value); } else { SentMore(items, h, Address(h.from)); }
    }
  }

  lemma ApartMore(all: seq<Row>, r: Row)
    requires NoDuplicateSender(all) && !Listed(all, r.condition.value)
    ensures NoDuplicateSender(all + [r])
  {
    forall i | 0 <= i < |all| ensures Apart(all[i], r) {
      assert !IsSender(all[i].condition, r.condition.value);
    }
  }

  lemma RegisteredNext(rows: seq<Row>, items: seq<Header>, id: nat, sortNo: int)
    requires items != []
    ensures var before, address := Registered(rows, items[..|items| - 1], id, sortNo), Address(items[|items| - 1].from);
      Registered(rows, items, id, sortNo) ==
      if Listed(before, address) then before else before + [Row(id + |before|, sortNo, SenderIs(address))]
  {
    hide Address; hide Listed;
  }

  lemma {:induction false} RegisteredIs(rows: seq<Row>, items: seq<Header>, id: nat, sortNo: int)
    ensures var all := Registered(rows, items, id, sortNo);
      Grown(rows, all, items, id, sortNo) && (NoDuplicateSender(rows) ==> NoDuplicateSender(all))
  {
    hide *;
    if items == [] {
      RegisteredNone(rows, id, sortNo);
    } else {
      var init, last := items[..|items| - 1], items[|items| - 1];
      RegisteredIs(rows, init, id, sortNo);
      RegisteredNext(rows, items, id, sortNo);
      RegisteredOne(rows, Registered(rows, init, id, sortNo), init, id, sortNo, last);
      assert items == init + [last];
    }
  }

  lemma RegisteredNone(rows: seq<Row>, id: nat, sortNo: int)
    ensures Registered(rows, [], id, sortNo) == rows && Grown(rows, rows, [], id, sortNo)
  {
    hide Address; hide Listed;
  }

  lemma RegisteredOne(rows: seq<Row>, before: seq<Row>, items: seq<Header>, id: nat, sortNo: int, h: Header)
    requires Grown(rows, before, items, id, sortNo) && (NoDuplicateSender(rows) ==> NoDuplicateSender(before))
    ensures var address := Address(h.from);
      var all := if Listed(before, address) then before else before + [Row(id + |before|, sortNo, SenderIs(address))];
      Grown(rows, all, items + [h], id, sortNo) && (NoDuplicateSender(rows) ==> NoDuplicateSender(all))
  {
    hide *;
    if Listed(before, Address(h.from)) {
      GrownSame(rows, before, items, id, sortNo, h);
    } else {
      GrownMore(rows, before, items, id, sortNo, h);
      if NoDuplicateSender(rows) {
        SenderValue(Address(h.from));
        ApartMore(before, Row(id + |before|, sortNo, SenderIs(Address(h.from))));
      }
    }
  }

  lemma SenderValue(address: string)
    ensures SenderIs(address).value == address
  {
  }

  lemma ListedOn(a: seq<Row>, b: seq<Row>, address: string)
    requires a <= b && Listed(a, address)
    ensures Listed(b, address)
  {
    var i :| 0 <= i < |a| && IsSender(a[i].condition, address);
    assert IsSender(b[i].condition, address);
  }

  lemma NotListedBefore(a: seq<Row>, b: seq<Row>, address: string)
    requires a <= b && !Listed(b, address)
    ensures !Listed(a, address)
  {
    if Listed(a, address) { ListedOn(a, b, address); }
  }

  lemma {:induction false} RemainingSize(rows: seq<Row>, ids: set<nat>)
    requires DistinctIds(rows)
    ensures |Remaining(rows, ids)| + |ids * Ids(rows)| == |rows|
  {
    if rows != [] {
      var n := |rows| - 1;
      RemainingSize(rows[..n], ids);
      IdsNext(rows, n);
      assert rows[..n + 1] == rows;
      var before := ids * Ids(rows[..n]);
      assert rows[n].id !in Ids(rows[..n]);
      if rows[n].id in ids {
        assert ids * Ids(rows) == before + {rows[n].id};
      } else {
        assert ids * Ids(rows) == before;
      }
    } else {
      assert ids * Ids(rows) == {};
    }
  }

  /** register_spams from a duplicate-free list: no sender twice, at most `max` rows, and what was evicted
      sorts before everything that stayed. */
  lemma Bounded(rows: seq<Row>, items: seq<Header>, id: nat, max: nat, evicted: set<nat>)
    requires BySortNo(rows) && DistinctIds(rows) && NoDuplicateSender(rows)
    requires forall i :: 0 <= i < |rows| ==> rows[i].id < id
    requires Evicts(evicted, Registered(rows, items, id, NextSortNo(rows)), max)
    ensures var all := Registered(rows, items, id, NextSortNo(rows));
      && NoDuplicateSender(Remaining(all, evicted))
      && |Remaining(all, evicted)| == (if |all| <= max then |all| else max)
      && forall r, q :: r in all && r.id in evicted && q in Remaining(all, evicted) ==> r.sortNo <= q.sortNo
  {
    var all := Registered(rows, items, id, NextSortNo(rows));
    RegisteredIs(rows, items, id, NextSortNo(rows));
    RegisteredValid(rows, items, id);
    hide Registered;
    RemainingSize(all, evicted);
    RemainingKeeps(all, evicted);
    RemainingNone(all);
    hide Remaining; hide NoDuplicateSender; hide BySortNo; hide Listed;
    if |all| > max { assert evicted * Ids(all) == evicted; }
  }

  lemma RegisteredValid(rows: seq<Row>, items: seq<Header>, id: nat)
    requires BySortNo(rows) && DistinctIds(rows) && forall i :: 0 <= i < |rows| ==> rows[i].id < id
    ensures BySortNo(Registered(rows, items, id, NextSortNo(rows)))
    ensures DistinctIds(Registered(rows, items, id, NextSortNo(rows)))
  {
    RegisteredIs(rows, items, id, NextSortNo(rows));
    hide Registered; hide Listed;
  }

  function Conditions(rows: seq<Row>): (r: seq<Condition>)
    ensures |r| == |rows| && forall i :: 0 <= i < |r| ==> r[i] == rows[i].condition
  {
    if rows == [] then [] else Conditions(rows[..|rows| - 1]) + [rows[|rows| - 1].condition]
  }

  // ----- Which rows an eviction cannot take -----

  /** How many rows sort strictly before a number. */
  function SortedBefore(rows: seq<Row>, sortNo: int): nat {
    if rows == [] then 0
    else SortedBefore(rows[..|rows| - 1], sortNo) + if rows[|rows| - 1].sortNo < sortNo then 1 else 0
  }

  lemma {:induction false} SortedBeforeIs(rows: seq<Row>, sortNo: int)
    requires BySortNo(rows)
    ensures SortedBefore(rows, sortNo) <= |rows|
    ensures forall j :: 0 <= j < |rows| ==> (j < SortedBefore(rows, sortNo) <==> rows[j].sortNo < sortNo)
  {
    if rows != [] {
      var n := |rows| - 1;
      SortedBeforeIs(rows[..n], sortNo);
      assert forall j :: 0 <= j < n ==> rows[..n][j] == rows[j] && rows[j].sortNo <= rows[n].sortNo;
    }
  }

  lemma FirstIds(rows: seq<Row>, first: nat, j: nat)
    requires DistinctIds(rows) && first <= |rows| && j < |rows|
    ensures rows[j].id in Ids(rows)
    ensures rows[j].id in Ids(rows[..first]) <==> j < first
    ensures Ids(rows[..first]) <= Ids(rows) && |Ids(rows[..first])| == first
  {
    IdsSize(rows[..first]);
    assert forall n :: 0 <= n < first ==> rows[..first][n] == rows[n];
    if j < first { assert rows[..first][j].id in Ids(rows[..first]); }
    forall x | x in Ids(rows[..first]) ensures x in Ids(rows) {
      var n :| 0 <= n < first && rows[..first][n].id == x;
      assert rows[n].id in Ids(rows);
    }
  }

  /** Row i with the first rows before it, as one possible answer of the database. */
  lemma PickAround(rows: seq<Row>, i: nat, k: nat) returns (ids: set<nat>)
    requires BySortNo(rows) && DistinctIds(rows) && i < |rows| && SortedBefore(rows, rows[i].sortNo) < k <= |rows|
    ensures IsPick(ids, rows, k) && rows[i].id in ids
  {
    SortedBeforeIs(rows, rows[i].sortNo);
    var first := if i < k then k else k - 1;
    ids := Ids(rows[..first]) + {rows[i].id};
    FirstIds(rows, first, i);
    assert |ids| == k by { if i < k { assert ids == Ids(rows[..first]); } }
    forall j | 0 <= j < |rows| ensures rows[j].id in ids <==> j < first || j == i {
      FirstIds(rows, first, j);
    }
    hide Ids;
  }

  lemma TakenTakesBefore(rows: seq<Row>, i: nat, ids: set<nat>, k: nat)
    requires BySortNo(rows) && DistinctIds(rows) && i < |rows| && IsPick(ids, rows, k) && rows[i].id in ids
    ensures SortedBefore(rows, rows[i].sortNo) < k
  {
    var m := SortedBefore(rows, rows[i].sortNo);
    SortedBeforeIs(rows, rows[i].sortNo);
    var before := rows[..m];
    IdsSize(before);
    forall x | x in Ids(before) ensures x in ids - {rows[i].id} {
      var j :| 0 <= j < m && before[j].id == x;
      assert rows[j].id == x && j != i;
    }
    SubsetSize(Ids(before), ids - {rows[i].id});
  }

  /** A row stays whatever rows the database picks exactly when at least as many rows sort strictly
      before it as have to go. */
  lemma StaysIff(rows: seq<Row>, i: nat, max: nat)
    requires BySortNo(rows) && DistinctIds(rows) && i < |rows|
    ensures (forall ids :: Evicts(ids, rows, max) ==> rows[i].id !in ids) <==>
      SortedBefore(rows, rows[i].sortNo) + max >= |rows|
  {
    var m := SortedBefore(rows, rows[i].sortNo);
    if m + max >= |rows| {
      forall ids | Evicts(ids, rows, max) ensures rows[i].id !in ids {
        if rows[i].id in ids { TakenTakesBefore(rows, i, ids, |rows| - max); }
      }
    } else {
      var ids := PickAround(rows, i, |rows| - max);
      assert Evicts(ids, rows, max);
    }
  }

  /** The senders among the items that no row lists. */
  function NewSenders(rows: seq<Row>, items: seq<Header>): set<string> {
    set h | h in items && !Listed(rows, Address(h.from)) :: Address(h.from)
  }

  lemma NewSendersNext(rows: seq<Row>, items: seq<Header>, h: Header)
    ensures NewSenders(rows, items + [h]) ==
      if Listed(rows, Address(h.from)) then NewSenders(rows, items) else NewSenders(rows, items) + {Address(h.from)}
  {
    hide Address; hide Listed;
    var more := NewSenders(rows, items + [h]);
    forall x | x in more
      ensures x in NewSenders(rows, items) || (x == Address(h.from) && !Listed(rows, x))
    {
      var g :| g in items + [h] && !Listed(rows, Address(g.from)) && Address(g.from) == x;
    }
  }

  /** One row is built for each new sender. */
  lemma {:induction false} RegisteredSize(rows: seq<Row>, items: seq<Header>, id: nat, sortNo: int)
    ensures |Registered(rows, items, id, sortNo)| == |rows| + |NewSenders(rows, items)|
  {
    hide Address; hide NewSenders; hide Listed;
    if items != [] {
      var init, last := items[..|items| - 1], items[|items| - 1];
      RegisteredSize(rows, init, id, sortNo);
      NewSenderCounts(rows, init, last, id, sortNo);
      assert init + [last] == items;
    } else {
      NoItems(rows);
    }
  }

  lemma NoItems(rows: seq<Row>)
    ensures NewSenders(rows, []) == {}
  {
  }

  lemma NewSenderCounts(rows: seq<Row>, items: seq<Header>, h: Header, id: nat, sortNo: int)
    ensures |NewSenders(rows, items + [h])| ==
      |NewSenders(rows, items)| + if Listed(Registered(rows, items, id, sortNo), Address(h.from)) then 0 else 1
  {
    var before := Registered(rows, items, id, sortNo);
    RegisteredIs(rows, items, id, sortNo);
    NewSendersNext(rows, items, h);
    hide Address; hide NoDuplicateSender; hide Registered;
    if Listed(before, Address(h.from)) {
      KnownSender(rows, before, items, Address(h.from));
      assert Address(h.from) in NewSenders(rows, items) ==>
             NewSenders(rows, items) + {Address(h.from)} == NewSenders(rows, items);
    } else {
      NotListedBefore(rows, before, Address(h.from));
      NoSuchSender(rows, before, items, Address(h.from));
    }
  }

  lemma NoSuchSender(rows: seq<Row>, all: seq<Row>, items: seq<Header>, address: string)
    requires !Listed(all, address) && forall h :: h in items ==> Listed(all, Address(h.from))
    ensures address !in NewSenders(rows, items)
  {
    hide Address; hide Listed;
  }

  /** A sender listed after some items was listed before or is among the new ones. */
  lemma KnownSender(rows: seq<Row>, all: seq<Row>, items: seq<Header>, address: string)
    requires rows <= all && Listed(all, address)
    requires forall i :: |rows| <= i < |all| ==> Sent(items, all[i].condition.value)
    ensures Listed(rows, address) || address in NewSenders(rows, items)
  {
    var i :| 0 <= i < |all| && IsSender(all[i].condition, address);
    if i < |rows| { assert IsSender(rows[i].condition, address); }
  }

  /** A sender is listed after the eviction, whatever it takes, exactly when its row always stays. */
  lemma ListedIffStays(all: seq<Row>, i: nat, max: nat, address: string)
    requires NoDuplicateSender(all) && DistinctIds(all) && i < |all| && IsSender(all[i].condition, address)
    ensures (forall ids :: Evicts(ids, all, max) ==> Listed(Remaining(all, ids), address)) <==>
      (forall ids :: Evicts(ids, all, max) ==> all[i].id !in ids)
  {
    hide Evicts;
    forall n | 0 <= n < |all| && n != i ensures !IsSender(all[n].condition, address) {
      assert if n < i then Apart(all[n], all[i]) else Apart(all[i], all[n]);
    }
    forall ids | Evicts(ids, all, max) ensures Listed(Remaining(all, ids), address) <==> all[i].id !in ids {
      RemainingIs(all, ids);
      var kept := Remaining(all, ids);
      if all[i].id !in ids {
        var j :| 0 <= j < |kept| && kept[j] == all[i];
      }
      if Listed(kept, address) {
        var j :| 0 <= j < |kept| && IsSender(kept[j].condition, address);
        assert kept[j] in kept;
        var n :| 0 <= n < |all| && all[n] == kept[j];
        assert n == i;
      }
    }
  }

  ghost predicate ListValid(rows: seq<Row>, id: nat) {
    BySortNo(rows) && DistinctIds(rows) && NoDuplicateSender(rows) && forall i :: 0 <= i < |rows| ==> rows[i].id < id
  }

  /** A sender that was listed, registered again or not, is sure to stay listed exactly when the rows
      that sort before it make up for the surplus. */
  lemma ListedSenderStays(rows: seq<Row>, items: seq<Header>, id: nat, max: nat, i: nat, address: string)
    requires ListValid(rows, id) && i < |rows| && IsSender(rows[i].condition, address)
    ensures (forall ids :: Evicts(ids, Registered(rows, items, id, NextSortNo(rows)), max) ==>
               Listed(Remaining(Registered(rows, items, id, NextSortNo(rows)), ids), address)) <==>
      SortedBefore(rows, rows[i].sortNo) + max >= |rows| + |NewSenders(rows, items)|
  {
    var all := Registered(rows, items, id, NextSortNo(rows));
    RegisteredIs(rows, items, id, NextSortNo(rows));
    RegisteredValid(rows, items, id);
    RegisteredSize(rows, items, id, NextSortNo(rows));
    hide Registered; hide Remaining; hide Listed; hide Evicts; hide Address; hide NewSenders;
    assert all[i] == rows[i];
    ListedIffStays(all, i, max, address);
    StaysIff(all, i, max);
    SameBefore(rows, all, rows[i].sortNo);
  }

  /** Rows that stand later and sort later do not count. */
  lemma SameBefore(rows: seq<Row>, all: seq<Row>, sortNo: int)
    requires BySortNo(all) && BySortNo(rows) && rows <= all
    requires forall j :: |rows| <= j < |all| ==> sortNo <= all[j].sortNo
    ensures SortedBefore(all, sortNo) == SortedBefore(rows, sortNo)
  {
    SortedBeforeIs(rows, sortNo);
    SortedBeforeIs(all, sortNo);
  }

  /** A new sender is sure to be listed exactly when there are no more new ones than the maximum. */
  lemma NewSenderStays(rows: seq<Row>, items: seq<Header>, id: nat, max: nat, h: Header)
    requires ListValid(rows, id) && h in items && !Listed(rows, Address(h.from))
    ensures (forall ids :: Evicts(ids, Registered(rows, items, id, NextSortNo(rows)), max) ==>
               Listed(Remaining(Registered(rows, items, id, NextSortNo(rows)), ids), Address(h.from))) <==>
      |NewSenders(rows, items)| <= max
  {
    var all, address := Registered(rows, items, id, NextSortNo(rows)), Address(h.from);
    RegisteredIs(rows, items, id, NextSortNo(rows));
    RegisteredValid(rows, items, id);
    RegisteredSize(rows, items, id, NextSortNo(rows));
    var i :| 0 <= i < |all| && IsSender(all[i].condition, address);
    hide Registered; hide Remaining; hide Listed; hide Evicts; hide Address; hide NewSenders;
    ListedIffStays(all, i, max, address);
    StaysIff(all, i, max);
    SortedBeforeIs(all, all[i].sortNo);
    OldBeforeNew(rows, all, i);
  }

  lemma OldBeforeNew(rows: seq<Row>, all: seq<Row>, i: nat)
    requires BySortNo(all) && rows <= all && |rows| <= i < |all|
    requires forall j :: |rows| <= j < |all| ==> all[j].sortNo == NextSortNo(rows)
    ensures SortedBefore(all, all[i].sortNo) == |rows|
  {
    SortedBeforeIs(all, all[i].sortNo);
    forall j | 0 <= j < |rows| ensures all[j].sortNo < all[i].sortNo {
      assert all[j] == rows[j] && all[|rows| - 1] == rows[|rows| - 1];
    }
    assert all[|rows|].sortNo == all[i].sortNo;
    if rows != [] { assert all[|rows| - 1].sortNo < all[i].sortNo; }
  }

  /** If no more new senders come than the maximum, the filter matches the From of every item. */
  lemma NewSendersMatch(rows: seq<Row>, items: seq<Header>, id: nat, max: nat, evicted: set<nat>, h: Header,
                        low: char -> char)
    requires ListValid(rows, id) && Evicts(evicted, Registered(rows, items, id, NextSortNo(rows)), max)
    requires |NewSenders(rows, items)| <= max && h in items && !Listed(rows, Address(h.from))
    ensures RuleMatches(Rule(Or, Conditions(Remaining(Registered(rows, items, id, NextSortNo(rows)), evicted))), h, low)
  {
    var kept := Remaining(Registered(rows, items, id, NextSortNo(rows)), evicted);
    NewSenderStays(rows, items, id, max, h);
    hide Evicts; hide Remaining; hide Registered; hide Listed; hide ListValid; hide NewSenders;
    assert Listed(kept, Address(h.from));
    AddressOccurs(h.from, low);
    ListedMatches(kept, h, low);
  }

  /** A listed sender's mail matches. */
  lemma ListedMatches(rows: seq<Row>, h: Header, low: char -> char)
    requires Listed(rows, Address(h.from)) && ContainsFolded(h.from, Address(h.from), low)
    ensures RuleMatches(Rule(Or, Conditions(rows)), h, low)
  {
    hide Address; hide ContainsFolded;
    var i :| 0 <= i < |rows| && IsSender(rows[i].condition, Address(h.from));
    var c := Conditions(rows)[i];
    assert Texts(h, c.column)[0] == h.from;
    assert TextMatches(c, Texts(h, c.column)[0], low);
    assert ConditionMatches(c, h, low);
  }

  // ----- A listed sender can be lost -----

  function MailFrom(address: string): Header {
    Header(address, [], [], [], "", "")
  }

  /** With room for one sender, registering a listed sender together with a new one drops the listed one. */
  lemma ListedSenderLost(evicted: set<nat>, low: char -> char)
    requires low('a') != low('b')
    requires var all := Registered([Row(0, 0, SenderIs("a"))], [MailFrom("a"), MailFrom("b")], 1, 2);
      IsPick(evicted, all, |all| - 1)
    ensures var all := Registered([Row(0, 0, SenderIs("a"))], [MailFrom("a"), MailFrom("b")], 1, 2);
      !RuleMatches(Rule(Or, Conditions(Remaining(all, evicted))), MailFrom("a"), low)
  {
    var rows, items := [Row(0, 0, SenderIs("a"))], [MailFrom("a"), MailFrom("b")];
    var all := Registered(rows, items, 1, 2);
    TwoRegistered();
    FirstGoes(all, evicted);
    OnlySecond(all, evicted);
    assert all[1].condition == SenderIs("b");
    OnlyB(low);
  }

  lemma FirstGoes(all: seq<Row>, evicted: set<nat>)
    requires |all| == 2 && all[0].sortNo < all[1].sortNo && all[0].id != all[1].id && IsPick(evicted, all, 1)
    ensures all[0].id in evicted && all[1].id !in evicted
  {
    var x :| x in evicted;
    if {all[0].id, all[1].id} <= evicted { SubsetSize({all[0].id, all[1].id}, evicted); }
  }

  lemma OnlySecond(all: seq<Row>, evicted: set<nat>)
    requires |all| == 2 && all[0].id in evicted && all[1].id !in evicted
    ensures Remaining(all, evicted) == [all[1]]
  {
    assert all[..1][..0] == [];
    assert Remaining(all[..1][..0], evicted) == [];
    assert Remaining(all[..1], evicted) == [];
  }

  lemma OnlyB(low: char -> char)
    requires low('a') != low('b')
    ensures !RuleMatches(Rule(Or, Conditions([Row(2, 2, SenderIs("b"))])), MailFrom("a"), low)
  {
    var text, value := "a", "b";
    forall i: nat | i <= |text| ensures !FoldedAt(text, i, value, low) {
      if i == 0 { assert text[0..1][0] == 'a' && value[0] == 'b'; }
    }
    assert !ContainsFolded(text, value, low);
    hide ContainsFolded;
    assert Texts(MailFrom("a"), From) == ["a"];
    assert !ConditionMatches(SenderIs("b"), MailFrom("a"), low);
  }

  lemma TwoRegistered()
    ensures Registered([Row(0, 0, SenderIs("a"))], [MailFrom("a"), MailFrom("b")], 1, 2) ==
      [Row(0, 0, SenderIs("a")), Row(2, 2, SenderIs("b"))]
  {
    var rows, items := [Row(0, 0, SenderIs("a"))], [MailFrom("a"), MailFrom("b")];
    assert items[..1] == [MailFrom("a")] && items[..1][..0] == [];
    assert Address("a") == "a" && Address("b") == "b";
    assert Registered(rows, [], 1, 2) == rows;
    assert IsSender(rows[0].condition, "a");
    assert Registered(rows, items[..1], 1, 2) == rows;
  }
}
