/** schedule_mail_uids: how many of the UIDs of several mailboxes one request handles itself, and what is left, in
    order, to a job. */
module FilterSchedule {

  /** One mailbox of an insertion-ordered hash of UID lists. */
  datatype Entry = Entry(mailbox: string, uids: seq<nat>)

  ghost predicate DistinctKeys(h: seq<Entry>) {
    forall i, j :: 0 <= i < j < |h| ==> h[i].mailbox != h[j].mailbox
  }

  ghost predicate NoEmptyEntry(h: seq<Entry>) {
    forall i :: 0 <= i < |h| ==> h[i].uids != []
  }

  function Pairs(mailbox: string, uids: seq<nat>): (r: seq<(string, nat)>)
    ensures |r| == |uids| && forall i :: 0 <= i < |uids| ==> r[i] == (mailbox, uids[i])
  {
    if uids == [] then [] else Pairs(mailbox, uids[..|uids| - 1]) + [(mailbox, uids[|uids| - 1])]
  }

  /** All UIDs in order, each with its mailbox. */
  function Flat(h: seq<Entry>): seq<(string, nat)> {
    if h == [] then [] else Flat(h[..|h| - 1]) + Pairs(h[|h| - 1].mailbox, h[|h| - 1].uids)
  }

  function Lookup(h: seq<Entry>, mailbox: string): seq<nat> {
    if h == [] then []
    else if h[|h| - 1].mailbox == mailbox then h[|h| - 1].uids
    else Lookup(h[..|h| - 1], mailbox)
  }

  ghost function Keys(h: seq<Entry>): set<string> {
    set i | 0 <= i < |h| :: h[i].mailbox
  }

  ghost predicate OnlyLast(h: seq<Entry>, mailbox: string) {
    forall i :: 0 <= i < |h| && h[i].mailbox == mailbox ==> i == |h| - 1
  }

  /** The UID goes to the end of the list of its mailbox, which is the last key or a new one. */
  function Append(h: seq<Entry>, mailbox: string, uid: nat): seq<Entry> {
    if |h| > 0 && h[|h| - 1].mailbox == mailbox then h[..|h| - 1] + [Entry(mailbox, h[|h| - 1].uids + [uid])]
    else h + [Entry(mailbox, [uid])]
  }

  lemma AppendFlat(h: seq<Entry>, mailbox: string, uid: nat)
    ensures Flat(Append(h, mailbox, uid)) == Flat(h) + [(mailbox, uid)]
  {
    var r := Append(h, mailbox, uid);
    if |h| > 0 && h[|h| - 1].mailbox == mailbox {
      var uids := h[|h| - 1].uids + [uid];
      assert r[..|r| - 1] == h[..|h| - 1];
      assert uids[..|uids| - 1] == h[|h| - 1].uids;
    } else {
      assert r[..|r| - 1] == h;
      assert Pairs(mailbox, [uid]) == [(mailbox, uid)];
    }
  }

  lemma AppendKeys(h: seq<Entry>, mailbox: string, uid: nat)
    ensures Keys(Append(h, mailbox, uid)) == Keys(h) + {mailbox}
  {
    var r := Append(h, mailbox, uid);
    assert r[|r| - 1].mailbox == mailbox;
    assert forall i :: 0 <= i < |h| ==> r[i].mailbox == h[i].mailbox;
    forall x ensures x in Keys(r) <==> x in Keys(h) || x == mailbox {
      if x in Keys(h) {
        var i :| 0 <= i < |h| && h[i].mailbox == x;
        assert r[i].mailbox == x;
      }
    }
  }

  lemma AppendKeeps(h: seq<Entry>, mailbox: string, uid: nat)
    requires DistinctKeys(h) && NoEmptyEntry(h) && OnlyLast(h, mailbox)
    ensures DistinctKeys(Append(h, mailbox, uid)) && NoEmptyEntry(Append(h, mailbox, uid))
    ensures OnlyLast(Append(h, mailbox, uid), mailbox)
  {
  }

  lemma NewKey(h: seq<Entry>, mailbox: string)
    requires mailbox !in Keys(h)
    ensures OnlyLast(h, mailbox)
  {
  }

  function Min(a: int, b: int): int {
    if a < b then a else b
  }

  /** The share handled now: min(cap, total), a cap of zero or less allowing nothing. */
  function Share(cap: int, total: nat): nat {
    if cap <= 0 then 0 else Min(cap, total)
  }

  /** The first min(cap, total) UIDs are processed in order, the others delayed in order. */
  ghost predicate Scheduled(mailUids: seq<Entry>, cap: int, process: seq<Entry>, delay: seq<Entry>) {
    && DistinctKeys(process) && NoEmptyEntry(process) && DistinctKeys(delay) && NoEmptyEntry(delay)
    && Flat(process) == Flat(mailUids)[..Share(cap, |Flat(mailUids)|)]
    && Flat(delay) == Flat(mailUids)[Share(cap, |Flat(mailUids)|)..]
  }

  /** What the loops keep: `seen` split at the cap, and no key of h among the mailboxes still to come. */
  ghost predicate SplitAt(seen: seq<(string, nat)>, cap: int, process: seq<Entry>, delay: seq<Entry>) {
    && DistinctKeys(process) && NoEmptyEntry(process) && DistinctKeys(delay) && NoEmptyEntry(delay)
    && Flat(process) == seen[..Share(cap, |seen|)] && Flat(delay) == seen[Share(cap, |seen|)..]
  }

  /** One UID goes to one of the two hashes. */
  method Place(mailbox: string, uid: nat, cap: int, count: nat, process: seq<Entry>, delay: seq<Entry>,
               ghost seen: seq<(string, nat)>)
    returns (p: seq<Entry>, d: seq<Entry>)
    requires count == |seen| && SplitAt(seen, cap, process, delay) && OnlyLast(process, mailbox)
    requires OnlyLast(delay, mailbox)
    ensures SplitAt(seen + [(mailbox, uid)], cap, p, d) && OnlyLast(p, mailbox) && OnlyLast(d, mailbox)
    ensures Keys(p) <= Keys(process) + {mailbox} && Keys(d) <= Keys(delay) + {mailbox}
  {
    hide Keys; hide DistinctKeys; hide NoEmptyEntry; hide OnlyLast; hide Flat;
    OneMore(seen, (mailbox, uid), cap);
    hide Append;
    p, d := process, delay;
    if count >= cap {
      AppendFlat(delay, mailbox, uid); AppendKeys(delay, mailbox, uid); AppendKeeps(delay, mailbox, uid);
      d := Append(delay, mailbox, uid);
    } else {
      AppendFlat(process, mailbox, uid); AppendKeys(process, mailbox, uid); AppendKeeps(process, mailbox, uid);
      p := Append(process, mailbox, uid);
    }
  }

  /** The inner loop, over the UIDs of one mailbox. */
  method PlaceAll(mailbox: string, uids: seq<nat>, cap: int, start: nat, process: seq<Entry>, delay: seq<Entry>,
                  ghost before: seq<(string, nat)>)
    returns (count: nat, p: seq<Entry>, d: seq<Entry>)
    requires start == |before| && SplitAt(before, cap, process, delay) && mailbox !in Keys(process)
    requires mailbox !in Keys(delay)
    ensures count == start + |uids| && SplitAt(before + Pairs(mailbox, uids), cap, p, d)
    ensures Keys(p) <= Keys(process) + {mailbox} && Keys(d) <= Keys(delay) + {mailbox}
  {
    hide *;
    p, d, count := process, delay, start;
    NewKey(process, mailbox);
    NewKey(delay, mailbox);
    NoPairs(mailbox, uids);
    assert before + [] == before;
    for n := 0 to |uids|
      invariant count == start + n && SplitAt(before + Pairs(mailbox, uids[..n]), cap, p, d)
      invariant OnlyLast(p, mailbox) && OnlyLast(d, mailbox)
      invariant Keys(p) <= Keys(process) + {mailbox} && Keys(d) <= Keys(delay) + {mailbox}
    {
      hide *;
      NextPair(mailbox, uids, n);
      assert before + Pairs(mailbox, uids[..n + 1]) == before + Pairs(mailbox, uids[..n]) + [(mailbox, uids[n])];
      p, d := Place(mailbox, uids[n], cap, count, p, d, before + Pairs(mailbox, uids[..n]));
      count := count + 1;
    }
    assert uids[..|uids|] == uids;
  }

  /** What the outer loop keeps: the first k entries placed, and no key in a hash that has not come yet. */
  ghost predicate Upto(h: seq<Entry>, k: nat, cap: int, count: nat, process: seq<Entry>, delay: seq<Entry>) {
    && k <= |h| && count == |Flat(h[..k])| && SplitAt(Flat(h[..k]), cap, process, delay)
    && Keys(process) <= Keys(h[..k]) && Keys(delay) <= Keys(h[..k])
  }

  lemma NothingSeen(h: seq<Entry>, cap: int)
    ensures Upto(h, 0, cap, 0, [], [])
  {
    assert h[..0] == [];
  }

  lemma KeyIsNew(h: seq<Entry>, k: nat, cap: int, count: nat, process: seq<Entry>, delay: seq<Entry>)
    requires DistinctKeys(h) && k < |h| && Upto(h, k, cap, count, process, delay)
    ensures count == |Flat(h[..k])| && SplitAt(Flat(h[..k]), cap, process, delay)
    ensures h[k].mailbox !in Keys(process) && h[k].mailbox !in Keys(delay)
  {
    hide Keys; hide SplitAt; hide DistinctKeys; hide Flat;
    NextKey(h, k);
  }

  lemma EntryPlaced(h: seq<Entry>, k: nat, cap: int, count: nat, process: seq<Entry>, delay: seq<Entry>,
                    p: seq<Entry>, d: seq<Entry>)
    requires DistinctKeys(h) && k < |h| && Upto(h, k, cap, count, process, delay)
    requires SplitAt(Flat(h[..k]) + Pairs(h[k].mailbox, h[k].uids), cap, p, d)
    requires Keys(p) <= Keys(process) + {h[k].mailbox} && Keys(d) <= Keys(delay) + {h[k].mailbox}
    ensures Upto(h, k + 1, cap, count + |h[k].uids|, p, d)
  {
    hide Keys; hide SplitAt; hide DistinctKeys; hide Flat;
    NextKey(h, k);
    NextFlat(h, k);
  }

  lemma AllSeen(h: seq<Entry>, cap: int, count: nat, process: seq<Entry>, delay: seq<Entry>)
    requires Upto(h, |h|, cap, count, process, delay)
    ensures Scheduled(h, cap, process, delay)
  {
    hide Flat; hide DistinctKeys; hide NoEmptyEntry; hide Share; hide Keys;
    assert h[..|h|] == h;
  }

  method ScheduleMailUids(mailUids: seq<Entry>, cap: int) returns (process: seq<Entry>, delay: seq<Entry>)
    requires DistinctKeys(mailUids)
    ensures Scheduled(mailUids, cap, process, delay)
  {
    hide *;
    NothingSeen(mailUids, cap);
    process, delay := [], [];
    var count := 0;
    for k := 0 to |mailUids|
      invariant Upto(mailUids, k, cap, count, process, delay)
    {
      hide *;
      ghost var n, p, d := count, process, delay;
      KeyIsNew(mailUids, k, cap, n, p, d);
      count, process, delay := PlaceAll(mailUids[k].mailbox, mailUids[k].uids, cap, count, process, delay,
        Flat(mailUids[..k]));
      EntryPlaced(mailUids, k, cap, n, p, d, process, delay);
    }
    AllSeen(mailUids, cap, count, process, delay);
  }

  lemma NextFlat(h: seq<Entry>, k: nat)
    requires k < |h|
    ensures Flat(h[..k + 1]) == Flat(h[..k]) + Pairs(h[k].mailbox, h[k].uids)
  {
    assert h[..k + 1][..k] == h[..k];
  }

  lemma NoPairs(mailbox: string, uids: seq<nat>)
    ensures Pairs(mailbox, uids[..0]) == []
  {
  }

  lemma NextPair(mailbox: string, uids: seq<nat>, n: nat)
    requires n < |uids|
    ensures Pairs(mailbox, uids[..n + 1]) == Pairs(mailbox, uids[..n]) + [(mailbox, uids[n])]
  {
    assert uids[..n + 1][..n] == uids[..n];
  }

  lemma NextKey(h: seq<Entry>, k: nat)
    requires DistinctKeys(h) && k < |h|
    ensures h[k].mailbox !in Keys(h[..k]) && Keys(h[..k + 1]) == Keys(h[..k]) + {h[k].mailbox}
  {
    assert h[..k + 1][k] == h[k];
    assert forall i :: 0 <= i < k ==> h[..k][i] == h[..k + 1][i];
  }

  lemma OneMore(seen: seq<(string, nat)>, x: (string, nat), cap: int)
    ensures var all := seen + [x];
      && all[..Share(cap, |all|)] == seen[..Share(cap, |seen|)] + (if |seen| >= cap then [] else [x])
      && all[Share(cap, |all|)..] == seen[Share(cap, |seen|)..] + (if |seen| >= cap then [x] else [])
  {
  }

  // ----- What a schedule means per mailbox -----

  /** The UIDs of one mailbox in a flat list. */
  function Of(flat: seq<(string, nat)>, mailbox: string): seq<nat> {
    if flat == [] then []
    else Of(flat[..|flat| - 1], mailbox) + if flat[|flat| - 1].0 == mailbox then [flat[|flat| - 1].1] else []
  }

  lemma {:induction false} OfAppend(a: seq<(string, nat)>, b: seq<(string, nat)>, mailbox: string)
    ensures Of(a + b, mailbox) == Of(a, mailbox) + Of(b, mailbox)
  {
    if b == [] {
      assert a + b == a;
    } else {
      assert (a + b)[..|a + b| - 1] == a + b[..|b| - 1];
      OfAppend(a, b[..|b| - 1], mailbox);
    }
  }

  lemma {:induction false} OfPairs(key: string, uids: seq<nat>, mailbox: string)
    ensures Of(Pairs(key, uids), mailbox) == if key == mailbox then uids else []
  {
    if uids != [] {
      var init := uids[..|uids| - 1];
      OfPairs(key, init, mailbox);
      assert Pairs(key, uids)[..|uids| - 1] == Pairs(key, init);
      assert uids == init + [uids[|uids| - 1]];
    }
  }

  lemma {:induction false} NotOf(h: seq<Entry>, mailbox: string)
    requires forall i :: 0 <= i < |h| ==> h[i].mailbox != mailbox
    ensures Of(Flat(h), mailbox) == [] && Lookup(h, mailbox) == []
  {
    if h != [] {
      var init, last := h[..|h| - 1], h[|h| - 1];
      NotOf(init, mailbox);
      OfAppend(Flat(init), Pairs(last.mailbox, last.uids), mailbox);
      OfPairs(last.mailbox, last.uids, mailbox);
    }
  }

  lemma {:induction false} LookupIsOf(h: seq<Entry>, mailbox: string)
    requires DistinctKeys(h)
    ensures Lookup(h, mailbox) == Of(Flat(h), mailbox)
  {
    if h != [] {
      var init, last := h[..|h| - 1], h[|h| - 1];
      OfAppend(Flat(init), Pairs(last.mailbox, last.uids), mailbox);
      OfPairs(last.mailbox, last.uids, mailbox);
      if last.mailbox == mailbox { NotOf(init, mailbox); } else { LookupIsOf(init, mailbox); }
    }
  }

  /** For every mailbox the processed and the delayed UIDs together are the given ones, in order. */
  lemma PerMailbox(mailUids: seq<Entry>, cap: int, process: seq<Entry>, delay: seq<Entry>, mailbox: string)
    requires DistinctKeys(mailUids) && Scheduled(mailUids, cap, process, delay)
    ensures Lookup(process, mailbox) + Lookup(delay, mailbox) == Lookup(mailUids, mailbox)
  {
    hide Lookup; hide Of; hide Flat; hide DistinctKeys; hide NoEmptyEntry;
    LookupIsOf(mailUids, mailbox);
    LookupIsOf(process, mailbox);
    LookupIsOf(delay, mailbox);
    assert Flat(process) + Flat(delay) == Flat(mailUids);
    OfAppend(Flat(process), Flat(delay), mailbox);
  }

  function Size(h: seq<Entry>): nat {
    if h == [] then 0 else Size(h[..|h| - 1]) + |h[|h| - 1].uids|
  }

  lemma {:induction false} SizeIsFlat(h: seq<Entry>)
    ensures Size(h) == |Flat(h)|
  {
    if h != [] { SizeIsFlat(h[..|h| - 1]); }
  }

  /** Exactly min(cap, total) are processed and the rest delayed. */
  lemma CountsAddUp(mailUids: seq<Entry>, cap: int, process: seq<Entry>, delay: seq<Entry>)
    requires Scheduled(mailUids, cap, process, delay)
    ensures Size(process) == Share(cap, Size(mailUids)) && Size(process) + Size(delay) == Size(mailUids)
  {
    SizeIsFlat(mailUids);
    SizeIsFlat(process);
    SizeIsFlat(delay);
  }
}
