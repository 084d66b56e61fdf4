/** Filtering of new mail with its stored UID watermark. */
module FilterRecents {
  import opened Collections
  import opened FilterApply
  import opened FilterEngine
  import opened FilterOutcome
  import opened FilterResults
  import opened FilterSchedule
  import opened HeaderCache
  import opened MailMoves
  import opened MailServer
  import opened MailStore
  import opened Wrappers

  /** UNSEEN messages with UIDs lo..hi, highest first. */
  function UnseenIn(b: Box, lo: nat, hi: nat): seq<nat> {
    if hi < lo then []
    else
      var top := if hi in b.msgs && Seen !in b.msgs[hi].flags then [hi] else [];
      if hi == 0 then top else top + UnseenIn(b, lo, hi - 1)
  }

  lemma {:induction false} UnseenIs(b: Box, lo: nat, hi: nat)
    ensures forall u :: u in UnseenIn(b, lo, hi) <==> lo <= u <= hi && u in b.msgs && Seen !in b.msgs[u].flags
    ensures forall i, j :: 0 <= i < j < |UnseenIn(b, lo, hi)| ==> UnseenIn(b, lo, hi)[i] > UnseenIn(b, lo, hi)[j]
  {
    if hi >= lo && hi > 0 {
      UnseenIs(b, lo, hi - 1);
      var rest := UnseenIn(b, lo, hi - 1);
      forall i | 0 <= i < |rest| ensures rest[i] < hi { assert rest[i] in rest; }
    }
  }

  /** One check for new mail: the range looked at, INBOX at that moment, and what became of the UIDs found. */
  datatype Check = Check(lo: nat, hi: nat, filtered: bool, box: Box, offered: seq<nat>, processed: seq<nat>,
    delayed: seq<nat>)

  datatype Sys = Sys(st: State, lastUid: nat, jobs: seq<Entry>, log: seq<Check>)

  function EmptyLists(n: nat): (r: seq<seq<nat>>)
    ensures |r| == n && forall i :: 0 <= i < n ==> r[i] == []
  {
    if n == 0 then [] else EmptyLists(n - 1) + [[]]
  }

  function NonEmpty(mailbox: string, uids: seq<nat>): seq<Entry> {
    if uids == [] then [] else [Entry(mailbox, uids)]
  }

  /** The store after the scheduled part of the UIDs was handled by fresh filters. */
  function Handled(st: State, t: Target, specs: seq<Spec>, cap: int, hasMove: bool, low: char -> char,
                   uids: seq<nat>): (r: State)
    requires Reachable(st.server, specs, t)
    ensures r.server.Keys == st.server.Keys
  {
    var now := Share(cap, |uids|);
    if now == 0 then st
    else ApplySpec(st, specs, EmptyLists(|specs|), t, hasMove, low, uids[..now], NUMBER_OF_SLICE_UIDS).st
  }

  /** The check a call records. */
  function CheckOf(lastUid: nat, b: Box, filtered: bool, cap: int): Check
    requires b.uidNext >= 1
  {
    var uids := if filtered then UnseenIn(b, lastUid + 1, b.uidNext - 1) else [];
    Check(lastUid + 1, b.uidNext - 1, filtered, b, uids, uids[..Share(cap, |uids|)], uids[Share(cap, |uids|)..])
  }

  /** What one call does, t being INBOX and specs the enabled filters in order. */
  function Recents(sys: Sys, t: Target, specs: seq<Spec>, cap: int, hasMove: bool, low: char -> char): (r: Sys)
    requires Reachable(sys.st.server, specs, t) && sys.st.server[t.name].uidNext >= 1
    ensures r.st.server.Keys == sys.st.server.Keys
  {
    var b := sys.st.server[t.name];
    var last := b.uidNext - 1;
    if last == 0 || last == sys.lastUid then sys
    else
      var check := CheckOf(sys.lastUid, b, specs != [], cap);
      Sys(Handled(sys.st, t, specs, cap, hasMove, low, check.offered), last,
        sys.jobs + NonEmpty(t.name, check.delayed), sys.log + [check])
  }

  lemma CheckOffers(lastUid: nat, b: Box, filtered: bool, cap: int)
    requires b.uidNext >= 1
    ensures var c := CheckOf(lastUid, b, filtered, cap);
      && c.offered == (if filtered then UnseenIn(b, lastUid + 1, b.uidNext - 1) else [])
      && c.delayed == c.offered[Share(cap, |c.offered|)..] && c.offered == c.processed + c.delayed
      && c.lo == lastUid + 1 && c.hi == b.uidNext - 1 && c.box == b && c.filtered == filtered
      && (c.offered == [] ==> c.delayed == [])
  {
    hide UnseenIn;
  }

  /** The UIDs that wait for a job. */
  function Waiting(cap: int, uids: seq<nat>): seq<nat> {
    uids[Share(cap, |uids|)..]
  }

  lemma CheckParts(lastUid: nat, b: Box, filtered: bool, cap: int)
    requires b.uidNext >= 1
    ensures var c := CheckOf(lastUid, b, filtered, cap);
      c.offered == (if filtered then UnseenIn(b, lastUid + 1, b.uidNext - 1) else [])
        && c.delayed == Waiting(cap, c.offered)
  {
    hide UnseenIn;
  }

  /** No UIDs, nothing to do and nothing to queue. */
  lemma NothingHandled(st: State, t: Target, specs: seq<Spec>, cap: int, hasMove: bool, low: char -> char,
                       jobs: seq<Entry>)
    requires Reachable(st.server, specs, t)
    ensures Handled(st, t, specs, cap, hasMove, low, []) == st
    ensures jobs + NonEmpty(t.name, Waiting(cap, [])) == jobs && |Waiting(cap, [])| == 0
  {
    hide ApplySpec;
  }

  // ----- The method -----

  /** The bound the INBOX index uses after a call. */
  function Shown(b: Box): nat
    requires b.uidNext >= 1
  {
    if b.uidNext == 1 then 1 else b.uidNext - 1
  }

  class Account {
    const session: Session
    var lastUid: nat
    var jobs: seq<Entry>
    ghost var log: seq<Check>

    constructor (session: Session)
      ensures this.session == session && lastUid == 0 && jobs == [] && log == []
    {
      this.session, lastUid, jobs, log := session, 0, [], [];
    }

    ghost function Now(): Sys
      reads this, session
    {
      Sys(State(session.server, session.nodes), lastUid, jobs, log)
    }

    method LoadFilters(specs: seq<Spec>) returns (filters: seq<Filter>)
      ensures Specs(filters) == specs && Matched(filters) == EmptyLists(|specs|) && NoRepeats(filters) && fresh(filters)
    {
      filters := [];
      for k := 0 to |specs|
        invariant |filters| == k && NoRepeats(filters) && fresh(filters)
        invariant forall i :: 0 <= i < k ==> filters[i].spec == specs[i] && filters[i].matchedUids == []
      {
        var f := new Filter(specs[k]);
        filters := filters + [f];
      }
    }

    /** apply_uids with filters just loaded. */
    method ApplyFresh(t: Target, specs: seq<Spec>, low: char -> char, uids: seq<nat>)
      requires Reachable(session.server, specs, t)
      modifies session
      ensures State(session.server, session.nodes) ==
        ApplySpec(old(State(session.server, session.nodes)), specs, EmptyLists(|specs|), t, session.hasMove, low, uids,
          NUMBER_OF_SLICE_UIDS).st
    {
      hide ApplySpec; hide Matched; hide Specs; hide NoRepeats; hide Reachable; hide EmptyLists;
      var filters := LoadFilters(specs);
      var done := ApplyUids(filters, session, t, low, uids);
    }

    /** Runs the scheduled part at once and enqueues the rest. */
    method Handle(t: Target, specs: seq<Spec>, cap: int, low: char -> char, uids: seq<nat>) returns (delayed: nat)
      requires Reachable(session.server, specs, t) && uids != []
      modifies this`jobs, session
      ensures delayed == |Waiting(cap, uids)| && jobs == old(jobs) + NonEmpty(t.name, Waiting(cap, uids))
      ensures State(session.server, session.nodes) ==
        Handled(old(State(session.server, session.nodes)), t, specs, cap, session.hasMove, low, uids)
    {
      hide *;
      ghost var st := State(session.server, session.nodes);
      OneMailbox(t.name, uids, cap);
      var process, delay := ScheduleMailUids([Entry(t.name, uids)], cap);
      ScheduleOne(t.name, uids, cap, process, delay);
      NowAndLater(st, t, specs, cap, session.hasMove, low, uids, process, delay);
      delayed := 0;
      if |process| > 0 {
        ApplyFresh(t, specs, low, process[0].uids);
      }
      if |delay| > 0 {
        jobs := jobs + [delay[0]];
        delayed := |delay[0].uids|;
      }
    }

    method HandleSome(t: Target, specs: seq<Spec>, cap: int, low: char -> char, uids: seq<nat>) returns (delayed: nat)
      requires Reachable(session.server, specs, t)
      modifies this`jobs, session
      ensures delayed == |Waiting(cap, uids)| && jobs == old(jobs) + NonEmpty(t.name, Waiting(cap, uids))
      ensures State(session.server, session.nodes) ==
        Handled(old(State(session.server, session.nodes)), t, specs, cap, session.hasMove, low, uids)
    {
      hide *;
      if |uids| > 0 {
        delayed := Handle(t, specs, cap, low, uids);
      } else {
        NothingHandled(State(session.server, session.nodes), t, specs, cap, session.hasMove, low, jobs);
        delayed := 0;
      }
    }

    /** The filters, if there are any, on the unseen messages above the watermark. */
    method FilterNew(t: Target, specs: seq<Spec>, cap: int, low: char -> char, last: nat, ghost st: State,
                     ghost c: Check) returns (delayed: nat)
      requires st == State(session.server, session.nodes) && Reachable(st.server, specs, t)
      requires st.server[t.name].uidNext == last + 1
      requires c == CheckOf(lastUid, st.server[t.name], specs != [], cap)
      modifies this`jobs, session
      ensures State(session.server, session.nodes) == Handled(st, t, specs, cap, session.hasMove, low, c.offered)
      ensures jobs == old(jobs) + NonEmpty(t.name, c.delayed) && delayed == |c.delayed|
    {
      assert t.name in session.server;
      hide *;
      CheckParts(lastUid, session.server[t.name], specs != [], cap);
      var uids := [];
      if |specs| > 0 { uids := UnseenIn(session.server[t.name], lastUid + 1, last); }
      assert uids == c.offered;
      delayed := HandleSome(t, specs, cap, low, uids);
    }

    /** apply_recents: the UID the INBOX index shows up to, whether mail arrived, how many UIDs wait. */
    method ApplyRecents(t: Target, specs: seq<Spec>, cap: int, low: char -> char)
      returns (shown: nat, recent: bool, delayed: nat)
      requires Reachable(session.server, specs, t) && session.server[t.name].uidNext >= 1
      modifies this, session
      ensures Now() == Recents(old(Now()), t, specs, cap, session.hasMove, low)
      ensures shown == Shown(old(session.server)[t.name])
      ensures recent <==> lastUid != old(lastUid)
      ensures delayed == if recent then |CheckOf(old(lastUid), old(session.server)[t.name], specs != [], cap).delayed|
        else 0
    {
      assert t.name in session.server;
      hide UnseenIn; hide EmptyLists; hide Reachable; hide Handled; hide CheckOf; hide NonEmpty;
      var last := session.server[t.name].uidNext - 1;
      delayed, recent := 0, false;
      if last > 0 && last != lastUid {
        ghost var check := CheckOf(lastUid, session.server[t.name], specs != [], cap);
        delayed := FilterNew(t, specs, cap, low, last, State(session.server, session.nodes), check);
        lastUid := last;
        log := log + [check];
        recent := true;
      }
      shown := if last == 0 then 1 else last;
    }
  }

  lemma OneMailbox(mailbox: string, uids: seq<nat>, cap: int)
    ensures DistinctKeys([Entry(mailbox, uids)]) && Share(cap, |uids|) <= |uids|
  {
  }

  /** The two parts of the schedule of one mailbox. */
  lemma NowAndLater(st: State, t: Target, specs: seq<Spec>, cap: int, hasMove: bool, low: char -> char, uids: seq<nat>,
                    process: seq<Entry>, delay: seq<Entry>)
    requires Reachable(st.server, specs, t) && Share(cap, |uids|) <= |uids|
    requires process == NonEmpty(t.name, uids[..Share(cap, |uids|)])
    requires delay == NonEmpty(t.name, uids[Share(cap, |uids|)..])
    ensures Handled(st, t, specs, cap, hasMove, low, uids) ==
      if |process| > 0
        then ApplySpec(st, specs, EmptyLists(|specs|), t, hasMove, low, process[0].uids, NUMBER_OF_SLICE_UIDS).st
      else st
    ensures NonEmpty(t.name, Waiting(cap, uids)) == (if |delay| > 0 then [delay[0]] else [])
    ensures |Waiting(cap, uids)| == if |delay| > 0 then |delay[0].uids| else 0
    ensures |process| > 0 ==> process[0].uids == uids[..Share(cap, |uids|)]
  {
    hide ApplySpec; hide EmptyLists; hide Reachable;
  }

  lemma PairsSplit(mailbox: string, uids: seq<nat>, n: nat)
    requires n <= |uids|
    ensures Pairs(mailbox, uids)[..n] == Pairs(mailbox, uids[..n])
    ensures Pairs(mailbox, uids)[n..] == Pairs(mailbox, uids[n..])
    ensures Flat([Entry(mailbox, uids)]) == Pairs(mailbox, uids)
  {
    var all := [Entry(mailbox, uids)];
    assert all[..0] == [];
    assert Flat(all) == [] + Pairs(mailbox, uids);
  }

  /** Scheduling a single mailbox splits its list. */
  lemma ScheduleOne(mailbox: string, uids: seq<nat>, cap: int, process: seq<Entry>, delay: seq<Entry>)
    requires Scheduled([Entry(mailbox, uids)], cap, process, delay)
    ensures process == NonEmpty(mailbox, uids[..Share(cap, |uids|)])
    ensures delay == NonEmpty(mailbox, uids[Share(cap, |uids|)..])
  {
    hide Flat; hide NonEmpty; hide DistinctKeys; hide NoEmptyEntry;
    var n := Share(cap, |uids|);
    PairsSplit(mailbox, uids, n);
    hide Share;
    OneEntry(mailbox, uids[..n], process);
    OneEntry(mailbox, uids[n..], delay);
  }

  lemma OneEntry(mailbox: string, uids: seq<nat>, h: seq<Entry>)
    requires DistinctKeys(h) && NoEmptyEntry(h) && Flat(h) == Pairs(mailbox, uids)
    ensures h == NonEmpty(mailbox, uids)
  {
    if h == [] {
      assert |Pairs(mailbox, uids)| == 0;
    } else {
      forall i | 0 <= i < |h| ensures h[i].mailbox == mailbox {
        FlatMailbox(h, i);
        var p :| p in Flat(h) && p.0 == h[i].mailbox;
        assert p in Pairs(mailbox, uids);
      }
      assert h[0].mailbox == h[|h| - 1].mailbox;
      assert h[..0] == [];
      assert Flat(h) == [] + Pairs(mailbox, h[0].uids);
      assert |uids| == |h[0].uids|;
      forall i | 0 <= i < |uids| ensures uids[i] == h[0].uids[i] {
        assert Pairs(mailbox, uids)[i] == Pairs(mailbox, h[0].uids)[i];
      }
      assert uids == h[0].uids;
    }
  }

  // ----- What one call does to the store -----

  lemma HandledOutcome(st: State, t: Target, specs: seq<Spec>, cap: int, hasMove: bool, low: char -> char,
                       uids: seq<nat>)
    requires Reachable(st.server, specs, t) && ServerOk(st.server)
    requires DeletedUids(st.server[t.name]) == {} && SoundTarget(t)
    ensures var done, b := uids[..Share(cap, |uids|)], st.server[t.name];
      && Outcome(st.server, Handled(st, t, specs, cap, hasMove, low, uids).server, t.name,
           MatchingSet(b, specs, low, done), FirstFate(b, specs, t, low))
      && forall x :: x in Handled(st, t, specs, cap, hasMove, low, uids).nodes <==>
        x in st.nodes && !(x.mailbox == t.name && FirstDrops(b, specs, t, low, done, x.uid))
  {
    var done, b := uids[..Share(cap, |uids|)], st.server[t.name];
    hide Share; hide ApplySpec; hide Outcome; hide FirstFate; hide Reachable; hide ServerOk; hide DeletedUids;
    hide SoundTarget;
    if |done| == 0 {
      NothingActed(st.server, t.name, FirstFate(b, specs, t, low));
      assert MatchingSet(b, specs, low, done) == {};
    } else {
      ApplyOutcome(st, specs, EmptyLists(|specs|), t, hasMove, low, done, NUMBER_OF_SLICE_UIDS);
      HeadersDropped(st, specs, EmptyLists(|specs|), t, hasMove, low, done, NUMBER_OF_SLICE_UIDS);
    }
  }

  /** Whether a call finds a UIDNEXT it has not seen. */
  predicate Checks(a: Sys, t: Target)
    requires t.name in a.st.server
  {
    a.st.server[t.name].uidNext != 1 && a.st.server[t.name].uidNext - 1 != a.lastUid
  }

  lemma CheckShares(lastUid: nat, b: Box, filtered: bool, cap: int)
    requires b.uidNext >= 1
    ensures var c := CheckOf(lastUid, b, filtered, cap);
      && c.processed == c.offered[..Share(cap, |c.offered|)]
      && |c.processed| == if cap <= 0 then 0 else if cap < |c.offered| then cap else |c.offered|
  {
    hide UnseenIn;
  }

  lemma QueuedIs(mailbox: string, uids: seq<nat>)
    ensures NonEmpty(mailbox, uids) == if uids == [] then [] else [Entry(mailbox, uids)]
  {
  }

  lemma ChecksIs(a: Sys, t: Target)
    requires t.name in a.st.server
    ensures Checks(a, t) <==> a.st.server[t.name].uidNext != 1 && a.st.server[t.name].uidNext - 1 != a.lastUid
  {
  }

  /** A call that finds a new UIDNEXT records one check, from the watermark to UIDNEXT - 1 on the mailbox as it is,
      processes the first min(cap, total) UIDs offered and queues exactly the rest; any other call changes nothing. */
  lemma CallRecords(a: Sys, t: Target, specs: seq<Spec>, cap: int, hasMove: bool, low: char -> char)
    requires Inv(a, t) && Reachable(a.st.server, specs, t)
    ensures !Checks(a, t) ==> Recents(a, t, specs, cap, hasMove, low) == a
    ensures Checks(a, t) ==>
      var r, b := Recents(a, t, specs, cap, hasMove, low), a.st.server[t.name];
      && |r.log| == |a.log| + 1 && r.log[..|a.log|] == a.log
      && var c := r.log[|a.log|];
      && c.lo == a.lastUid + 1 && c.hi == r.lastUid == b.uidNext - 1 && c.box == b && (c.filtered <==> specs != [])
      && |c.processed| == (if cap <= 0 then 0 else if cap < |c.offered| then cap else |c.offered|)
      && c.offered == c.processed + c.delayed
      && r.jobs == a.jobs + if c.delayed == [] then [] else [Entry(t.name, c.delayed)]
  {
    var b := a.st.server[t.name];
    assert BoxOk(b) && a.lastUid < b.uidNext;
    hide *;
    var c := CheckOf(a.lastUid, b, specs != [], cap);
    CheckOffers(a.lastUid, b, specs != [], cap);
    CheckShares(a.lastUid, b, specs != [], cap);
    Advance(a, t, specs, cap, hasMove, low, c);
    ChecksIs(a, t);
    QueuedIs(t.name, c.delayed);
  }

  /** Such a call leaves the messages of c.processed that some filter matches to the fates of their first matches,
      changes no other message, and drops the cached headers of those taken away, and no other. */
  lemma CallOutcome(a: Sys, t: Target, specs: seq<Spec>, cap: int, hasMove: bool, low: char -> char)
    requires Inv(a, t) && Reachable(a.st.server, specs, t) && ServerOk(a.st.server) && Checks(a, t)
    requires DeletedUids(a.st.server[t.name]) == {} && SoundTarget(t)
    ensures var r, b := Recents(a, t, specs, cap, hasMove, low), a.st.server[t.name];
      && |r.log| == |a.log| + 1
      && var c := r.log[|a.log|];
      && Outcome(a.st.server, r.st.server, t.name, MatchingSet(b, specs, low, c.processed), FirstFate(b, specs, t, low))
      && forall x :: x in r.st.nodes <==>
        x in a.st.nodes && !(x.mailbox == t.name && FirstDrops(b, specs, t, low, c.processed, x.uid))
  {
    var b := a.st.server[t.name];
    assert BoxOk(b) && a.lastUid < b.uidNext;
    hide *;
    var c := CheckOf(a.lastUid, b, specs != [], cap);
    CheckOffers(a.lastUid, b, specs != [], cap);
    CheckShares(a.lastUid, b, specs != [], cap);
    Advance(a, t, specs, cap, hasMove, low, c);
    ChecksIs(a, t);
    HandledOutcome(a.st, t, specs, cap, hasMove, low, c.offered);
  }

  lemma HandledIs(st: State, t: Target, specs: seq<Spec>, cap: int, hasMove: bool, low: char -> char, uids: seq<nat>)
    requires Reachable(st.server, specs, t)
    ensures Handled(st, t, specs, cap, hasMove, low, uids) ==
      ApplySpec(st, specs, EmptyLists(|specs|), t, hasMove, low, uids[..Share(cap, |uids|)], NUMBER_OF_SLICE_UIDS).st
  {
    hide Share; hide SliceSpec;
  }

  lemma HandledThenJob(st: State, t: Target, specs: seq<Spec>, cap: int, hasMove: bool, low: char -> char,
                       done: seq<nat>, rest: seq<nat>)
    requires Reachable(st.server, specs, t) && ServerOk(st.server) && done == (done + rest)[..Share(cap, |done + rest|)]
    requires DeletedUids(st.server[t.name]) == {} && SoundTarget(t)
    ensures var mid, b := Handled(st, t, specs, cap, hasMove, low, done + rest), st.server[t.name];
      && Reachable(mid.server, specs, t)
      && Outcome(st.server,
           ApplySpec(mid, specs, EmptyLists(|specs|), t, hasMove, low, rest, NUMBER_OF_SLICE_UIDS).st.server, t.name,
           MatchingSet(b, specs, low, done + rest), FirstFate(b, specs, t, low))
  {
    hide Share; hide ApplySpec; hide Outcome; hide FirstFate; hide Reachable; hide ServerOk; hide DeletedUids;
    hide SoundTarget; hide MatchingSet; hide Handled;
    HandledIs(st, t, specs, cap, hasMove, low, done + rest);
    JobFinishes(st, specs, EmptyLists(|specs|), t, hasMove, low, done, rest, NUMBER_OF_SLICE_UIDS);
  }

  /** Once the job for c.delayed has run with the same filters, all that was offered has met the fates of the first
      matches, and nothing else has changed: the cap does not change the result. */
  lemma CallAndJob(a: Sys, t: Target, specs: seq<Spec>, cap: int, hasMove: bool, low: char -> char)
    requires Inv(a, t) && Reachable(a.st.server, specs, t) && ServerOk(a.st.server)
    requires DeletedUids(a.st.server[t.name]) == {} && SoundTarget(t) && Checks(a, t)
    ensures var r, b := Recents(a, t, specs, cap, hasMove, low), a.st.server[t.name];
      && Reachable(r.st.server, specs, t) && |r.log| == |a.log| + 1
      && var c := r.log[|a.log|];
      && Outcome(a.st.server,
           ApplySpec(r.st, specs, EmptyLists(|specs|), t, hasMove, low, c.delayed, NUMBER_OF_SLICE_UIDS).st.server,
           t.name, MatchingSet(b, specs, low, c.offered), FirstFate(b, specs, t, low))
  {
    var b := a.st.server[t.name];
    assert BoxOk(b) && a.lastUid < b.uidNext;
    hide *;
    var c := CheckOf(a.lastUid, b, specs != [], cap);
    CheckOffers(a.lastUid, b, specs != [], cap);
    CheckShares(a.lastUid, b, specs != [], cap);
    Advance(a, t, specs, cap, hasMove, low, c);
    ChecksIs(a, t);
    HandledThenJob(a.st, t, specs, cap, hasMove, low, c.processed, c.delayed);
  }

  // ----- Every run -----

  /** What others do to INBOX between calls: deliver, expunge and flag, never reusing a UID. */
  ghost predicate Grows(a: Box, b: Box) {
    BoxOk(b) && a.uidNext <= b.uidNext && forall u :: u in b.msgs ==> u in a.msgs || u >= a.uidNext
  }

  /** One step of the account: a call of apply_recents, or something else that changes the store. */
  ghost predicate Next(a: Sys, b: Sys, t: Target) {
    && t.name in a.st.server && t.name in b.st.server
    && ((exists specs, cap, hasMove, low :: Called(a, b, t, specs, cap, hasMove, low))
        || (b == a.(st := b.st, jobs := b.jobs) && Grows(a.st.server[t.name], b.st.server[t.name])))
  }

  ghost predicate Called(a: Sys, b: Sys, t: Target, specs: seq<Spec>, cap: int, hasMove: bool, low: char -> char) {
    && Reachable(a.st.server, specs, t) && a.st.server[t.name].uidNext >= 1
    && b == Recents(a, t, specs, cap, hasMove, low)
  }

  /** What is true of one check. */
  ghost predicate CheckOk(c: Check) {
    && BoxOk(c.box) && 1 <= c.lo <= c.hi && c.hi == c.box.uidNext - 1
    && c.offered == (if c.filtered then UnseenIn(c.box, c.lo, c.hi) else []) && c.offered == c.processed + c.delayed
  }

  /** The ranges checked are consecutive, start at 1 and end at the watermark. */
  ghost predicate Chained(log: seq<Check>, lastUid: nat) {
    && (forall k :: 0 <= k < |log| ==> CheckOk(log[k]))
    && (forall k :: 0 < k < |log| ==> log[k].lo == log[k - 1].hi + 1)
    && (if log == [] then lastUid == 0 else log[0].lo == 1 && log[|log| - 1].hi == lastUid)
  }

  ghost predicate Inv(sys: Sys, t: Target) {
    t.name in sys.st.server && BoxOk(sys.st.server[t.name]) && sys.lastUid < sys.st.server[t.name].uidNext
      && Chained(sys.log, sys.lastUid)
  }

  ghost predicate Shrinks(a: Box, b: Box) {
    b.uidNext == a.uidNext && b.msgs.Keys <= a.msgs.Keys
  }

  /** Whatever is flagged, an action never adds to the mailbox it is applied to. */
  lemma PerformShrinks(st: State, a: Action, t: Target, hasMove: bool, uids: seq<nat>)
    requires ReachableOne(st.server, a, t)
    ensures Shrinks(st.server[t.name], Perform(st, a, t, hasMove, uids).0.server[t.name])
  {
    StoreExpungeIs(st.server, t.name, AsSet(uids));
    if a.MoveTo? && a.mailbox != t.name {
      StoreExpungeIs(UidCopy(st.server, t.name, a.mailbox, AsSet(uids)), t.name, AsSet(uids));
    }
    if t.trash.Some? && t.trash.value != t.name {
      StoreExpungeIs(UidCopy(st.server, t.name, t.trash.value, AsSet(uids)), t.name, AsSet(uids));
    }
  }

  lemma {:induction false} RoundShrinks(st: State, specs: seq<Spec>, matched: seq<seq<nat>>, t: Target, hasMove: bool,
                                        n: nat)
    requires n <= |specs| == |matched| && Reachable(st.server, specs, t)
    ensures Shrinks(st.server[t.name], PerformUpTo(st, specs, matched, t, hasMove, n).0.server[t.name])
  {
    if n > 0 {
      RoundShrinks(st, specs, matched, t, hasMove, n - 1);
      var before := PerformUpTo(st, specs, matched, t, hasMove, n - 1).0;
      hide Perform;
      if matched[n - 1] != [] {
        PerformShrinks(before, specs[n - 1].action, t, hasMove, matched[n - 1]);
        PerformKeys(before, specs[n - 1].action, t, hasMove, matched[n - 1]);
      }
    }
  }

  lemma SliceShrinks(st: State, specs: seq<Spec>, matched: seq<seq<nat>>, t: Target, hasMove: bool, low: char -> char,
                     uids: seq<nat>)
    requires |matched| == |specs| && Reachable(st.server, specs, t)
    ensures Shrinks(st.server[t.name], SliceSpec(st, specs, matched, t, hasMove, low, uids).st.server[t.name])
  {
    var items := FromServer(st.server[t.name], uids, st.server[t.name].uidNext);
    hide PerformUpTo; hide Record; hide FromServer; hide Shrinks;
    RoundShrinks(st, specs, Record(matched, Rules(specs), items, low), t, hasMove, |specs|);
  }

  lemma {:induction false} SlicesShrink(st: State, specs: seq<Spec>, m0: seq<seq<nat>>, t: Target, hasMove: bool,
                                        low: char -> char,
                                        uids: seq<nat>, size: nat, k: nat)
    requires |m0| == |specs| && Reachable(st.server, specs, t) && size > 0
    ensures Shrinks(st.server[t.name], SlicesSpec(st, specs, m0, t, hasMove, low, uids, size, k).st.server[t.name])
  {
    hide SliceSpec; hide SliceOf;
    if k > 0 {
      SlicesShrink(st, specs, m0, t, hasMove, low, uids, size, k - 1);
      var r := SlicesSpec(st, specs, m0, t, hasMove, low, uids, size, k - 1);
      SliceShrinks(r.st, specs, r.matched, t, hasMove, low, SliceOf(uids, size, k - 1));
    }
  }

  lemma ApplyShrinks(st: State, specs: seq<Spec>, m0: seq<seq<nat>>, t: Target, hasMove: bool, low: char -> char,
                     uids: seq<nat>)
    requires |m0| == |specs| && Reachable(st.server, specs, t)
    ensures Shrinks(st.server[t.name],
      ApplySpec(st, specs, m0, t, hasMove, low, uids, NUMBER_OF_SLICE_UIDS).st.server[t.name])
  {
    hide SlicesSpec; hide Shrinks;
    SlicesShrink(st, specs, m0, t, hasMove, low, uids, NUMBER_OF_SLICE_UIDS, SliceCount(uids, NUMBER_OF_SLICE_UIDS));
  }

  lemma HandledShrinks(st: State, t: Target, specs: seq<Spec>, cap: int, hasMove: bool, low: char -> char,
                       uids: seq<nat>)
    requires Reachable(st.server, specs, t)
    ensures Shrinks(st.server[t.name], Handled(st, t, specs, cap, hasMove, low, uids).server[t.name])
  {
    hide ApplySpec;
    ApplyShrinks(st, specs, EmptyLists(|specs|), t, hasMove, low, uids[..Share(cap, |uids|)]);
  }

  lemma ChainExtends(log: seq<Check>, lastUid: nat, c: Check)
    requires Chained(log, lastUid) && CheckOk(c) && c.lo == lastUid + 1
    ensures Chained(log + [c], c.hi)
  {
    hide CheckOk;
  }

  lemma CheckIsOk(lastUid: nat, b: Box, filtered: bool, cap: int)
    requires BoxOk(b) && lastUid + 1 < b.uidNext
    ensures CheckOk(CheckOf(lastUid, b, filtered, cap))
  {
    CheckOffers(lastUid, b, filtered, cap);
    hide UnseenIn; hide CheckOf; hide Share;
  }

  lemma InvFrom(sys: Sys, t: Target, before: Box)
    requires t.name in sys.st.server && BoxOk(before) && Shrinks(before, sys.st.server[t.name])
    requires sys.lastUid < before.uidNext
    requires Chained(sys.log, sys.lastUid)
    ensures Inv(sys, t)
  {
    hide Chained;
  }

  lemma Advance(a: Sys, t: Target, specs: seq<Spec>, cap: int, hasMove: bool, low: char -> char, check: Check)
    requires Reachable(a.st.server, specs, t) && a.st.server[t.name].uidNext >= 1
    requires check == CheckOf(a.lastUid, a.st.server[t.name], specs != [], cap)
    ensures var r, b := Recents(a, t, specs, cap, hasMove, low), a.st.server[t.name];
      if b.uidNext == 1 || b.uidNext - 1 == a.lastUid then r == a
      else
        && r.st == Handled(a.st, t, specs, cap, hasMove, low, check.offered)
        && r.lastUid == b.uidNext - 1 && r.log == a.log + [check] && r.jobs == a.jobs + NonEmpty(t.name, check.delayed)
  {
    hide UnseenIn; hide Handled; hide CheckOf; hide Reachable; hide NonEmpty;
  }

  /** A call keeps the invariant: it checks exactly the UIDs between the watermark and UIDNEXT. */
  lemma CallKeeps(a: Sys, t: Target, specs: seq<Spec>, cap: int, hasMove: bool, low: char -> char)
    requires Inv(a, t) && Reachable(a.st.server, specs, t)
    ensures Inv(Recents(a, t, specs, cap, hasMove, low), t)
  {
    var b := a.st.server[t.name];
    assert BoxOk(b) && Chained(a.log, a.lastUid) && a.lastUid < b.uidNext;
    hide *;
    var check := CheckOf(a.lastUid, b, specs != [], cap);
    Advance(a, t, specs, cap, hasMove, low, check);
    if b.uidNext != 1 && b.uidNext - 1 != a.lastUid {
      CheckOffers(a.lastUid, b, specs != [], cap);
      CheckIsOk(a.lastUid, b, specs != [], cap);
      HandledShrinks(a.st, t, specs, cap, hasMove, low, check.offered);
      ChainExtends(a.log, a.lastUid, check);
      InvFrom(Recents(a, t, specs, cap, hasMove, low), t, b);
    }
  }

  ghost predicate Ran(run: seq<Sys>, t: Target) {
    && |run| > 0 && run[0].lastUid == 0 && run[0].log == [] && t.name in run[0].st.server
       && BoxOk(run[0].st.server[t.name])
    && forall i :: 0 < i < |run| ==> Next(run[i - 1], run[i], t)
  }

  lemma StepKeeps(a: Sys, b: Sys, t: Target)
    requires Inv(a, t) && Next(a, b, t)
    ensures Inv(b, t)
  {
    if specs, cap, hasMove, low :| Called(a, b, t, specs, cap, hasMove, low) {
      hide Inv; hide Recents; hide Next;
      CallKeeps(a, t, specs, cap, hasMove, low);
    } else {
      hide Chained;
    }
  }

  /** Every state of every run: the ranges checked so far are consecutive and end at the watermark. */
  lemma {:induction false} RunKeepsInv(run: seq<Sys>, t: Target, i: nat)
    requires Ran(run, t) && i < |run|
    ensures Inv(run[i], t)
  {
    if i > 0 {
      RunKeepsInv(run, t, i - 1);
      hide Next; hide Inv;
      StepKeeps(run[i - 1], run[i], t);
    }
  }

  // ----- What the invariant says -----

  lemma {:induction false} RangesAscend(log: seq<Check>, lastUid: nat, i: nat, j: nat)
    requires Chained(log, lastUid) && i < j < |log|
    ensures log[i].hi < log[j].lo
  {
    assert CheckOk(log[j - 1]);
    if i < j - 1 { RangesAscend(log, lastUid, i, j - 1); }
  }

  lemma {:induction false} RangeUpTo(log: seq<Check>, lastUid: nat, n: nat, u: nat)
    requires Chained(log, lastUid) && 0 < n <= |log| && 1 <= u <= log[n - 1].hi
    ensures exists k :: 0 <= k < n && log[k].lo <= u <= log[k].hi
  {
    if u < log[n - 1].lo { RangeUpTo(log, lastUid, n - 1, u); }
  }

  /** Every UID up to the watermark lies in exactly one range checked, and no other UID in any. */
  lemma CoveredOnce(log: seq<Check>, lastUid: nat, u: nat)
    requires Chained(log, lastUid)
    ensures 1 <= u <= lastUid <==> exists k :: 0 <= k < |log| && log[k].lo <= u <= log[k].hi
    ensures forall i, j ::
              0 <= i < |log| && 0 <= j < |log| && log[i].lo <= u <= log[i].hi && log[j].lo <= u <= log[j].hi ==> i == j
  {
    if 1 <= u <= lastUid { RangeUpTo(log, lastUid, |log|, u); }
    forall i: nat, j: nat | i < j < |log| ensures log[i].hi < log[j].lo { RangesAscend(log, lastUid, i, j); }
    forall k | 0 <= k < |log| ensures 1 <= log[k].lo && log[k].hi <= lastUid { assert CheckOk(log[k]); }
  }

  /** No message is offered to the filters twice. */
  lemma OfferedOnce(log: seq<Check>, lastUid: nat, i: nat, j: nat, p: nat, q: nat)
    requires Chained(log, lastUid) && i < |log| && j < |log| && p < |log[i].offered| && q < |log[j].offered|
    requires log[i].offered[p] == log[j].offered[q]
    ensures i == j && p == q
  {
    var u := log[i].offered[p];
    assert CheckOk(log[i]) && CheckOk(log[j]);
    assert u in log[i].offered && u in log[j].offered;
    UnseenIs(log[i].box, log[i].lo, log[i].hi);
    UnseenIs(log[j].box, log[j].lo, log[j].hi);
    hide UnseenIn; hide Chained; hide CheckOk;
    CoveredOnce(log, lastUid, u);
  }

  /** A check with an enabled filter processes or delays each unseen message of its range, and no other. */
  lemma NothingMissed(log: seq<Check>, lastUid: nat, k: nat, u: nat)
    requires Chained(log, lastUid) && k < |log| && log[k].filtered
    ensures u in log[k].processed || u in log[k].delayed <==>
      log[k].lo <= u <= log[k].hi && u in log[k].box.msgs && Seen !in log[k].box.msgs[u].flags
    ensures !(u in log[k].processed && u in log[k].delayed)
  {
    var c := log[k];
    assert CheckOk(c);
    UnseenIs(c.box, c.lo, c.hi);
    hide UnseenIn;
    assert u in c.offered <==> u in c.processed || u in c.delayed;
    forall i, j | 0 <= i < |c.processed| && 0 <= j < |c.delayed| ensures c.processed[i] > c.delayed[j] {
      assert c.offered[i] == c.processed[i] && c.offered[|c.processed| + j] == c.delayed[j];
    }
  }

  /** After a call the index shows, also of any later mailbox, only UIDs some check has covered; the one
      exception is the first message of a mailbox that was empty when the call was made. */
  lemma IndexShowsChecked(a: Sys, t: Target, specs: seq<Spec>, cap: int, hasMove: bool, low: char -> char, later: Box)
    requires Inv(a, t) && Reachable(a.st.server, specs, t)
    requires Grows(Recents(a, t, specs, cap, hasMove, low).st.server[t.name], later)
    ensures var r, shown := Recents(a, t, specs, cap, hasMove, low), Shown(a.st.server[t.name]);
      (forall u :: u in later.msgs && u <= shown ==> u <= r.lastUid) <==>
        !(a.st.server[t.name].uidNext == 1 && 1 in later.msgs)
    ensures var r := Recents(a, t, specs, cap, hasMove, low);
      forall u :: u in a.st.server[t.name].msgs ==> u <= Shown(a.st.server[t.name]) && u <= r.lastUid
  {
    hide ApplySpec; hide UnseenIn; hide Chained; hide Reachable; hide EmptyLists;
  }

  /** An empty INBOX: the index is bounded by UID 1, and message 1, arriving after the call, is shown unchecked. */
  lemma FirstMailShownUnchecked(m: Message, specs: seq<Spec>, cap: int, hasMove: bool, low: char -> char)
    requires Reachable(map["INBOX" := Box(1, map[])], specs, Target("INBOX", false, None))
    ensures var a, t := Sys(State(map["INBOX" := Box(1, map[])], []), 0, [], []), Target("INBOX", false, None);
      var later := Box(2, map[1 := m]);
      && Inv(a, t) && Grows(Recents(a, t, specs, cap, hasMove, low).st.server[t.name], later)
      && 1 in later.msgs && 1 <= Shown(a.st.server[t.name]) && Recents(a, t, specs, cap, hasMove, low).lastUid == 0
  {
  }
}
