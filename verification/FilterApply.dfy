/** One filter applied to several mailboxes. Its match list is never cleared, so UIDs matched in one mailbox are
    acted on again in every later one. */
module FilterApply {
  import opened Collections
  import opened FilterEngine
  import opened FilterSchedule
  import opened MailServer
  import opened MailStore
  import opened Wrappers

  /** The user's trash and the mailboxes inside it. */
  datatype Trash = Trash(boxes: set<string>, main: Option<string>)

  function TargetFor(name: string, trash: Trash): Target {
    Target(name, name in trash.boxes, trash.main)
  }

  /** The commands the filter issues do not fail. */
  predicate AllReachable(s: Server, spec: Spec, sched: seq<Entry>, trash: Trash) {
    && (forall i :: 0 <= i < |sched| ==> sched[i].mailbox in s)
    && (trash.main.Some? ==> trash.main.value in s) && (spec.action.MoveTo? ==> spec.action.mailbox in s)
  }

  datatype Run = Run(st: State, matched: seq<nat>, applied: nat, processed: nat)

  predicate ReachableFor(s: Server, spec: Spec, mailbox: string, trash: Trash) {
    Reachable(s, [spec], TargetFor(mailbox, trash))
  }

  lemma OneReachable(s: Server, spec: Spec, sched: seq<Entry>, trash: Trash, i: nat)
    requires AllReachable(s, spec, sched, trash) && i < |sched|
    ensures ReachableFor(s, spec, sched[i].mailbox, trash)
  {
  }

  /** The filter applied to one more mailbox. */
  function NextRun(run: Run, spec: Spec, e: Entry, trash: Trash, hasMove: bool, low: char -> char): (r: Run)
    requires ReachableFor(run.st.server, spec, e.mailbox, trash)
    ensures r.st.server.Keys == run.st.server.Keys
  {
    var r := ApplySpec(run.st, [spec], [run.matched], TargetFor(e.mailbox, trash), hasMove, low, e.uids,
      NUMBER_OF_SLICE_UIDS);
    Run(r.st, r.matched[0], run.applied + |r.applied|, run.processed + |e.uids|)
  }

  /** The loop of apply over the first n scheduled mailboxes. */
  function ApplySched(st: State, spec: Spec, matched: seq<nat>, sched: seq<Entry>, trash: Trash, hasMove: bool,
                      low: char -> char, n: nat): (r: Run)
    requires n <= |sched| && AllReachable(st.server, spec, sched, trash)
    ensures r.st.server.Keys == st.server.Keys
  {
    if n == 0 then Run(st, matched, 0, 0)
    else
      var before := ApplySched(st, spec, matched, sched, trash, hasMove, low, n - 1);
      OneReachable(before.st.server, spec, sched, trash, n - 1);
      NextRun(before, spec, sched[n - 1], trash, hasMove, low)
  }

  /** Undeleted UIDs below n, highest first. */
  function Undeleted(b: Box, n: nat): seq<nat> {
    if n == 0 then []
    else (if n - 1 in b.msgs && Deleted !in b.msgs[n - 1].flags then [n - 1] else []) + Undeleted(b, n - 1)
  }

  /** They are exactly the UIDs not flagged deleted, each once and highest first. */
  lemma {:induction false} UndeletedIs(b: Box, n: nat)
    ensures forall u :: u in Undeleted(b, n) <==> u < n && u in b.msgs && Deleted !in b.msgs[u].flags
    ensures forall i, j :: 0 <= i < j < |Undeleted(b, n)| ==> Undeleted(b, n)[i] > Undeleted(b, n)[j]
  {
    if n > 0 {
      UndeletedIs(b, n - 1);
      var rest := Undeleted(b, n - 1);
      forall i | 0 <= i < |rest| ensures rest[i] < n - 1 { assert rest[i] in rest; }
    }
  }

  /** What Filter#schedule_mail_uids collects: the undeleted UIDs of each mailbox. */
  function Collected(s: Server, mailboxes: seq<string>): (r: seq<Entry>)
    requires forall i :: 0 <= i < |mailboxes| ==> mailboxes[i] in s
    ensures |r| == |mailboxes|
    ensures forall i :: 0 <= i < |r| ==>
      r[i] == Entry(mailboxes[i], Undeleted(s[mailboxes[i]], s[mailboxes[i]].uidNext))
  {
    if mailboxes == [] then []
    else
      var name := mailboxes[|mailboxes| - 1];
      Collected(s, mailboxes[..|mailboxes| - 1]) + [Entry(name, Undeleted(s[name], s[name].uidNext))]
  }

  ghost predicate DistinctNames(mailboxes: seq<string>) {
    forall i, j :: 0 <= i < j < |mailboxes| ==> mailboxes[i] != mailboxes[j]
  }

  lemma Single(filter: Filter)
    ensures Specs([filter]) == [filter.spec] && Matched([filter]) == [filter.matchedUids] && NoRepeats([filter])
  {
  }

  /** apply_uids with a single filter, and the counters. */
  method ApplyOne(filter: Filter, session: Session, e: Entry, trash: Trash, low: char -> char, applied: nat,
                  processed: nat) returns (a: nat, p: nat)
    requires ReachableFor(session.server, filter.spec, e.mailbox, trash)
    modifies filter, session
    ensures Run(State(session.server, session.nodes), filter.matchedUids, a, p) ==
      NextRun(Run(State(old(session.server), old(session.nodes)), old(filter.matchedUids), applied, processed),
              filter.spec, e, trash, session.hasMove, low)
  {
    hide ApplySpec; hide Reachable; hide Matched; hide Specs; hide NoRepeats;
    Single(filter);
    var done := ApplyUids([filter], session, TargetFor(e.mailbox, trash), low, e.uids);
    Single(filter);
    a, p := applied + |done|, processed + |e.uids|;
  }

  /** The loop of apply over the mailboxes to process. */
  method ApplyEach(filter: Filter, session: Session, sched: seq<Entry>, trash: Trash, low: char -> char)
    returns (applied: nat, processed: nat)
    requires AllReachable(session.server, filter.spec, sched, trash)
    modifies filter, session
    ensures Run(State(session.server, session.nodes), filter.matchedUids, applied, processed) ==
      ApplySched(State(old(session.server), old(session.nodes)), filter.spec, old(filter.matchedUids), sched, trash,
        session.hasMove, low, |sched|)
  {
    ghost var st, m0 := State(session.server, session.nodes), filter.matchedUids;
    applied, processed := 0, 0;
    for k := 0 to |sched|
      invariant Run(State(session.server, session.nodes), filter.matchedUids, applied, processed) ==
        ApplySched(st, filter.spec, m0, sched, trash, session.hasMove, low, k)
    {
      hide ReachableFor; hide NextRun;
      OneReachable(session.server, filter.spec, sched, trash, k);
      applied, processed := ApplyOne(filter, session, sched[k], trash, low, applied, processed);
    }
  }

  method CountDelayed(delay: seq<Entry>) returns (delayed: nat)
    ensures delayed == Size(delay)
  {
    delayed := 0;
    for k := 0 to |delay|
      invariant delayed == Size(delay[..k])
    {
      assert delay[..k + 1][..k] == delay[..k];
      delayed := delayed + |delay[k].uids|;
    }
    assert delay[..|delay|] == delay;
  }

  /** Filter#apply: `sched` is what is handled now, `jobs` are the jobs enqueued for the rest. */
  method Apply(filter: Filter, session: Session, mailboxes: seq<string>, trash: Trash, cap: int, low: char -> char)
    returns (applied: nat, processed: nat, delayed: nat, sched: seq<Entry>, jobs: seq<Entry>)
    requires forall i :: 0 <= i < |mailboxes| ==> mailboxes[i] in session.server
    requires DistinctNames(mailboxes) && AllReachable(session.server, filter.spec, [], trash)
    modifies filter, session
    ensures Scheduled(Collected(old(session.server), mailboxes), cap, sched, jobs)
    ensures AllReachable(old(session.server), filter.spec, sched, trash)
    ensures Run(State(session.server, session.nodes), filter.matchedUids, applied, processed) ==
      ApplySched(State(old(session.server), old(session.nodes)), filter.spec, old(filter.matchedUids), sched, trash,
        session.hasMove, low, |sched|)
    ensures processed + delayed == Size(Collected(old(session.server), mailboxes))
  {
    ghost var st, m0 := State(session.server, session.nodes), filter.matchedUids;
    hide ApplySched; hide Size; hide Scheduled; hide Collected;
    var all := Collected(session.server, mailboxes);
    sched, jobs := ScheduleMailUids(all, cap);
    ScheduledMailboxes(all, cap, sched, jobs);
    applied, processed := ApplyEach(filter, session, sched, trash, low);
    delayed := CountDelayed(jobs);
    ProcessedIsSize(st, filter.spec, m0, sched, trash, session.hasMove, low, |sched|);
    assert sched[..|sched|] == sched;
    CountsAddUp(all, cap, sched, jobs);
  }

  lemma {:induction false} ProcessedIsSize(st: State, spec: Spec, matched: seq<nat>, sched: seq<Entry>, trash: Trash,
                                           hasMove: bool, low: char -> char, n: nat)
    requires n <= |sched| && AllReachable(st.server, spec, sched, trash)
    ensures ApplySched(st, spec, matched, sched, trash, hasMove, low, n).processed == Size(sched[..n])
  {
    if n > 0 {
      hide ApplySpec; hide ReachableFor;
      ProcessedIsSize(st, spec, matched, sched, trash, hasMove, low, n - 1);
      assert sched[..n][..n - 1] == sched[..n - 1];
    }
  }

  lemma {:induction false} FlatMailbox(h: seq<Entry>, i: nat)
    requires i < |h| && h[i].uids != []
    ensures exists p :: p in Flat(h) && p.0 == h[i].mailbox && p.1 == h[i].uids[0]
  {
    var last := h[|h| - 1];
    if i == |h| - 1 {
      assert Pairs(last.mailbox, last.uids)[0] in Flat(h);
    } else {
      FlatMailbox(h[..|h| - 1], i);
    }
  }

  lemma {:induction false} FlatFrom(h: seq<Entry>, p: (string, nat))
    requires p in Flat(h)
    ensures exists i :: 0 <= i < |h| && h[i].mailbox == p.0 && p.1 in h[i].uids
  {
    var init, last := h[..|h| - 1], h[|h| - 1];
    if p in Flat(init) {
      FlatFrom(init, p);
      var i :| 0 <= i < |init| && init[i].mailbox == p.0 && p.1 in init[i].uids;
      assert h[i] == init[i];
    }
  }

  lemma ScheduledMailboxes(all: seq<Entry>, cap: int, process: seq<Entry>, delay: seq<Entry>)
    requires Scheduled(all, cap, process, delay)
    ensures forall i :: 0 <= i < |process| ==> exists j :: 0 <= j < |all| && all[j].mailbox == process[i].mailbox
  {
    forall i | 0 <= i < |process| ensures exists j :: 0 <= j < |all| && all[j].mailbox == process[i].mailbox {
      FlatMailbox(process, i);
      var p :| p in Flat(process) && p.0 == process[i].mailbox && p.1 == process[i].uids[0];
      hide Flat;
      FlatFrom(all, p);
    }
  }
}
