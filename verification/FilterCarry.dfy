/** One filter on several mailboxes with the match list it carries. */
module FilterCarry {
  import opened FilterApply
  import opened FilterEngine
  import opened FilterOutcome
  import opened FilterResults
  import opened FilterRules
  import opened FilterSchedule
  import opened HeaderCache
  import opened MailServer
  import opened Wrappers

  // ----- One mailbox, one filter, a list brought along -----

  lemma SliceOutside(s0: Server, r: Result, t: Target, specs: seq<Spec>, low: char -> char, fate: nat -> Fate,
                     m0: seq<seq<nat>>,
                     seen: seq<nat>, acted: set<nat>, hasMove: bool, uids: seq<nat>, f: nat, u: nat)
    requires Progress(s0, r.st.server, r.matched, t, specs, low, fate, m0, seen, acted) && u !in s0[t.name].msgs
    requires f < |specs|
    ensures u in SliceSpec(r.st, specs, r.matched, t, hasMove, low, uids).matched[f] <==> u in r.matched[f]
  {
    hide Outcome; hide Agrees; hide Record; hide FirstOf; hide PerformUpTo; hide FromServer; hide Listed;
    hide MatchingSet;
    SliceRecords(s0, r.st.server, t.name, acted, fate, specs, r.matched, low, uids, f, u);
  }

  lemma OutsideStep(st: State, specs: seq<Spec>, m0: seq<seq<nat>>, t: Target, hasMove: bool, low: char -> char,
                    fate: nat -> Fate, uids: seq<nat>, size: nat, k: nat, f: nat, u: nat)
    requires |m0| == |specs| && Reachable(st.server, specs, t) && size > 0 && f < |specs|
    requires Sound(st.server, specs, m0, t, low, fate, u)
    ensures u in SlicesSpec(st, specs, m0, t, hasMove, low, uids, size, k + 1).matched[f] <==>
      u in SlicesSpec(st, specs, m0, t, hasMove, low, uids, size, k).matched[f]
  {
    NextLists(st, specs, m0, t, hasMove, low, uids, size, k + 1);
    assert t.name in st.server;
    hide *;
    SlicesOutcome(st, specs, m0, t, hasMove, low, fate, uids, size, k);
    var r := SlicesSpec(st, specs, m0, t, hasMove, low, uids, size, k);
    SliceOutside(st.server, r, t, specs, low, fate, m0, UpToSlice(uids, size, k),
      ActedOn(r.matched, |specs|, st.server[t.name], k),
                 hasMove, SliceOf(uids, size, k), f, u);
  }

  ghost predicate Sound(s: Server, specs: seq<Spec>, m0: seq<seq<nat>>, t: Target, low: char -> char, fate: nat -> Fate,
                        u: nat) {
    && |m0| == |specs| && Reachable(s, specs, t) && ServerOk(s) && DeletedUids(s[t.name]) == {} && SoundTarget(t)
    && Agrees(s[t.name], specs, m0, t, low, fate) && u !in s[t.name].msgs
  }

  lemma {:induction false} OutsideLists(st: State, specs: seq<Spec>, m0: seq<seq<nat>>, t: Target, hasMove: bool,
                                        low: char -> char,
                                        fate: nat -> Fate, uids: seq<nat>, size: nat, k: nat, f: nat, u: nat)
    requires |m0| == |specs| && Reachable(st.server, specs, t) && size > 0 && f < |specs|
    requires Sound(st.server, specs, m0, t, low, fate, u)
    ensures u in SlicesSpec(st, specs, m0, t, hasMove, low, uids, size, k).matched[f] <==> u in m0[f]
  {
    hide *;
    SlicesBase(st, specs, m0, t, hasMove, low, uids, size);
    if k > 0 {
      OutsideLists(st, specs, m0, t, hasMove, low, fate, uids, size, k - 1, f, u);
      OutsideStep(st, specs, m0, t, hasMove, low, fate, uids, size, k - 1, f, u);
    }
  }

  function Always(f: Fate): nat -> Fate {
    (u: nat) => f
  }

  lemma AlwaysAgrees(b: Box, spec: Spec, m0: seq<nat>, t: Target, low: char -> char)
    ensures Agrees(b, [spec], [m0], t, low, Always(FateOf(spec.action, t)))
    ensures Listed([m0], 1, b) == Existing(b, m0)
  {
    hide First;
    forall u ensures InSome([m0], 1, u) <==> u in m0 { assert [m0][0] == m0; }
  }

  lemma ListedOne(matched: seq<nat>, b: Box, u: nat)
    requires u in b.msgs
    ensures u in Listed([matched], 1, b) <==> u in matched
  {
    assert [matched][0] == matched;
  }

  /** A filter that arrives with the list m0 acts on what exists of it besides its own matches, and
      leaves with both. */
  lemma OneApply(st: State, spec: Spec, m0: seq<nat>, t: Target, hasMove: bool, low: char -> char, uids: seq<nat>,
                 size: nat)
    requires Reachable(st.server, [spec], t) && size > 0 && ServerOk(st.server) && uids != []
    requires DeletedUids(st.server[t.name]) == {} && SoundTarget(t)
    ensures var r := ApplySpec(st, [spec], [m0], t, hasMove, low, uids, size);
      && Outcome(st.server, r.st.server, t.name, Existing(st.server[t.name], m0)
         + MatchingSet(st.server[t.name], [spec], low, uids),
                 Always(FateOf(spec.action, t)))
      && forall u :: u in r.matched[0] <==> u in m0 || u in MatchingSet(st.server[t.name], [spec], low, uids)
  {
    var b, fate, k := st.server[t.name], Always(FateOf(spec.action, t)), SliceCount(uids, size);
    AlwaysAgrees(b, spec, m0, t, low);
    AllSlices(uids, size);
    hide Outcome; hide Agrees; hide Always; hide FateOf; hide SliceCount; hide UpToSlice; hide DeletedUids;
    hide SoundTarget; hide ServerOk;
    SlicesOutcome(st, [spec], [m0], t, hasMove, low, fate, uids, size, k);
    var r := SlicesSpec(st, [spec], [m0], t, hasMove, low, uids, size, k);
    assert r.matched == [r.matched[0]];
    hide SlicesSpec; hide MatchingSet; hide Existing; hide Listed;
    assert Listed(r.matched, 1, b) == Existing(b, m0) + MatchingSet(b, [spec], low, uids);
    forall u ensures u in r.matched[0] <==> u in m0 || u in MatchingSet(b, [spec], low, uids) {
      if u in b.msgs {
        ListedOne(r.matched[0], b, u);
        ListedOne(m0, b, u);
      } else {
        OutsideLists(st, [spec], [m0], t, hasMove, low, fate, uids, size, k, 0, u);
        NotMatching(b, [spec], low, uids, u);
      }
    }
  }

  lemma NotMatching(b: Box, specs: seq<Spec>, low: char -> char, uids: seq<nat>, u: nat)
    requires u !in b.msgs
    ensures u !in MatchingSet(b, specs, low, uids)
  {
  }

  // ----- Across mailboxes -----

  /** The mailbox the filter sends messages to. */
  function Dest(spec: Spec, trash: Trash): Option<string> {
    match spec.action
    case MoveTo(m) => Some(m)
    case Delete => trash.main
    case OtherAction => None
  }

  function FateIn(spec: Spec, mailbox: string, trash: Trash): Fate {
    FateOf(spec.action, TargetFor(mailbox, trash))
  }

  /** The UIDs come from the mailboxes, and only mailboxes with UIDs are scheduled. */
  ghost predicate Known(s0: Server, sched: seq<Entry>) {
    && DistinctKeys(sched) && NoEmptyEntry(sched)
    && forall i :: 0 <= i < |sched| ==> sched[i].mailbox in s0 && forall u :: u in sched[i].uids ==>
       u < s0[sched[i].mailbox].uidNext
  }

  ghost function OwnMatches(s0: Server, sched: seq<Entry>, spec: Spec, low: char -> char, j: nat): set<nat>
    requires j < |sched| && sched[j].mailbox in s0
  {
    MatchingSet(s0[sched[j].mailbox], [spec], low, sched[j].uids)
  }

  /** u matched in one of the first n mailboxes. */
  ghost predicate CarriedUid(s0: Server, sched: seq<Entry>, spec: Spec, low: char -> char, n: nat, u: nat)
    requires n <= |sched| && Known(s0, sched)
  {
    exists j :: 0 <= j < n && u in OwnMatches(s0, sched, spec, low, j)
  }

  /** What mailbox i loses. */
  ghost function Lost(s0: Server, sched: seq<Entry>, spec: Spec, trash: Trash, low: char -> char, i: nat): set<nat>
    requires i < |sched| && Known(s0, sched)
  {
    if FateIn(spec, sched[i].mailbox, trash) == Stay then {}
    else set u | u in s0[sched[i].mailbox].msgs && CarriedUid(s0, sched, spec, low, i + 1, u)
  }

  /** b is a plus arrivals. */
  ghost predicate KeptBelow(a: Box, b: Box) {
    a.uidNext <= b.uidNext &&
         forall u :: u < a.uidNext ==> (u in b.msgs <==> u in a.msgs) && (u in a.msgs ==> b.msgs[u] == a.msgs[u])
  }

  ghost function NowOf(s0: Server, sched: seq<Entry>, spec: Spec, trash: Trash, low: char -> char, i: nat, n: nat): Box
    requires i < |sched| && Known(s0, sched)
  {
    if i < n then Without(s0[sched[i].mailbox], Lost(s0, sched, spec, trash, low, i)) else s0[sched[i].mailbox]
  }

  /** Mailbox i after n mailboxes were handled; the destination may also have received messages. */
  ghost predicate EntryInv(s0: Server, s: Server, sched: seq<Entry>, spec: Spec, trash: Trash, low: char -> char,
                           i: nat, n: nat)
    requires i < |sched| && Known(s0, sched)
  {
    && sched[i].mailbox in s && DeletedUids(s[sched[i].mailbox]) == {}
    && if Dest(spec, trash) == Some(sched[i].mailbox)
       then KeptBelow(NowOf(s0, sched, spec, trash, low, i, n), s[sched[i].mailbox])
       else s[sched[i].mailbox] == NowOf(s0, sched, spec, trash, low, i, n)
  }

  ghost predicate RunInv(s0: Server, run: Run, sched: seq<Entry>, spec: Spec, trash: Trash, low: char -> char, n: nat)
    requires n <= |sched| && Known(s0, sched)
  {
    && run.st.server.Keys == s0.Keys && ServerOk(run.st.server) && ServerOk(s0)
    && (forall u :: u in run.matched <==> CarriedUid(s0, sched, spec, low, n, u))
    && forall i :: 0 <= i < |sched| ==> EntryInv(s0, run.st.server, sched, spec, trash, low, i, n)
  }

  predicate SoundTrash(trash: Trash) {
    trash.main.Some? ==> trash.main.value in trash.boxes
  }

  lemma KeptMatching(a: Box, b: Box, spec: Spec, low: char -> char, uids: seq<nat>)
    requires KeptBelow(a, b) && forall u :: u in uids ==> u < a.uidNext
    ensures MatchingSet(b, [spec], low, uids) == MatchingSet(a, [spec], low, uids)
  {
    hide First;
  }

  lemma CarriedNext(s0: Server, sched: seq<Entry>, spec: Spec, low: char -> char, n: nat, u: nat)
    requires n < |sched| && Known(s0, sched)
    ensures CarriedUid(s0, sched, spec, low, n + 1, u) <==>
           CarriedUid(s0, sched, spec, low, n, u) || u in OwnMatches(s0, sched, spec, low, n)
  {
    hide OwnMatches;
  }

  lemma GainedNothing(s0: Server, s: Server, src: string, acted: set<nat>, fate: nat -> Fate, d: string)
    requires Outcome(s0, s, src, acted, fate) && d in s0 && d != src && BoxOk(s0[d])
    requires forall u :: fate(u) != Goes(d)
    ensures s[d] == s0[d]
  {
    assert Gained(s0, s, src, acted, fate, d);
    assert Going(acted, fate, d) == {};
    NonePicked(s0[src]);
    assert BoxOk(s[d]);
    hide Held; hide CountIn;
    assert s[d].msgs == s0[d].msgs;
  }

  lemma GainedKeeps(s0: Server, s: Server, src: string, acted: set<nat>, fate: nat -> Fate, d: string)
    requires Outcome(s0, s, src, acted, fate) && d in s0 && d != src
    ensures KeptBelow(s0[d], s[d])
  {
    assert Gained(s0, s, src, acted, fate, d);
    hide Held; hide CountIn; hide Picked; hide Going;
  }

  // No message flagged deleted arrives from a mailbox without one.

  lemma {:induction false} OccursWitness(msgs: map<nat, Message>, n: nat, x: Message)
    requires Occurs(msgs, n, x) > 0
    ensures exists u :: u in msgs && msgs[u] == x
  {
    if !(n - 1 in msgs && msgs[n - 1] == x) { OccursWitness(msgs, n - 1, x); }
  }

  lemma {:induction false} OccursHas(msgs: map<nat, Message>, n: nat, u: nat)
    requires u in msgs && u < n
    ensures Occurs(msgs, n, msgs[u]) > 0
  {
    if u < n - 1 { OccursHas(msgs, n - 1, u); }
  }

  lemma NoneDeletedArrives(s0: Server, s: Server, src: string, acted: set<nat>, fate: nat -> Fate, d: string)
    requires Outcome(s0, s, src, acted, fate) && d in s0 && d != src
    requires DeletedUids(s0[src]) == {} && DeletedUids(s0[d]) == {}
    ensures DeletedUids(s[d]) == {}
  {
    forall u | u in s[d].msgs ensures u !in DeletedUids(s[d]) {
      var x := s[d].msgs[u];
      assert Gained(s0, s, src, acted, fate, d) && BoxOk(s[d]);
      OccursHas(s[d].msgs, s[d].uidNext, u);
      NoneDeletedOne(s0[d], s0[src], Going(acted, fate, d), x);
    }
  }

  lemma NoneDeletedOne(a: Box, src: Box, uids: set<nat>, x: Message)
    requires Held(a, x) + CountIn(Picked(src, uids), x) > 0 && DeletedUids(a) == {} && DeletedUids(src) == {}
    ensures Deleted !in x.flags
  {
    if Held(a, x) > 0 {
      OccursWitness(a.msgs, a.uidNext, x);
      var u :| u in a.msgs && a.msgs[u] == x;
      assert u !in DeletedUids(a);
    } else {
      CountInOrder(Selected(src, uids), src.uidNext, x);
      OccursWitness(Selected(src, uids), src.uidNext, x);
      var u :| u in Selected(src, uids) && Selected(src, uids)[u] == x;
      assert u !in DeletedUids(src);
    }
  }

  // ----- The run over all mailboxes -----

  lemma StartInv(st: State, spec: Spec, sched: seq<Entry>, trash: Trash, low: char -> char)
    requires Known(st.server, sched) && ServerOk(st.server)
    requires forall i :: 0 <= i < |sched| ==> DeletedUids(st.server[sched[i].mailbox]) == {}
    ensures RunInv(st.server, Run(st, [], 0, 0), sched, spec, trash, low, 0)
  {
    hide DeletedUids;
  }

  lemma LostIs(s0: Server, sched: seq<Entry>, spec: Spec, trash: Trash, low: char -> char, n: nat, matched: seq<nat>)
    requires n < |sched| && Known(s0, sched) && forall u :: u in matched <==> CarriedUid(s0, sched, spec, low, n, u)
    ensures forall u :: u in s0[sched[n].mailbox].msgs ==>
      (u in Lost(s0, sched, spec, trash, low, n) <==>
       FateIn(spec, sched[n].mailbox, trash) != Stay && (u in matched || u in OwnMatches(s0, sched, spec, low, n)))
  {
    forall u | u in s0[sched[n].mailbox].msgs
      ensures u in Lost(s0, sched, spec, trash, low, n) <==>
        FateIn(spec, sched[n].mailbox, trash) != Stay && (u in matched || u in OwnMatches(s0, sched, spec, low, n))
    {
      CarriedNext(s0, sched, spec, low, n, u);
      hide CarriedUid; hide OwnMatches; hide FateIn;
    }
  }

  /** c is a plus arrivals; taking `acted` out of c takes `lost` out of a. */
  lemma TakenFrom(a: Box, c: Box, matched: seq<nat>, own: set<nat>, lost: set<nat>, f: Fate)
    requires BoxOk(a) && KeptBelow(a, c) && own <= a.msgs.Keys
    requires forall u :: u in a.msgs ==> (u in lost <==> f != Stay && (u in matched || u in own))
    ensures KeptBelow(Without(a, lost), Without(c, Leaving(Existing(c, matched) + own, Always(f))))
    ensures a == c ==> Without(a, lost) == Without(c, Leaving(Existing(c, matched) + own, Always(f)))
  {
    var acted := Existing(c, matched) + own;
    forall u | u in a.msgs ensures u in Leaving(acted, Always(f)) <==> u in lost {
      assert u in c.msgs;
    }
    if a == c {
      assert Without(a, lost).msgs == Without(c, Leaving(acted, Always(f))).msgs;
    }
  }

  lemma StillNoneDeleted(b: Box, uids: set<nat>)
    requires DeletedUids(b) == {}
    ensures DeletedUids(Without(b, uids)) == {}
  {
    assert DeletedUids(Without(b, uids)) <= DeletedUids(b);
  }

  lemma OwnExist(s0: Server, sched: seq<Entry>, spec: Spec, low: char -> char, j: nat)
    requires j < |sched| && sched[j].mailbox in s0
    ensures OwnMatches(s0, sched, spec, low, j) <= s0[sched[j].mailbox].msgs.Keys
  {
  }

  ghost function ActsOn(s: Server, run: Run, e: Entry, spec: Spec, low: char -> char): set<nat>
    requires e.mailbox in s
  {
    Existing(s[e.mailbox], run.matched) + MatchingSet(s[e.mailbox], [spec], low, e.uids)
  }

  lemma KeptIfSame(a: Box)
    ensures KeptBelow(a, a)
  {
  }

  /** Mailbox n loses what it has of its own and the carried matches, if the filter takes them away. */
  lemma ThisMailbox(s0: Server, run: Run, s: Server, sched: seq<Entry>, spec: Spec, trash: Trash, low: char -> char,
                    n: nat)
    requires n < |sched| && Known(s0, sched) && ServerOk(s0) && RunInv(s0, run, sched, spec, trash, low, n)
    requires sched[n].mailbox in run.st.server && sched[n].mailbox in s
    requires s[sched[n].mailbox] == Without(run.st.server[sched[n].mailbox],
                                            Leaving(ActsOn(run.st.server, run, sched[n], spec, low),
                                              Always(FateIn(spec, sched[n].mailbox, trash))))
    ensures EntryInv(s0, s, sched, spec, trash, low, n, n + 1)
    ensures MatchingSet(run.st.server[sched[n].mailbox], [spec], low, sched[n].uids)
      == OwnMatches(s0, sched, spec, low, n)
  {
    var b, f := sched[n].mailbox, FateIn(spec, sched[n].mailbox, trash);
    var c, a := run.st.server[b], s0[b];
    assert EntryInv(s0, run.st.server, sched, spec, trash, low, n, n);
    LostIs(s0, sched, spec, trash, low, n, run.matched);
    hide CarriedUid; hide Lost; hide Leaving; hide Existing; hide MatchingSet; hide KeptBelow; hide Without;
    hide Always; hide FateIn; hide Dest;
    hide DeletedUids; hide RunInv;
    KeptIfSame(a);
    KeptMatching(a, c, spec, low, sched[n].uids);
    var own := OwnMatches(s0, sched, spec, low, n);
    OwnExist(s0, sched, spec, low, n);
    TakenFrom(a, c, run.matched, own, Lost(s0, sched, spec, trash, low, n), f);
    StillNoneDeleted(c, Leaving(ActsOn(run.st.server, run, sched[n], spec, low), Always(f)));
  }

  /** The other mailboxes, the destination apart, are left alone. */
  lemma OtherMailbox(s0: Server, s: Server, r: Server, sched: seq<Entry>, spec: Spec, trash: Trash, low: char -> char,
                     n: nat, acted: set<nat>, i: nat)
    requires n < |sched| && i < |sched| && i != n && Known(s0, sched) && EntryInv(s0, s, sched, spec, trash, low, i, n)
    requires EntryInv(s0, s, sched, spec, trash, low, n, n) && ServerOk(s)
    requires Outcome(s, r, sched[n].mailbox, acted, Always(FateIn(spec, sched[n].mailbox, trash)))
    ensures EntryInv(s0, r, sched, spec, trash, low, i, n + 1)
  {
    var b, x, f := sched[n].mailbox, sched[i].mailbox, FateIn(spec, sched[n].mailbox, trash);
    assert b != x;
    assert r.Keys == s.Keys;
    assert f == Goes(x) ==> Dest(spec, trash) == Some(x);
    assert NowOf(s0, sched, spec, trash, low, i, n) == NowOf(s0, sched, spec, trash, low, i, n + 1);
    hide Outcome; hide NowOf; hide FateIn; hide Dest; hide DeletedUids;
    NoneDeletedArrives(s, r, b, acted, Always(f), x);
    GainedKeeps(s, r, b, acted, Always(f), x);
    if Dest(spec, trash) != Some(x) { GainedNothing(s, r, b, acted, Always(f), x); }
  }

  lemma NextInv(s0: Server, run: Run, r: Run, sched: seq<Entry>, spec: Spec, trash: Trash, low: char -> char, n: nat)
    requires n < |sched| && Known(s0, sched) && ServerOk(s0) && RunInv(s0, run, sched, spec, trash, low, n)
    requires sched[n].mailbox in run.st.server
    requires Outcome(run.st.server, r.st.server, sched[n].mailbox, ActsOn(run.st.server, run, sched[n], spec, low),
                     Always(FateIn(spec, sched[n].mailbox, trash)))
    requires forall u :: u in r.matched <==>
      u in run.matched || u in MatchingSet(run.st.server[sched[n].mailbox], [spec], low, sched[n].uids)
    ensures RunInv(s0, r, sched, spec, trash, low, n + 1)
  {
    ThisMailbox(s0, run, r.st.server, sched, spec, trash, low, n);
    assert EntryInv(s0, run.st.server, sched, spec, trash, low, n, n);
    assert r.st.server.Keys == s0.Keys && ServerOk(r.st.server);
    hide Outcome; hide EntryInv; hide OwnMatches; hide MatchingSet; hide ServerOk; hide ActsOn; hide FateIn;
    hide Always;
    var m := n + 1;
    forall i | 0 <= i < |sched| ensures EntryInv(s0, r.st.server, sched, spec, trash, low, i, m) {
      if i != n {
        OtherMailbox(s0, run.st.server, r.st.server, sched, spec, trash, low, n,
          ActsOn(run.st.server, run, sched[n], spec, low), i);
      }
    }
    forall u ensures u in r.matched <==> CarriedUid(s0, sched, spec, low, n + 1, u) {
      CarriedNext(s0, sched, spec, low, n, u);
      hide CarriedUid;
    }
  }

  lemma OneRun(s0: Server, run: Run, spec: Spec, sched: seq<Entry>, trash: Trash, hasMove: bool, low: char -> char,
               n: nat)
    requires n < |sched| && ReachableFor(run.st.server, spec, sched[n].mailbox, trash) && Known(s0, sched)
    requires ServerOk(s0) && SoundTrash(trash)
    requires RunInv(s0, run, sched, spec, trash, low, n)
    ensures RunInv(s0, NextRun(run, spec, sched[n], trash, hasMove, low), sched, spec, trash, low, n + 1)
  {
    assert EntryInv(s0, run.st.server, sched, spec, trash, low, n, n);
    hide RunInv; hide Outcome; hide ApplySpec; hide EntryInv; hide MatchingSet;
    OneApply(run.st, spec, run.matched, TargetFor(sched[n].mailbox, trash), hasMove, low, sched[n].uids,
      NUMBER_OF_SLICE_UIDS);
    NextInv(s0, run, NextRun(run, spec, sched[n], trash, hasMove, low), sched, spec, trash, low, n);
  }

  /** No message of the mailboxes is flagged deleted, their UIDs are their own, and no command fails. */
  ghost predicate Ready(s: Server, spec: Spec, sched: seq<Entry>, trash: Trash) {
    && AllReachable(s, spec, sched, trash) && Known(s, sched) && ServerOk(s) && SoundTrash(trash)
    && forall i :: 0 <= i < |sched| ==> DeletedUids(s[sched[i].mailbox]) == {}
  }

  lemma {:induction false} InFlat(h: seq<Entry>, i: nat, u: nat)
    requires i < |h| && u in h[i].uids
    ensures (h[i].mailbox, u) in Flat(h)
  {
    var last := h[|h| - 1];
    if i == |h| - 1 {
      var k :| 0 <= k < |last.uids| && last.uids[k] == u;
      assert Pairs(last.mailbox, last.uids)[k] == (last.mailbox, u);
    } else {
      InFlat(h[..|h| - 1], i, u);
    }
  }

  lemma ScheduledUid(s: Server, mailboxes: seq<string>, cap: int, sched: seq<Entry>, jobs: seq<Entry>, i: nat, u: nat)
    requires forall j :: 0 <= j < |mailboxes| ==> mailboxes[j] in s
    requires Scheduled(Collected(s, mailboxes), cap, sched, jobs) && i < |sched| && u in sched[i].uids
    ensures sched[i].mailbox in mailboxes && sched[i].mailbox in s && u < s[sched[i].mailbox].uidNext
  {
    var all, p := Collected(s, mailboxes), (sched[i].mailbox, u);
    InFlat(sched, i, u);
    assert p in Flat(all);
    hide Flat; hide Collected; hide Scheduled;
    FlatFrom(all, p);
    var j :| 0 <= j < |all| && all[j].mailbox == p.0 && p.1 in all[j].uids;
    UndeletedIs(s[mailboxes[j]], s[mailboxes[j]].uidNext);
  }

  /** What Filter#apply schedules is ready for the loop over the mailboxes. */
  lemma ScheduledReady(s: Server, spec: Spec, mailboxes: seq<string>, trash: Trash, cap: int, sched: seq<Entry>,
                       jobs: seq<Entry>)
    requires ServerOk(s) && SoundTrash(trash) && AllReachable(s, spec, sched, trash)
    requires forall j :: 0 <= j < |mailboxes| ==> mailboxes[j] in s && DeletedUids(s[mailboxes[j]]) == {}
    requires Scheduled(Collected(s, mailboxes), cap, sched, jobs)
    ensures Ready(s, spec, sched, trash)
  {
    assert DistinctKeys(sched) && NoEmptyEntry(sched);
    hide Scheduled; hide Collected; hide DeletedUids; hide AllReachable; hide ServerOk; hide SoundTrash;
    hide DistinctKeys;
    forall i | 0 <= i < |sched|
      ensures sched[i].mailbox in mailboxes && sched[i].mailbox in s
      ensures forall u :: u in sched[i].uids ==> u < s[sched[i].mailbox].uidNext
    {
      assert sched[i].uids[0] in sched[i].uids;
      ScheduledUid(s, mailboxes, cap, sched, jobs, i, sched[i].uids[0]);
      forall u | u in sched[i].uids ensures u < s[sched[i].mailbox].uidNext {
        ScheduledUid(s, mailboxes, cap, sched, jobs, i, u);
      }
    }
  }

  lemma StillReachable(s: Server, r: Server, spec: Spec, sched: seq<Entry>, trash: Trash)
    requires AllReachable(s, spec, sched, trash) && r.Keys == s.Keys
    ensures AllReachable(r, spec, sched, trash)
  {
  }

  lemma {:induction false} RunOutcome(st: State, spec: Spec, sched: seq<Entry>, trash: Trash, hasMove: bool,
                                      low: char -> char, n: nat)
    requires n <= |sched| && Ready(st.server, spec, sched, trash)
    ensures RunInv(st.server, ApplySched(st, spec, [], sched, trash, hasMove, low, n), sched, spec, trash, low, n)
  {
    hide AllReachable; hide Known; hide ServerOk; hide SoundTrash; hide DeletedUids; hide RunInv; hide ReachableFor;
    hide NextRun;
    if n == 0 {
      StartInv(st, spec, sched, trash, low);
    } else {
      RunOutcome(st, spec, sched, trash, hasMove, low, n - 1);
      var run := ApplySched(st, spec, [], sched, trash, hasMove, low, n - 1);
      StillReachable(st.server, run.st.server, spec, sched, trash);
      OneReachable(run.st.server, spec, sched, trash, n - 1);
      OneRun(st.server, run, spec, sched, trash, hasMove, low, n - 1);
    }
  }

  /** After apply, every scheduled mailbox other than the destination has lost, if the filter takes
      messages away from it, exactly the UIDs it has that matched there or in an earlier mailbox. */
  lemma ApplyAcross(st: State, spec: Spec, sched: seq<Entry>, trash: Trash, hasMove: bool, low: char -> char, i: nat)
    requires Ready(st.server, spec, sched, trash) && i < |sched| && Dest(spec, trash) != Some(sched[i].mailbox)
    ensures ApplySched(st, spec, [], sched, trash, hasMove, low, |sched|).st.server[sched[i].mailbox] ==
      Without(st.server[sched[i].mailbox], Lost(st.server, sched, spec, trash, low, i))
  {
    RunOutcome(st, spec, sched, trash, hasMove, low, |sched|);
    hide Ready; hide Lost;
    assert EntryInv(st.server, ApplySched(st, spec, [], sched, trash, hasMove, low, |sched|).st.server, sched, spec,
      trash, low, i, |sched|);
  }

  /** What a fresh copy of the filter would leave of mailbox i. */
  lemma FreshBox(st: State, spec: Spec, sched: seq<Entry>, trash: Trash, hasMove: bool, low: char -> char, i: nat)
    requires Ready(st.server, spec, sched, trash) && i < |sched| && FateIn(spec, sched[i].mailbox, trash) != Stay
    requires Reachable(st.server, [spec], TargetFor(sched[i].mailbox, trash))
    ensures ApplySpec(st, [spec], [[]], TargetFor(sched[i].mailbox, trash), hasMove, low, sched[i].uids,
                      NUMBER_OF_SLICE_UIDS).st.server[sched[i].mailbox] ==
      Without(st.server[sched[i].mailbox], OwnMatches(st.server, sched, spec, low, i))
  {
    var t, own := TargetFor(sched[i].mailbox, trash), OwnMatches(st.server, sched, spec, low, i);
    hide ApplySpec; hide Gained; hide MatchingSet;
    OneApply(st, spec, [], t, hasMove, low, sched[i].uids, NUMBER_OF_SLICE_UIDS);
    assert Existing(st.server[t.name], []) == {};
    assert Leaving({} + own, Always(FateIn(spec, sched[i].mailbox, trash))) == own;
  }

  /** The mailbox ends as if the filter had arrived fresh exactly when none of the UIDs matched in earlier
      mailboxes exists here without matching here. */
  lemma CarryHarmless(st: State, spec: Spec, sched: seq<Entry>, trash: Trash, hasMove: bool, low: char -> char, i: nat)
    requires Ready(st.server, spec, sched, trash) && i < |sched| && Dest(spec, trash) != Some(sched[i].mailbox)
    requires FateIn(spec, sched[i].mailbox, trash) != Stay
    requires Reachable(st.server, [spec], TargetFor(sched[i].mailbox, trash))
    ensures
      (ApplySched(st, spec, [], sched, trash, hasMove, low, |sched|).st.server[sched[i].mailbox] ==
       ApplySpec(st, [spec], [[]], TargetFor(sched[i].mailbox, trash), hasMove, low, sched[i].uids,
                 NUMBER_OF_SLICE_UIDS).st.server[sched[i].mailbox]) <==>
      (forall u :: u in st.server[sched[i].mailbox].msgs && CarriedUid(st.server, sched, spec, low, i, u) ==>
         u in OwnMatches(st.server, sched, spec, low, i))
  {
    var b, own, lost := sched[i].mailbox, OwnMatches(st.server, sched, spec, low, i),
      Lost(st.server, sched, spec, trash, low, i);
    ApplyAcross(st, spec, sched, trash, hasMove, low, i);
    FreshBox(st, spec, sched, trash, hasMove, low, i);
    OwnExist(st.server, sched, spec, low, i);
    hide Ready; hide ApplySched; hide ApplySpec; hide OwnMatches; hide CarriedUid; hide Dest;
    forall u | u in st.server[b].msgs ensures u in lost <==> u in own || CarriedUid(st.server, sched, spec, low, i, u) {
      CarriedNext(st.server, sched, spec, low, i, u);
    }
    SameWithout(st.server[b], lost, own);
  }

  lemma SameWithout(b: Box, a: set<nat>, c: set<nat>)
    requires a <= b.msgs.Keys && c <= b.msgs.Keys
    ensures Without(b, a) == Without(b, c) <==> a == c
  {
    if Without(b, a) == Without(b, c) {
      assert forall u :: u in b.msgs ==>
                    (u in a <==> u !in Without(b, a).msgs) && (u in c <==> u !in Without(b, c).msgs);
      assert a == c;
    }
  }

  /** The number apply reports is zero exactly when nothing matched in any mailbox. With every mailbox what it matched
      so far is reported again, once for a mailbox of at most 256 UIDs. */
  lemma {:induction false} AppliedIff(st: State, spec: Spec, sched: seq<Entry>, trash: Trash, hasMove: bool,
                                      low: char -> char, n: nat)
    requires n <= |sched| && AllReachable(st.server, spec, sched, trash) && NoEmptyEntry(sched)
    requires !spec.action.OtherAction?
    ensures var r := ApplySched(st, spec, [], sched, trash, hasMove, low, n);
      && (r.applied == 0 <==> r.matched == [])
      && (n > 0 ==>
        var before := ApplySched(st, spec, [], sched, trash, hasMove, low, n - 1).applied;
        && r.applied >= before + |r.matched| && (|sched[n - 1].uids| <= 256 ==> r.applied == before + |r.matched|))
  {
    hide *;
    SchedNext(st, spec, sched, trash, hasMove, low, n);
    if n > 0 {
      AppliedIff(st, spec, sched, trash, hasMove, low, n - 1);
      var before := ApplySched(st, spec, [], sched, trash, hasMove, low, n - 1);
      NextApplied(before, spec, sched[n - 1], trash, hasMove, low);
    }
  }

  lemma SchedNext(st: State, spec: Spec, sched: seq<Entry>, trash: Trash, hasMove: bool, low: char -> char, n: nat)
    requires n <= |sched| && AllReachable(st.server, spec, sched, trash) && NoEmptyEntry(sched)
    ensures n == 0 ==> ApplySched(st, spec, [], sched, trash, hasMove, low, n) == Run(st, [], 0, 0)
    ensures n > 0 ==>
      var before := ApplySched(st, spec, [], sched, trash, hasMove, low, n - 1);
      && ReachableFor(before.st.server, spec, sched[n - 1].mailbox, trash) && sched[n - 1].uids != []
      && ApplySched(st, spec, [], sched, trash, hasMove, low, n)
        == NextRun(before, spec, sched[n - 1], trash, hasMove, low)
  {
    hide NextRun; hide Reachable;
    if n > 0 {
      OneReachable(ApplySched(st, spec, [], sched, trash, hasMove, low, n - 1).st.server, spec, sched, trash, n - 1);
    }
  }

  lemma NextApplied(run: Run, spec: Spec, e: Entry, trash: Trash, hasMove: bool, low: char -> char)
    requires ReachableFor(run.st.server, spec, e.mailbox, trash) && e.uids != [] && !spec.action.OtherAction?
    requires run.applied == 0 <==> run.matched == []
    ensures var r := NextRun(run, spec, e, trash, hasMove, low);
      && (r.applied == 0 <==> r.matched == []) && r.applied >= run.applied + |r.matched|
      && (|e.uids| <= 256 ==> r.applied == run.applied + |r.matched|)
    ensures NextRun(run, spec, e, trash, hasMove, low).processed == run.processed + |e.uids|
  {
    var t := TargetFor(e.mailbox, trash);
    hide ApplySpec; hide Reachable;
    ReportsIff(run.st, [spec], [run.matched], t, hasMove, low, e.uids, NUMBER_OF_SLICE_UIDS);
    ListKept(run.st, [spec], [run.matched], t, hasMove, low, e.uids, NUMBER_OF_SLICE_UIDS);
  }

  // ----- A message moved although it matches nothing -----

  const AD := Message(Header("", [], [], [], "ad", ""), {})
  const NEWS := Message(Header("", [], [], [], "news", ""), {})

  /** Two mailboxes whose first messages share the UID 1, and the filter's destination. */
  function TwoBoxes(): Server {
    map["a" := Box(2, map[1 := AD]), "b" := Box(2, map[1 := NEWS]), "d" := Box(1, map[])]
  }

  const AD_FILTER := Spec(Rule(Or, [Condition(Subject, Equals, "ad")]), MoveTo("d"))

  const BOTH := [Entry("a", [1]), Entry("b", [1])]
  const NO_TRASH := Trash({}, None)

  lemma BoxesReady()
    ensures Ready(TwoBoxes(), AD_FILTER, BOTH, NO_TRASH)
  {
    var s0 := TwoBoxes();
    assert DeletedUids(s0["a"]) == {} && DeletedUids(s0["b"]) == {};
    assert BOTH[0].mailbox == "a" && BOTH[1].mailbox == "b";
    assert "a"[0] != "b"[0];
  }

  lemma AdIsOwn(low: char -> char)
    requires Known(TwoBoxes(), BOTH)
    ensures 1 in OwnMatches(TwoBoxes(), BOTH, AD_FILTER, low, 0)
  {
    AdMatches(low);
    hide RuleMatches; hide Known;
    assert TwoBoxes()["a"].msgs[1] == AD;
    assert FirstOf(TwoBoxes()["a"], [AD_FILTER], low, 1) == 0;
  }

  lemma NewsIsLost(low: char -> char)
    requires Known(TwoBoxes(), BOTH)
    ensures 1 in Lost(TwoBoxes(), BOTH, AD_FILTER, NO_TRASH, low, 1)
  {
    AdIsOwn(low);
    hide OwnMatches; hide Known;
    assert CarriedUid(TwoBoxes(), BOTH, AD_FILTER, low, 2, 1);
    assert "b"[0] != "d"[0];
  }

  /** A filter on the subject "ad" applied to a and b takes the message "news" out of b. */
  lemma UnmatchedMailMoved(hasMove: bool, low: char -> char)
    ensures AllReachable(TwoBoxes(), AD_FILTER, BOTH, NO_TRASH)
    ensures var s := ApplySched(State(TwoBoxes(), []), AD_FILTER, [], BOTH, NO_TRASH, hasMove, low, 2).st.server;
      "b" in s && 1 !in s["b"].msgs
    ensures TwoBoxes()["b"].msgs[1] == NEWS && !RuleMatches(AD_FILTER.rule, NEWS.header, low)
  {
    BoxesReady();
    AdMatches(low);
    NewsIsLost(low);
    assert "b"[0] != "d"[0];
    assert BOTH[1].mailbox == "b";
    hide Lost; hide RuleMatches; hide ApplySched; hide DeletedUids; hide Known;
    ApplyAcross(State(TwoBoxes(), []), AD_FILTER, BOTH, NO_TRASH, hasMove, low, 1);
  }

  lemma AdMatches(low: char -> char)
    ensures RuleMatches(AD_FILTER.rule, AD.header, low) && !RuleMatches(AD_FILTER.rule, NEWS.header, low)
  {
    var c := AD_FILTER.rule.conditions[0];
    assert Texts(AD.header, Subject) == ["ad"] && Texts(NEWS.header, Subject) == ["news"];
    assert TextMatches(c, Texts(AD.header, c.column)[0], low);
    assert ConditionMatches(c, AD.header, low);
    assert |"ad"| == 2 && |"news"| == 4;
    assert !ConditionMatches(c, NEWS.header, low);
  }
}
