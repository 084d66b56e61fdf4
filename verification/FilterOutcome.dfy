/** What applying filters does to every mailbox, however the UIDs are sliced: the messages acted on meet the fates
    of their filters, and nothing else changes. */
module FilterOutcome {
  import opened FilterEngine
  import opened FilterRules
  import opened HeaderCache
  import opened MailMoves
  import opened MailServer

  /** What an action means for a message of the target mailbox. */
  datatype Fate = Stay | Goes(mailbox: string) | Gone

  function FateOf(a: Action, t: Target): Fate {
    match a
    case MoveTo(m) => if m == t.name then Stay else Goes(m)
    case Delete =>
      if t.trash.None? then Stay
      else if t.inTrash then Gone
      else if t.trash.value == t.name then Stay
      else Goes(t.trash.value)
    case OtherAction => Stay
  }

  ghost function Leaving(acted: set<nat>, fate: nat -> Fate): set<nat> {
    set u | u in acted && fate(u) != Stay
  }

  ghost function Going(acted: set<nat>, fate: nat -> Fate, mailbox: string): set<nat> {
    set u | u in acted && fate(u) == Goes(mailbox)
  }

  /** s is s0 after the messages `acted` of mailbox src met their fates: src lost exactly those that
      leave, every other mailbox gained exactly those sent to it. */
  ghost predicate Outcome(s0: Server, s: Server, src: string, acted: set<nat>, fate: nat -> Fate) {
    && s.Keys == s0.Keys && src in s0 && ServerOk(s)
    && s[src] == Without(s0[src], Leaving(acted, fate))
    && forall d :: d in s0 && d != src ==> Gained(s0, s, src, acted, fate, d)
  }

  ghost predicate Gained(s0: Server, s: Server, src: string, acted: set<nat>, fate: nat -> Fate, d: string)
    requires src in s0 && d in s0 && d in s
  {
    && s[d].uidNext == s0[d].uidNext + |Picked(s0[src], Going(acted, fate, d))|
    && (forall u :: u < s0[d].uidNext ==> (u in s[d].msgs <==> u in s0[d].msgs))
    && (forall u :: u < s0[d].uidNext && u in s0[d].msgs ==> s[d].msgs[u] == s0[d].msgs[u])
    && forall x :: Held(s[d], x) == Held(s0[d], x) + CountIn(Picked(s0[src], Going(acted, fate, d)), x)
  }

  lemma NothingActed(s: Server, src: string, fate: nat -> Fate)
    requires ServerOk(s) && src in s
    ensures Outcome(s, s, src, {}, fate)
  {
    assert Leaving({}, fate) == {};
    assert Without(s[src], {}) == s[src];
    forall d | d in s && d != src ensures Gained(s, s, src, {}, fate, d) {
      assert Going({}, fate, d) == {};
      NonePicked(s[src]);
    }
  }

  lemma {:induction false} NoneInOrder(n: nat)
    ensures InOrder(map[], n) == []
  {
    if n > 0 { NoneInOrder(n - 1); }
  }

  lemma NonePicked(b: Box)
    ensures Picked(b, {}) == []
  {
    assert Selected(b, {}) == map[];
    NoneInOrder(b.uidNext);
  }

  lemma {:induction false} LengthSplit(a: map<nat, Message>, b: map<nat, Message>, n: nat)
    requires a.Keys !! b.Keys
    ensures |InOrder(a + b, n)| == |InOrder(a, n)| + |InOrder(b, n)|
  {
    if n > 0 { LengthSplit(a, b, n - 1); }
  }

  lemma PickedTwice(b: Box, a: set<nat>, c: set<nat>, x: Message)
    ensures CountIn(Picked(b, a + c), x) == CountIn(Picked(b, a), x) + CountIn(Picked(Without(b, a), c), x)
  {
    var p, q := Selected(b, a), Selected(Without(b, a), c);
    assert p + q == Selected(b, a + c);
    OccursSplit(p, q, b.uidNext, x);
    CountInOrder(p, b.uidNext, x);
    CountInOrder(q, b.uidNext, x);
    CountInOrder(p + q, b.uidNext, x);
  }

  // ----- One action on a list of UIDs -----

  /** The server after a fate is carried out on some UIDs of src. */
  function Carry(s: Server, src: string, f: Fate, uids: set<nat>): Server
    requires src in s && (f.Goes? ==> f.mailbox in s && f.mailbox != src)
  {
    match f
    case Stay => s
    case Goes(d) => UidMove(s, src, d, uids)
    case Gone => s[src := Without(s[src], uids)]
  }

  lemma NothingCarried(s: Server, src: string, f: Fate)
    requires src in s && (f.Goes? ==> f.mailbox in s && f.mailbox != src)
    ensures Carry(s, src, f, {}) == s
  {
    NonePicked(s[src]);
    assert Without(s[src], {}) == s[src];
  }

  /** With no message flagged deleted, an action is its fate. */
  lemma PerformCarries(st: State, a: Action, t: Target, hasMove: bool, uids: seq<nat>)
    requires ReachableOne(st.server, a, t) && DeletedUids(st.server[t.name]) == {}
    requires t.trash.Some? && t.trash.value == t.name ==> t.inTrash
    ensures var f := FateOf(a, t);
      && (f.Goes? ==> f.mailbox in st.server && f.mailbox != t.name)
      && Perform(st, a, t, hasMove, uids).0.server == Carry(st.server, t.name, f, AsSet(uids))
  {
    var s, src, f := st.server, t.name, FateOf(a, t);
    if |uids| == 0 {
      assert AsSet(uids) == {};
      NothingCarried(s, src, f);
    }
    if f.Goes? { MovesAgree(s, src, f.mailbox, uids); }
    if f.Gone? {
      StoreExpungeIs(s, src, AsSet(uids));
      assert AsSet(uids) + DeletedUids(s[src]) == AsSet(uids);
    }
  }

  lemma CarryStay(s0: Server, s: Server, src: string, acted: set<nat>, fate: nat -> Fate, more: set<nat>)
    requires Outcome(s0, s, src, acted, fate)
    requires forall u :: u in more ==> fate(u) == Stay
    ensures Outcome(s0, s, src, acted + more, fate)
  {
    assert Leaving(acted + more, fate) == Leaving(acted, fate);
    assert forall d :: Going(acted + more, fate, d) == Going(acted, fate, d);
  }

  lemma GainedSame(s0: Server, s: Server, r: Server, src: string, acted: set<nat>, more: set<nat>, fate: nat -> Fate,
                   d: string)
    requires src in s0 && d in s0 && d in s && d in r && r[d] == s[d] && Gained(s0, s, src, acted, fate, d)
    requires forall u :: u in more ==> fate(u) != Goes(d)
    ensures Gained(s0, r, src, acted + more, fate, d)
  {
    assert Going(acted + more, fate, d) == Going(acted, fate, d);
    hide Held; hide CountIn; hide Picked; hide Going;
  }

  /** What is left of the source after more messages left it. */
  lemma LeavingMore(s0: Server, s: Server, src: string, acted: set<nat>, fate: nat -> Fate, more: set<nat>)
    requires src in s0 && src in s && s[src] == Without(s0[src], Leaving(acted, fate))
    requires forall u :: u in more ==> fate(u) != Stay
    ensures Without(s[src], more) == Without(s0[src], Leaving(acted + more, fate))
  {
    assert Leaving(acted + more, fate) == Leaving(acted, fate) + more;
  }

  lemma CarryGone(s0: Server, s: Server, src: string, acted: set<nat>, fate: nat -> Fate, more: set<nat>)
    requires Outcome(s0, s, src, acted, fate)
    requires forall u :: u in more ==> fate(u) == Gone
    ensures Outcome(s0, s[src := Without(s[src], more)], src, acted + more, fate)
  {
    var r := s[src := Without(s[src], more)];
    hide Gained;
    LeavingMore(s0, s, src, acted, fate, more);
    hide Leaving;
    assert ServerOk(r);
    hide Without; hide ServerOk;
    forall d | d in s0 && d != src ensures Gained(s0, r, src, acted + more, fate, d) {
      GainedSame(s0, s, r, src, acted, more, fate, d);
    }
  }

  /** Acting again on messages that already left adds nothing. */
  lemma AddedPicks(b0: Box, acted: set<nat>, fate: nat -> Fate, more: set<nat>, d: string, x: Message)
    requires forall u :: u in more ==> fate(u) == Goes(d)
    ensures CountIn(Picked(b0, Going(acted + more, fate, d)), x) ==
      CountIn(Picked(b0, Going(acted, fate, d)), x) + CountIn(Picked(Without(b0, Leaving(acted, fate)), more), x)
  {
    var a := Going(acted, fate, d);
    assert Going(acted + more, fate, d) == a + more;
    PickedTwice(b0, a, more, x);
    assert Selected(Without(b0, a), more) == Selected(Without(b0, Leaving(acted, fate)), more);
  }

  lemma AddedLength(b0: Box, acted: set<nat>, fate: nat -> Fate, more: set<nat>, d: string)
    requires forall u :: u in more ==> fate(u) == Goes(d)
    ensures |Picked(b0, Going(acted + more, fate, d))| ==
      |Picked(b0, Going(acted, fate, d))| + |Picked(Without(b0, Leaving(acted, fate)), more)|
  {
    var p, q := Selected(b0, Going(acted, fate, d)), Selected(Without(b0, Leaving(acted, fate)), more);
    assert Going(acted + more, fate, d) == Going(acted, fate, d) + more;
    assert forall u :: u in more && u in b0.msgs && u !in q ==> u in p;
    assert p + q == Selected(b0, Going(acted + more, fate, d));
    LengthSplit(p, q, b0.uidNext);
  }

  lemma CarryGoes(s0: Server, s: Server, src: string, acted: set<nat>, fate: nat -> Fate, more: set<nat>, d: string)
    requires Outcome(s0, s, src, acted, fate) && d in s && d != src
    requires forall u :: u in more ==> fate(u) == Goes(d)
    ensures Outcome(s0, UidMove(s, src, d, more), src, acted + more, fate)
  {
    var r := UidMove(s, src, d, more);
    LeavingMore(s0, s, src, acted, fate, more);
    DeliverKeeps(s[d], Picked(s[src], more));
    forall e | e in s0 && e != src ensures Gained(s0, r, src, acted + more, fate, e) {
      assert Gained(s0, s, src, acted, fate, e);
      if e == d {
        AddedLength(s0[src], acted, fate, more, d);
        forall x ensures Held(r[d], x) == Held(s0[d], x) + CountIn(Picked(s0[src], Going(acted + more, fate, d)), x) {
          DeliverAdds(s[d], Picked(s[src], more), x);
          AddedPicks(s0[src], acted, fate, more, d, x);
        }
      } else {
        GainedSame(s0, s, r, src, acted, more, fate, e);
      }
    }
  }

  /** An outcome extended by one more action. */
  lemma CarryOn(s0: Server, s: Server, src: string, acted: set<nat>, fate: nat -> Fate, more: set<nat>, f: Fate)
    requires Outcome(s0, s, src, acted, fate)
    requires f.Goes? ==> f.mailbox in s && f.mailbox != src
    requires forall u :: u in more ==> fate(u) == f
    ensures Outcome(s0, Carry(s, src, f, more), src, acted + more, fate)
  {
    hide Outcome;
    match f {
      case Stay => CarryStay(s0, s, src, acted, fate, more);
      case Goes(d) => CarryGoes(s0, s, src, acted, fate, more, d);
      case Gone => CarryGone(s0, s, src, acted, fate, more);
    }
  }

  /** UIDs that do not exist play no part. */
  lemma CarryExisting(s: Server, src: string, f: Fate, uids: set<nat>)
    requires src in s && (f.Goes? ==> f.mailbox in s && f.mailbox != src)
    ensures Carry(s, src, f, uids) == Carry(s, src, f, uids * s[src].msgs.Keys)
  {
    var some := uids * s[src].msgs.Keys;
    assert Selected(s[src], uids) == Selected(s[src], some);
    assert Without(s[src], uids) == Without(s[src], some);
  }

  // ----- Match lists -----

  ghost predicate InSome(matched: seq<seq<nat>>, n: nat, u: nat)
    requires n <= |matched|
  {
    exists f :: 0 <= f < n && u in matched[f]
  }

  /** The listed UIDs, of the first n filters, that exist in a mailbox. */
  ghost function Listed(matched: seq<seq<nat>>, n: nat, b: Box): set<nat>
    requires n <= |matched|
  {
    set u | u in b.msgs && InSome(matched, n, u)
  }

  ghost function FirstOf(b: Box, specs: seq<Spec>, low: char -> char, u: nat): nat
    requires u in b.msgs
  {
    First(Rules(specs), b.msgs[u].header, low)
  }

  /** Existing UIDs that some filter matches. */
  ghost predicate Matching(b: Box, specs: seq<Spec>, low: char -> char, uids: seq<nat>, u: nat) {
    u in uids && u in b.msgs && FirstOf(b, specs, low, u) < |specs|
  }

  /** A fate for every message that agrees with the lists and with first-match selection. */
  ghost predicate Agrees(b: Box, specs: seq<Spec>, matched: seq<seq<nat>>, t: Target, low: char -> char,
                         fate: nat -> Fate)
    requires |matched| == |specs|
  {
    && (forall f, u :: 0 <= f < |specs| && u in matched[f] && u in b.msgs ==> fate(u) == FateOf(specs[f].action, t))
    && (forall u :: u in b.msgs && FirstOf(b, specs, low, u) < |specs| ==>
       fate(u) == FateOf(specs[FirstOf(b, specs, low, u)].action, t))
  }

  /** u is fetched and its first match is filter f. */
  ghost predicate Fetched(items: seq<Item>, rules: seq<Rule>, low: char -> char, u: nat, f: nat) {
    exists it :: it in items && it.uid == u && First(rules, it.header, low) == f
  }

  lemma {:induction false} RecordIs(matched: seq<seq<nat>>, rules: seq<Rule>, items: seq<Item>, low: char -> char,
                                    f: nat, u: nat)
    requires |matched| == |rules| && f < |rules|
    ensures u in Record(matched, rules, items, low)[f] <==> u in matched[f] || Fetched(items, rules, low, u, f)
  {
    hide First;
    if items != [] {
      var init, last := items[..|items| - 1], items[|items| - 1];
      assert items == init + [last];
      RecordIs(matched, rules, init, low, f, u);
      assert Fetched(items, rules, low, u, f) <==>
        Fetched(init, rules, low, u, f) || (last.uid == u && First(rules, last.header, low) == f);
    }
  }

  /** What a slice adds to the lists: the requested messages still there, by first match. */
  lemma SliceRecords(s0: Server, s: Server, src: string, acted: set<nat>, fate: nat -> Fate, specs: seq<Spec>,
                     matched: seq<seq<nat>>, low: char -> char, uids: seq<nat>, f: nat, u: nat)
    requires Outcome(s0, s, src, acted, fate) && |matched| == |specs| && f < |specs|
    ensures u in Record(matched, Rules(specs), FromServer(s[src], uids, s[src].uidNext), low)[f] <==>
      u in matched[f] || (u in uids && u in s[src].msgs && u in s0[src].msgs && FirstOf(s0[src], specs, low, u) == f)
  {
    hide First; hide Gained;
    var items := FromServer(s[src], uids, s[src].uidNext);
    FromServerIs(s[src], uids, s[src].uidNext);
    RecordIs(matched, Rules(specs), items, low, f, u);
    assert BoxOk(s[src]);
    if u in uids && u in s[src].msgs && FirstOf(s0[src], specs, low, u) == f {
      FromServerHas(s[src], uids, s[src].uidNext, u);
      assert Fetched(items, Rules(specs), low, u, f);
    }
  }

  // ----- One round of actions -----

  lemma NoneDeleted(s0: Server, s: Server, src: string, acted: set<nat>, fate: nat -> Fate)
    requires Outcome(s0, s, src, acted, fate) && DeletedUids(s0[src]) == {}
    ensures DeletedUids(s[src]) == {}
  {
    assert DeletedUids(s[src]) <= DeletedUids(s0[src]);
  }

  predicate SoundTarget(t: Target) {
    t.trash.Some? && t.trash.value == t.name ==> t.inTrash
  }

  ghost function Existing(b: Box, uids: seq<nat>): set<nat> {
    set u | u in uids && u in b.msgs
  }

  lemma NoneExisting(b: Box)
    ensures Existing(b, []) == {}
  {
  }

  lemma SubBox(s0: Server, s: Server, src: string, acted: set<nat>, fate: nat -> Fate)
    requires Outcome(s0, s, src, acted, fate)
    ensures src in s0 && src in s && s[src].msgs.Keys <= s0[src].msgs.Keys
  {
  }

  lemma CarryListed(s: Server, b0: Box, src: string, f: Fate, uids: seq<nat>)
    requires src in s && (f.Goes? ==> f.mailbox in s && f.mailbox != src) && s[src].msgs.Keys <= b0.msgs.Keys
    ensures Carry(s, src, f, AsSet(uids)) == Carry(s, src, f, Existing(b0, uids))
  {
    hide Carry;
    CarryExisting(s, src, f, AsSet(uids));
    CarryExisting(s, src, f, Existing(b0, uids));
    assert AsSet(uids) * s[src].msgs.Keys == Existing(b0, uids) * s[src].msgs.Keys;
  }

  lemma PerformOne(s0: Server, st: State, t: Target, acted: set<nat>, fate: nat -> Fate, a: Action, hasMove: bool,
                   uids: seq<nat>)
    requires Outcome(s0, st.server, t.name, acted, fate) && DeletedUids(s0[t.name]) == {} && SoundTarget(t)
    requires ReachableOne(st.server, a, t)
    requires forall u :: u in Existing(s0[t.name], uids) ==> fate(u) == FateOf(a, t)
    ensures Outcome(s0, Perform(st, a, t, hasMove, uids).0.server, t.name, acted + Existing(s0[t.name], uids), fate)
  {
    var s, src, f := st.server, t.name, FateOf(a, t);
    SubBox(s0, s, src, acted, fate);
    hide Outcome; hide Perform; hide FateOf; hide Carry;
    NoneDeleted(s0, s, src, acted, fate);
    PerformCarries(st, a, t, hasMove, uids);
    CarryListed(s, s0[src], src, f, uids);
    CarryOn(s0, s, src, acted, fate, Existing(s0[src], uids), f);
  }

  lemma AgreedFate(b: Box, specs: seq<Spec>, matched: seq<seq<nat>>, t: Target, low: char -> char, fate: nat -> Fate,
                   f: nat)
    requires |matched| == |specs| && f < |specs| && Agrees(b, specs, matched, t, low, fate)
    ensures forall u :: u in Existing(b, matched[f]) ==> fate(u) == FateOf(specs[f].action, t)
  {
  }

  /** The action of filter f, if its list is not empty. */
  lemma RoundStep(s0: Server, st: State, t: Target, acted: set<nat>, fate: nat -> Fate, specs: seq<Spec>,
                  matched: seq<seq<nat>>,
                  hasMove: bool, low: char -> char, f: nat)
    requires Outcome(s0, st.server, t.name, acted, fate) && DeletedUids(s0[t.name]) == {} && SoundTarget(t)
    requires f < |specs| == |matched| && Reachable(st.server, specs, t)
    requires Agrees(s0[t.name], specs, matched, t, low, fate)
    ensures Outcome(s0, if matched[f] == [] then st.server
      else Perform(st, specs[f].action, t, hasMove, matched[f]).0.server,
                    t.name, acted + Existing(s0[t.name], matched[f]), fate)
  {
    assert t.name in s0;
    hide Outcome; hide Perform; hide FateOf; hide SoundTarget;
    AgreedFate(s0[t.name], specs, matched, t, low, fate, f);
    hide Existing; hide Agrees;
    if matched[f] != [] {
      PerformOne(s0, st, t, acted, fate, specs[f].action, hasMove, matched[f]);
    } else {
      NoneExisting(s0[t.name]);
      assert acted + Existing(s0[t.name], matched[f]) == acted;
    }
  }

  lemma {:induction false} RoundOutcome(s0: Server, st: State, t: Target, acted: set<nat>, fate: nat -> Fate,
                                        specs: seq<Spec>,
                                        matched: seq<seq<nat>>, hasMove: bool, low: char -> char, n: nat)
    requires t.name in s0 && Outcome(s0, st.server, t.name, acted, fate) && DeletedUids(s0[t.name]) == {}
    requires SoundTarget(t)
    requires n <= |specs| == |matched| && Reachable(st.server, specs, t)
    requires Agrees(s0[t.name], specs, matched, t, low, fate)
    ensures Outcome(s0, PerformUpTo(st, specs, matched, t, hasMove, n).0.server, t.name,
      acted + Listed(matched, n, s0[t.name]), fate)
  {
    hide Outcome; hide Perform; hide Agrees; hide FateOf; hide SoundTarget;
    if n == 0 {
      assert acted + Listed(matched, 0, s0[t.name]) == acted;
    } else {
      hide Listed; hide Existing; hide DeletedUids;
      RoundOutcome(s0, st, t, acted, fate, specs, matched, hasMove, low, n - 1);
      var before, so := PerformUpTo(st, specs, matched, t, hasMove, n - 1).0,
        acted + Listed(matched, n - 1, s0[t.name]);
      ListedNext(matched, n - 1, s0[t.name]);
      assert acted + Listed(matched, n, s0[t.name]) == so + Existing(s0[t.name], matched[n - 1]);
      RoundStep(s0, before, t, so, fate, specs, matched, hasMove, low, n - 1);
    }
  }

  lemma ListedNext(matched: seq<seq<nat>>, n: nat, b: Box)
    requires n < |matched|
    ensures Listed(matched, n + 1, b) == Listed(matched, n, b) + Existing(b, matched[n])
  {
    forall u ensures InSome(matched, n + 1, u) <==> InSome(matched, n, u) || u in matched[n] {
      if u in matched[n] { assert InSome(matched, n + 1, u); }
    }
  }

  // ----- Slices -----

  /** The UIDs among uids that exist and that some filter matches. */
  ghost function MatchingSet(b: Box, specs: seq<Spec>, low: char -> char, uids: seq<nat>): set<nat> {
    set u | u in b.msgs && Matching(b, specs, low, uids, u)
  }

  /** After the UIDs `seen`, starting with lists m0: `acted` have met their fates, and the lists hold
      the existing UIDs of m0 and the matching ones of `seen`. */
  ghost predicate Progress(s0: Server, s: Server, matched: seq<seq<nat>>, t: Target, specs: seq<Spec>,
                           low: char -> char, fate: nat -> Fate,
                           m0: seq<seq<nat>>, seen: seq<nat>, acted: set<nat>) {
    && |m0| == |specs| == |matched| && t.name in s0 && Reachable(s, specs, t)
    && Outcome(s0, s, t.name, acted, fate)
    && Agrees(s0[t.name], specs, matched, t, low, fate)
    && acted <= Listed(matched, |specs|, s0[t.name])
    && Listed(matched, |specs|, s0[t.name]) == Listed(m0, |specs|, s0[t.name])
       + MatchingSet(s0[t.name], specs, low, seen)
  }

  /** A message that still exists, or that was acted on, is in the lists after a slice that asks for it. */
  lemma SliceLists(s0: Server, s: Server, src: string, acted: set<nat>, fate: nat -> Fate, specs: seq<Spec>,
                   matched: seq<seq<nat>>, low: char -> char, uids: seq<nat>)
    requires Outcome(s0, s, src, acted, fate) && |matched| == |specs| && acted <= Listed(matched, |specs|, s0[src])
    ensures Listed(Record(matched, Rules(specs), FromServer(s[src], uids, s[src].uidNext), low), |specs|, s0[src]) ==
      Listed(matched, |specs|, s0[src]) + MatchingSet(s0[src], specs, low, uids)
  {
    var found := Record(matched, Rules(specs), FromServer(s[src], uids, s[src].uidNext), low);
    forall u | u in s0[src].msgs
      ensures InSome(found, |specs|, u) <==> InSome(matched, |specs|, u) || Matching(s0[src], specs, low, uids, u)
    {
      SliceListsOne(s0, s, src, acted, fate, specs, matched, low, uids, u);
    }
  }

  lemma SliceListsOne(s0: Server, s: Server, src: string, acted: set<nat>, fate: nat -> Fate, specs: seq<Spec>,
                      matched: seq<seq<nat>>, low: char -> char, uids: seq<nat>, u: nat)
    requires Outcome(s0, s, src, acted, fate) && |matched| == |specs| && acted <= Listed(matched, |specs|, s0[src])
    requires u in s0[src].msgs
    ensures InSome(Record(matched, Rules(specs), FromServer(s[src], uids, s[src].uidNext), low), |specs|, u) <==>
      InSome(matched, |specs|, u) || Matching(s0[src], specs, low, uids, u)
  {
    var found := Record(matched, Rules(specs), FromServer(s[src], uids, s[src].uidNext), low);
    assert u in s[src].msgs <==> u !in Leaving(acted, fate);
    hide Record; hide Gained; hide First; hide FromServer; hide FirstOf;
    forall f: nat | f < |specs|
      ensures u in found[f] <==>
             u in matched[f] || (u in uids && u in s[src].msgs && FirstOf(s0[src], specs, low, u) == f)
    {
      SliceRecords(s0, s, src, acted, fate, specs, matched, low, uids, f, u);
    }
    if Matching(s0[src], specs, low, uids, u) && u in s[src].msgs {
      assert u in found[FirstOf(s0[src], specs, low, u)];
    }
  }

  lemma SliceAgrees(s0: Server, s: Server, src: string, acted: set<nat>, fate: nat -> Fate, specs: seq<Spec>,
                    matched: seq<seq<nat>>, t: Target, low: char -> char, uids: seq<nat>)
    requires Outcome(s0, s, src, acted, fate) && |matched| == |specs| && src == t.name
    requires Agrees(s0[src], specs, matched, t, low, fate)
    ensures Agrees(s0[src], specs, Record(matched, Rules(specs), FromServer(s[src], uids, s[src].uidNext), low), t,
      low, fate)
  {
    var found := Record(matched, Rules(specs), FromServer(s[src], uids, s[src].uidNext), low);
    forall f: nat, u | 0 <= f < |specs| && u in found[f]
      && u in s0[src].msgs ensures fate(u) == FateOf(specs[f].action, t) {
      SliceRecords(s0, s, src, acted, fate, specs, matched, low, uids, f, u);
    }
  }

  lemma SliceOutcome(s0: Server, r: Result, t: Target, specs: seq<Spec>, low: char -> char, fate: nat -> Fate,
                     m0: seq<seq<nat>>,
                     seen: seq<nat>, acted: set<nat>, hasMove: bool, uids: seq<nat>)
    requires Progress(s0, r.st.server, r.matched, t, specs, low, fate, m0, seen, acted)
    requires DeletedUids(s0[t.name]) == {} && SoundTarget(t)
    ensures var after := SliceSpec(r.st, specs, r.matched, t, hasMove, low, uids);
      Progress(s0, after.st.server, after.matched, t, specs, low, fate, m0, seen + uids,
        Listed(after.matched, |specs|, s0[t.name]))
  {
    var b, s := s0[t.name], r.st.server;
    assert t.name in s;
    var found := Record(r.matched, Rules(specs), FromServer(s[t.name], uids, s[t.name].uidNext), low);
    SliceAgrees(s0, s, t.name, acted, fate, specs, r.matched, t, low, uids);
    SliceLists(s0, s, t.name, acted, fate, specs, r.matched, low, uids);
    assert MatchingSet(b, specs, low, seen + uids) == MatchingSet(b, specs, low, seen)
      + MatchingSet(b, specs, low, uids);
    hide Outcome; hide Agrees; hide Listed; hide MatchingSet; hide Record; hide PerformUpTo;
    RoundOutcome(s0, r.st, t, acted, fate, specs, found, hasMove, low, |specs|);
    assert acted + Listed(found, |specs|, b) == Listed(found, |specs|, b);
  }

  /** The UIDs of the first k slices. */
  function UpToSlice(uids: seq<nat>, size: nat, k: nat): seq<nat> {
    if k * size > |uids| then uids else uids[..k * size]
  }

  lemma NextSlice(uids: seq<nat>, size: nat, k: nat)
    ensures UpToSlice(uids, size, k) + SliceOf(uids, size, k) == UpToSlice(uids, size, k + 1)
  {
    assert (k + 1) * size == k * size + size;
  }

  lemma AllSlices(uids: seq<nat>, size: nat)
    requires size > 0
    ensures UpToSlice(uids, size, SliceCount(uids, size)) == uids
    ensures uids != [] ==> SliceCount(uids, size) > 0
  {
    var k := SliceCount(uids, size);
    assert k * size + (|uids| + size - 1) % size == |uids| + size - 1;
  }

  ghost function ActedOn(matched: seq<seq<nat>>, n: nat, b: Box, k: nat): set<nat>
    requires n <= |matched|
  {
    if k == 0 then {} else Listed(matched, n, b)
  }

  lemma NoSlices(s: Server, specs: seq<Spec>, m0: seq<seq<nat>>, t: Target, low: char -> char, fate: nat -> Fate)
    requires |m0| == |specs| && Reachable(s, specs, t) && ServerOk(s) && Agrees(s[t.name], specs, m0, t, low, fate)
    ensures Progress(s, s, m0, t, specs, low, fate, m0, [], {})
  {
    NothingActed(s, t.name, fate);
    assert MatchingSet(s[t.name], specs, low, []) == {};
  }

  lemma {:induction false} SlicesOutcome(st: State, specs: seq<Spec>, m0: seq<seq<nat>>, t: Target, hasMove: bool,
                                         low: char -> char,
                                         fate: nat -> Fate, uids: seq<nat>, size: nat, k: nat)
    requires |m0| == |specs| && Reachable(st.server, specs, t) && size > 0 && ServerOk(st.server)
    requires DeletedUids(st.server[t.name]) == {} && SoundTarget(t)
    requires Agrees(st.server[t.name], specs, m0, t, low, fate)
    ensures var r := SlicesSpec(st, specs, m0, t, hasMove, low, uids, size, k);
      Progress(st.server, r.st.server, r.matched, t, specs, low, fate, m0, UpToSlice(uids, size, k),
               ActedOn(r.matched, |specs|, st.server[t.name], k))
  {
    hide Progress; hide Outcome; hide Agrees; hide Listed; hide DeletedUids; hide ServerOk; hide SoundTarget;
    hide SliceSpec; hide SliceOf;
    var b := st.server[t.name];
    if k == 0 {
      NoSlices(st.server, specs, m0, t, low, fate);
      assert UpToSlice(uids, size, 0) == [];
    } else {
      SlicesOutcome(st, specs, m0, t, hasMove, low, fate, uids, size, k - 1);
      var r := SlicesSpec(st, specs, m0, t, hasMove, low, uids, size, k - 1);
      NextSlice(uids, size, k - 1);
      hide UpToSlice;
      SliceOutcome(st.server, r, t, specs, low, fate, m0, UpToSlice(uids, size, k - 1),
                   ActedOn(r.matched, |specs|, b, k - 1), hasMove, SliceOf(uids, size, k - 1));
    }
  }
}
