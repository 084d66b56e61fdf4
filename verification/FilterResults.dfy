/** Filters applied to one mailbox from empty match lists. */
module FilterResults {
  // The slice size does not matter, every message meets the fate of its first match, and the reported
  // count is right only without repeats.
  import opened FilterEngine
  import opened FilterOutcome
  import opened FilterRules
  import opened HeaderCache
  import opened MailServer
  import opened Wrappers

  /** The fate first-match selection gives a message. */
  ghost function FirstFate(b: Box, specs: seq<Spec>, t: Target, low: char -> char): nat -> Fate {
    (u: nat) =>
      if u in b.msgs && FirstOf(b, specs, low, u) < |specs| then FateOf(specs[FirstOf(b, specs, low, u)].action, t)
      else Stay
  }

  predicate Empty(matched: seq<seq<nat>>) {
    forall f :: 0 <= f < |matched| ==> matched[f] == []
  }

  lemma FreshAgrees(b: Box, specs: seq<Spec>, m0: seq<seq<nat>>, t: Target, low: char -> char)
    requires |m0| == |specs| && Empty(m0)
    ensures Agrees(b, specs, m0, t, low, FirstFate(b, specs, t, low))
    ensures Listed(m0, |specs|, b) == {}
  {
    hide First;
    forall u ensures !InSome(m0, |specs|, u) {}
  }

  /** After k slices the messages acted on are exactly the existing ones among the UIDs of those slices
      that some filter matches, each by the action of its first match. */
  lemma AfterSlices(st: State, specs: seq<Spec>, m0: seq<seq<nat>>, t: Target, hasMove: bool, low: char -> char,
                    uids: seq<nat>, size: nat, k: nat)
    requires |m0| == |specs| && Empty(m0) && Reachable(st.server, specs, t) && size > 0 && ServerOk(st.server)
    requires DeletedUids(st.server[t.name]) == {} && SoundTarget(t)
    ensures Outcome(st.server, SlicesSpec(st, specs, m0, t, hasMove, low, uids, size, k).st.server, t.name,
                    MatchingSet(st.server[t.name], specs, low, UpToSlice(uids, size, k)),
                      FirstFate(st.server[t.name], specs, t, low))
  {
    var b := st.server[t.name];
    var fate := FirstFate(b, specs, t, low);
    FreshAgrees(b, specs, m0, t, low);
    hide Outcome; hide Agrees; hide Listed; hide FirstFate; hide SliceSpec; hide DeletedUids; hide SoundTarget;
    hide ServerOk;
    SlicesOutcome(st, specs, m0, t, hasMove, low, fate, uids, size, k);
    var picked := MatchingSet(b, specs, low, UpToSlice(uids, size, k));
    assert {} + picked == picked;
    if k == 0 { assert UpToSlice(uids, size, 0) == []; assert picked == {}; }
  }

  /** apply_uids, whatever the slice size: one first-match pass over the mailbox. */
  lemma ApplyOutcome(st: State, specs: seq<Spec>, m0: seq<seq<nat>>, t: Target, hasMove: bool, low: char -> char,
                     uids: seq<nat>, size: nat)
    requires |m0| == |specs| && Empty(m0) && Reachable(st.server, specs, t) && size > 0 && ServerOk(st.server)
    requires DeletedUids(st.server[t.name]) == {} && SoundTarget(t)
    ensures Outcome(st.server, ApplySpec(st, specs, m0, t, hasMove, low, uids, size).st.server, t.name,
                    MatchingSet(st.server[t.name], specs, low, uids), FirstFate(st.server[t.name], specs, t, low))
  {
    AllSlices(uids, size);
    hide *;
    AfterSlices(st, specs, m0, t, hasMove, low, uids, size, SliceCount(uids, size));
  }

  /** The same mailboxes up to the order in which arriving messages get their UIDs. */
  ghost predicate SameStores(a: Server, c: Server, src: string) {
    && a.Keys == c.Keys && src in a && a[src] == c[src]
    && forall d, x :: d in a && d != src ==> Held(a[d], x) == Held(c[d], x) && a[d].uidNext == c[d].uidNext
  }

  lemma OutcomeIsFixed(s0: Server, a: Server, c: Server, src: string, acted: set<nat>, fate: nat -> Fate)
    requires Outcome(s0, a, src, acted, fate) && Outcome(s0, c, src, acted, fate)
    ensures SameStores(a, c, src)
  {
    forall d, x | d in a && d != src ensures Held(a[d], x) == Held(c[d], x) && a[d].uidNext == c[d].uidNext {
      assert Gained(s0, a, src, acted, fate, d) && Gained(s0, c, src, acted, fate, d);
    }
  }

  /** Slices of 256 and one unsliced pass leave the same mailboxes. */
  lemma SlicesAgree(st: State, specs: seq<Spec>, m0: seq<seq<nat>>, t: Target, hasMove: bool, low: char -> char,
                    uids: seq<nat>, p: nat, q: nat)
    requires |m0| == |specs| && Empty(m0) && Reachable(st.server, specs, t) && p > 0 && q > 0 && ServerOk(st.server)
    requires DeletedUids(st.server[t.name]) == {} && SoundTarget(t)
    ensures SameStores(ApplySpec(st, specs, m0, t, hasMove, low, uids, p).st.server,
                       ApplySpec(st, specs, m0, t, hasMove, low, uids, q).st.server, t.name)
  {
    hide Outcome; hide ApplySpec; hide SameStores; hide MatchingSet; hide FirstFate; hide DeletedUids;
    ApplyOutcome(st, specs, m0, t, hasMove, low, uids, p);
    ApplyOutcome(st, specs, m0, t, hasMove, low, uids, q);
    OutcomeIsFixed(st.server, ApplySpec(st, specs, m0, t, hasMove, low, uids, p).st.server,
                   ApplySpec(st, specs, m0, t, hasMove, low, uids, q).st.server, t.name,
                   MatchingSet(st.server[t.name], specs, low, uids), FirstFate(st.server[t.name], specs, t, low));
  }

  /** A message stays exactly when it was not asked for, matches no filter, or its first match keeps it. */
  lemma WhoStays(st: State, specs: seq<Spec>, m0: seq<seq<nat>>, t: Target, hasMove: bool, low: char -> char,
                 uids: seq<nat>, size: nat, u: nat)
    requires |m0| == |specs| && Empty(m0) && Reachable(st.server, specs, t) && size > 0 && ServerOk(st.server)
    requires DeletedUids(st.server[t.name]) == {} && SoundTarget(t) && u in st.server[t.name].msgs
    ensures u in ApplySpec(st, specs, m0, t, hasMove, low, uids, size).st.server[t.name].msgs <==>
      u !in uids || First(Rules(specs), st.server[t.name].msgs[u].header, low) == |specs| ||
      FateOf(specs[First(Rules(specs), st.server[t.name].msgs[u].header, low)].action, t) == Stay
  {
    var b, fate := st.server[t.name], FirstFate(st.server[t.name], specs, t, low);
    FirstFateIs(b, specs, t, low, uids, u);
    hide *;
    ApplyOutcome(st, specs, m0, t, hasMove, low, uids, size);
    OutcomeStays(st.server, ApplySpec(st, specs, m0, t, hasMove, low, uids, size).st.server, t.name,
      MatchingSet(b, specs, low, uids), fate, u);
  }

  lemma OutcomeStays(s0: Server, s: Server, src: string, acted: set<nat>, fate: nat -> Fate, u: nat)
    requires Outcome(s0, s, src, acted, fate) && src in s0 && u in s0[src].msgs
    ensures src in s && (u in s[src].msgs <==> !(u in acted && fate(u) != Stay))
  {
    hide Gained; hide ServerOk;
  }

  lemma FirstFateIs(b: Box, specs: seq<Spec>, t: Target, low: char -> char, uids: seq<nat>, u: nat)
    requires u in b.msgs
    ensures var k := First(Rules(specs), b.msgs[u].header, low);
      && k <= |specs|
      && (u in MatchingSet(b, specs, low, uids) && FirstFate(b, specs, t, low)(u) != Stay <==>
        u in uids && k < |specs| && FateOf(specs[k].action, t) != Stay)
  {
    hide First; hide FateOf;
  }

  /** A message that fails one condition of an "and" filter stays. */
  lemma FailedConditionStays(st: State, conditions: seq<Condition>, a: Action, t: Target, hasMove: bool,
                             low: char -> char, uids: seq<nat>, size: nat, u: nat, i: nat)
    requires var specs := [Spec(Rule(And, conditions), a)];
      Reachable(st.server, specs, t) && size > 0 && ServerOk(st.server)
    requires DeletedUids(st.server[t.name]) == {} && SoundTarget(t) && u in st.server[t.name].msgs
    requires i < |conditions| && !ConditionMatches(conditions[i], st.server[t.name].msgs[u].header, low)
    ensures u in ApplySpec(st, [Spec(Rule(And, conditions), a)], [[]], t, hasMove, low, uids, size)
      .st.server[t.name].msgs
  {
    var specs, h := [Spec(Rule(And, conditions), a)], st.server[t.name].msgs[u].header;
    assert Rules(specs)[0] == Rule(And, conditions);
    assert !RuleMatches(Rules(specs)[0], h, low);
    hide *;
    OneEmpty();
    NoMatch(Rules(specs), h, low);
    WhoStays(st, specs, [[]], t, hasMove, low, uids, size, u);
  }

  lemma OneEmpty()
    ensures Empty([[]])
  {
  }

  lemma NoMatch(rules: seq<Rule>, h: Header, low: char -> char)
    requires |rules| == 1 && !RuleMatches(rules[0], h, low)
    ensures First(rules, h, low) == 1
  {
  }

  // ----- No message is handled by two filters -----

  /** The lists are exactly the matching UIDs seen, by first match. */
  ghost predicate ListsAre(b: Box, specs: seq<Spec>, low: char -> char, matched: seq<seq<nat>>, seen: seq<nat>) {
    && |matched| == |specs|
    && forall f: nat, u: nat :: f < |specs| ==>
       (u in matched[f] <==> Matching(b, specs, low, seen, u) && FirstOf(b, specs, low, u) == f)
  }

  lemma SliceKeepsLists(s0: Server, s: Server, src: string, acted: set<nat>, fate: nat -> Fate, specs: seq<Spec>,
                        matched: seq<seq<nat>>, low: char -> char, seen: seq<nat>, uids: seq<nat>)
    requires Outcome(s0, s, src, acted, fate) && ListsAre(s0[src], specs, low, matched, seen)
    requires acted == MatchingSet(s0[src], specs, low, seen)
    ensures ListsAre(s0[src], specs, low, Record(matched, Rules(specs), FromServer(s[src], uids, s[src].uidNext), low),
      seen + uids)
  {
    var found := Record(matched, Rules(specs), FromServer(s[src], uids, s[src].uidNext), low);
    forall f: nat, u: nat | f < |specs|
      ensures u in found[f] <==> Matching(s0[src], specs, low, seen + uids, u) && FirstOf(s0[src], specs, low, u) == f
    {
      GoneWasActed(s0, s, src, acted, fate, u);
      hide FirstOf; hide Outcome; hide Record; hide FromServer; hide Rules;
      SliceRecords(s0, s, src, acted, fate, specs, matched, low, uids, f, u);
      assert u in matched[f] <==> Matching(s0[src], specs, low, seen, u) && FirstOf(s0[src], specs, low, u) == f;
    }
  }

  lemma NothingListed(b: Box, specs: seq<Spec>, low: char -> char, m0: seq<seq<nat>>)
    requires |m0| == |specs| && Empty(m0)
    ensures ListsAre(b, specs, low, m0, [])
  {
    hide FirstOf;
  }

  lemma SliceMatched(st: State, specs: seq<Spec>, matched: seq<seq<nat>>, t: Target, hasMove: bool, low: char -> char,
                     uids: seq<nat>)
    requires |matched| == |specs| && Reachable(st.server, specs, t)
    ensures SliceSpec(st, specs, matched, t, hasMove, low, uids).matched ==
      Record(matched, Rules(specs), FromServer(st.server[t.name], uids, st.server[t.name].uidNext), low)
  {
    hide Record; hide PerformUpTo; hide FromServer;
  }

  lemma ListsStep(st: State, specs: seq<Spec>, m0: seq<seq<nat>>, t: Target, hasMove: bool, low: char -> char,
                  uids: seq<nat>, size: nat, k: nat)
    requires |m0| == |specs| && Empty(m0) && Reachable(st.server, specs, t) && size > 0 && ServerOk(st.server)
    requires DeletedUids(st.server[t.name]) == {} && SoundTarget(t)
    requires ListsAre(st.server[t.name], specs, low, SlicesSpec(st, specs, m0, t, hasMove, low, uids, size, k).matched,
      UpToSlice(uids, size, k))
    ensures ListsAre(st.server[t.name], specs, low,
      SlicesSpec(st, specs, m0, t, hasMove, low, uids, size, k + 1).matched, UpToSlice(uids, size, k + 1))
  {
    assert t.name in st.server;
    hide *;
    var b, r, slice := st.server[t.name], SlicesSpec(st, specs, m0, t, hasMove, low, uids, size, k),
      SliceOf(uids, size, k);
    NextLists(st, specs, m0, t, hasMove, low, uids, size, k + 1);
    NextSlice(uids, size, k);
    AfterSlices(st, specs, m0, t, hasMove, low, uids, size, k);
    SliceMatched(r.st, specs, r.matched, t, hasMove, low, slice);
    SliceKeepsLists(st.server, r.st.server, t.name, MatchingSet(b, specs, low, UpToSlice(uids, size, k)),
      FirstFate(b, specs, t, low), specs,
                    r.matched, low, UpToSlice(uids, size, k), slice);
  }

  lemma NoneListed(st: State, specs: seq<Spec>, m0: seq<seq<nat>>, t: Target, hasMove: bool, low: char -> char,
                   uids: seq<nat>, size: nat)
    requires |m0| == |specs| && Empty(m0) && Reachable(st.server, specs, t) && size > 0
    ensures ListsAre(st.server[t.name], specs, low, SlicesSpec(st, specs, m0, t, hasMove, low, uids, size, 0).matched,
      UpToSlice(uids, size, 0))
  {
    NothingListed(st.server[t.name], specs, low, m0);
    SlicesBase(st, specs, m0, t, hasMove, low, uids, size);
    assert UpToSlice(uids, size, 0) == [];
    hide ListsAre; hide SlicesSpec;
  }

  /** After k slices a UID is on the list of its first match and on no other. */
  lemma {:induction false} ListsByFirstMatch(st: State, specs: seq<Spec>, m0: seq<seq<nat>>, t: Target, hasMove: bool,
                                             low: char -> char,
                                             uids: seq<nat>, size: nat, k: nat)
    requires |m0| == |specs| && Empty(m0) && Reachable(st.server, specs, t) && size > 0 && ServerOk(st.server)
    requires DeletedUids(st.server[t.name]) == {} && SoundTarget(t)
    ensures ListsAre(st.server[t.name], specs, low, SlicesSpec(st, specs, m0, t, hasMove, low, uids, size, k).matched,
      UpToSlice(uids, size, k))
  {
    hide *;
    if k == 0 {
      NoneListed(st, specs, m0, t, hasMove, low, uids, size);
    } else {
      ListsByFirstMatch(st, specs, m0, t, hasMove, low, uids, size, k - 1);
      ListsStep(st, specs, m0, t, hasMove, low, uids, size, k - 1);
    }
  }

  // ----- Cached headers -----

  /** Actions that drop the cached headers of the messages they take away. */
  predicate Uncaches(a: Action, t: Target) {
    a.MoveTo? || (a.Delete? && t.trash.Some?)
  }

  /** u is on the list of one of the first n filters whose actions drop headers. */
  ghost predicate Dropped(specs: seq<Spec>, matched: seq<seq<nat>>, t: Target, n: nat, u: nat)
    requires n <= |specs| == |matched|
  {
    exists f :: 0 <= f < n && u in matched[f] && Uncaches(specs[f].action, t)
  }

  lemma PerformNodes(st: State, a: Action, t: Target, hasMove: bool, uids: seq<nat>)
    requires ReachableOne(st.server, a, t)
    ensures forall x :: x in Perform(st, a, t, hasMove, uids).0.nodes <==>
      x in st.nodes && !(x.mailbox == t.name && x.uid in uids && Uncaches(a, t))
  {
  }

  lemma {:induction false} RoundNodes(st: State, specs: seq<Spec>, matched: seq<seq<nat>>, t: Target, hasMove: bool,
                                      n: nat)
    requires n <= |specs| == |matched| && Reachable(st.server, specs, t)
    ensures forall x :: x in PerformUpTo(st, specs, matched, t, hasMove, n).0.nodes <==>
      x in st.nodes && !(x.mailbox == t.name && Dropped(specs, matched, t, n, x.uid))
  {
    if n > 0 {
      RoundNodes(st, specs, matched, t, hasMove, n - 1);
      var before := PerformUpTo(st, specs, matched, t, hasMove, n - 1).0;
      hide Perform; hide Uncaches;
      assert forall u :: Dropped(specs, matched, t, n, u) <==>
        Dropped(specs, matched, t, n - 1, u) || (u in matched[n - 1] && Uncaches(specs[n - 1].action, t));
      hide Dropped;
      if matched[n - 1] != [] { PerformNodes(before, specs[n - 1].action, t, hasMove, matched[n - 1]); }
    }
  }

  lemma SliceNodes(st: State, specs: seq<Spec>, matched: seq<seq<nat>>, t: Target, hasMove: bool, low: char -> char,
                   uids: seq<nat>)
    requires |matched| == |specs| && Reachable(st.server, specs, t)
    ensures var r := SliceSpec(st, specs, matched, t, hasMove, low, uids);
      && (forall x :: x in r.st.nodes <==>
        x in st.nodes && !(x.mailbox == t.name && Dropped(specs, r.matched, t, |specs|, x.uid)))
      && forall u :: Dropped(specs, matched, t, |specs|, u) ==> Dropped(specs, r.matched, t, |specs|, u)
  {
    var items := FromServer(st.server[t.name], uids, st.server[t.name].uidNext);
    var found := Record(matched, Rules(specs), items, low);
    hide Record; hide PerformUpTo; hide FromServer; hide Uncaches; hide Reachable; hide Fetched;
    RoundNodes(st, specs, found, t, hasMove, |specs|);
    forall u | Dropped(specs, matched, t, |specs|, u) ensures Dropped(specs, found, t, |specs|, u) {
      var f: nat :| f < |specs| && u in matched[f] && Uncaches(specs[f].action, t);
      RecordIs(matched, Rules(specs), items, low, f, u);
    }
  }

  lemma {:induction false} SlicesNodes(st: State, specs: seq<Spec>, m0: seq<seq<nat>>, t: Target, hasMove: bool,
                                       low: char -> char, uids: seq<nat>, size: nat, k: nat)
    requires |m0| == |specs| && Empty(m0) && Reachable(st.server, specs, t) && size > 0
    ensures var r := SlicesSpec(st, specs, m0, t, hasMove, low, uids, size, k);
      forall x :: x in r.st.nodes <==>
        x in st.nodes && !(x.mailbox == t.name && Dropped(specs, r.matched, t, |specs|, x.uid))
  {
    hide SliceSpec; hide SliceOf; hide Reachable; hide Dropped;
    if k == 0 {
      NothingDropped(specs, m0, t);
    } else {
      SlicesNodes(st, specs, m0, t, hasMove, low, uids, size, k - 1);
      var r := SlicesSpec(st, specs, m0, t, hasMove, low, uids, size, k - 1);
      NextLists(st, specs, m0, t, hasMove, low, uids, size, k);
      SliceNodes(r.st, specs, r.matched, t, hasMove, low, SliceOf(uids, size, k - 1));
    }
  }

  lemma NothingDropped(specs: seq<Spec>, m0: seq<seq<nat>>, t: Target)
    requires |m0| == |specs| && Empty(m0)
    ensures forall u :: !Dropped(specs, m0, t, |specs|, u)
  {
  }

  /** Whether the first match of a requested message drops its cached header. */
  ghost predicate FirstDrops(b: Box, specs: seq<Spec>, t: Target, low: char -> char, uids: seq<nat>, u: nat) {
    Matching(b, specs, low, uids, u) && Uncaches(specs[FirstOf(b, specs, low, u)].action, t)
  }

  lemma DroppedByFirst(b: Box, specs: seq<Spec>, low: char -> char, matched: seq<seq<nat>>, uids: seq<nat>, t: Target,
                       u: nat)
    requires ListsAre(b, specs, low, matched, uids)
    ensures Dropped(specs, matched, t, |specs|, u) <==> FirstDrops(b, specs, t, low, uids, u)
  {
    hide FirstOf; hide Uncaches;
  }

  /** apply_uids drops the cached headers of the messages whose first match takes messages away, and no other. */
  lemma HeadersDropped(st: State, specs: seq<Spec>, m0: seq<seq<nat>>, t: Target, hasMove: bool, low: char -> char,
                       uids: seq<nat>, size: nat)
    requires |m0| == |specs| && Empty(m0) && Reachable(st.server, specs, t) && size > 0 && ServerOk(st.server)
    requires DeletedUids(st.server[t.name]) == {} && SoundTarget(t)
    ensures forall x :: x in ApplySpec(st, specs, m0, t, hasMove, low, uids, size).st.nodes <==>
      x in st.nodes && !(x.mailbox == t.name && FirstDrops(st.server[t.name], specs, t, low, uids, x.uid))
  {
    assert t.name in st.server;
    var n, b := SliceCount(uids, size), st.server[t.name];
    hide *;
    ApplyIs(st, specs, m0, t, hasMove, low, uids, size);
    SlicesNodes(st, specs, m0, t, hasMove, low, uids, size, n);
    AllSlices(uids, size);
    ListsByFirstMatch(st, specs, m0, t, hasMove, low, uids, size, n);
    var r := SlicesSpec(st, specs, m0, t, hasMove, low, uids, size, n);
    forall x ensures Dropped(specs, r.matched, t, |specs|, x) <==> FirstDrops(b, specs, t, low, uids, x) {
      DroppedByFirst(b, specs, low, r.matched, uids, t, x);
    }
  }

  // ----- The job for the delayed part -----

  lemma GoneWasActed(s0: Server, s: Server, src: string, acted: set<nat>, fate: nat -> Fate, u: nat)
    requires Outcome(s0, s, src, acted, fate)
    ensures src in s0 && src in s && (u in s[src].msgs ==> u in s0[src].msgs)
    ensures (u in s0[src].msgs && u !in s[src].msgs ==> u in acted)
  {
  }

  lemma ComposeGained(s0: Server, s1: Server, s2: Server, src: string, a: set<nat>, b: set<nat>, fate: nat -> Fate,
                      d: string)
    requires src in s0 && src in s1 && d in s0 && d in s1 && d in s2 && s1[src] == Without(s0[src], Leaving(a, fate))
    requires Gained(s0, s1, src, a, fate, d) && Gained(s1, s2, src, b, fate, d)
    ensures Gained(s0, s2, src, a + b, fate, d)
  {
    var more := Going(b, fate, d);
    assert Going(a + b, fate, d) == Going(a + more, fate, d);
    AddedLength(s0[src], a, fate, more, d);
    forall x ensures Held(s2[d], x) == Held(s0[d], x) + CountIn(Picked(s0[src], Going(a + b, fate, d)), x) {
      AddedPicks(s0[src], a, fate, more, d, x);
    }
    hide Held; hide CountIn; hide Picked; hide Going;
  }

  lemma Compose(s0: Server, s1: Server, s2: Server, src: string, a: set<nat>, b: set<nat>, fate: nat -> Fate)
    requires Outcome(s0, s1, src, a, fate) && Outcome(s1, s2, src, b, fate)
    ensures Outcome(s0, s2, src, a + b, fate)
  {
    assert Without(Without(s0[src], Leaving(a, fate)), Leaving(b, fate)) == Without(s0[src], Leaving(a + b, fate));
    hide Gained;
    forall d | d in s0 && d != src ensures Gained(s0, s2, src, a + b, fate, d) {
      ComposeGained(s0, s1, s2, src, a, b, fate, d);
    }
  }

  lemma SameFates(s0: Server, s: Server, src: string, acted: set<nat>, f: nat -> Fate, g: nat -> Fate)
    requires Outcome(s0, s, src, acted, f) && forall u :: u in acted ==> f(u) == g(u)
    ensures Outcome(s0, s, src, acted, g)
  {
    assert Leaving(acted, f) == Leaving(acted, g);
    forall d | d in s0 && d != src ensures Gained(s0, s, src, acted, g, d) {
      assert Gained(s0, s, src, acted, f, d);
      assert Going(acted, f, d) == Going(acted, g, d);
      hide Held; hide CountIn; hide Picked; hide Going;
    }
  }

  lemma MatchesAfter(s0: Server, s1: Server, src: string, fate: nat -> Fate, specs: seq<Spec>, low: char -> char,
                     p: seq<nat>, q: seq<nat>)
    requires src in s0 && Outcome(s0, s1, src, MatchingSet(s0[src], specs, low, p), fate)
    ensures MatchingSet(s0[src], specs, low, p + q) == MatchingSet(s0[src], specs, low, p)
      + MatchingSet(s1[src], specs, low, q)
  {
    forall u ensures u in MatchingSet(s0[src], specs, low, p + q) <==>
      u in MatchingSet(s0[src], specs, low, p) || u in MatchingSet(s1[src], specs, low, q)
    {
      GoneWasActed(s0, s1, src, MatchingSet(s0[src], specs, low, p), fate, u);
      assert u in s1[src].msgs ==> s1[src].msgs[u] == s0[src].msgs[u];
      hide First; hide Outcome;
    }
  }

  /** When nothing else happens in between, handling some UIDs now and the rest in a job with the same
      filters is one pass over all of them: the limit of a request does not change the result. */
  lemma JobFinishes(st: State, specs: seq<Spec>, m0: seq<seq<nat>>, t: Target, hasMove: bool, low: char -> char,
                    p: seq<nat>, q: seq<nat>, size: nat)
    requires |m0| == |specs| && Empty(m0) && Reachable(st.server, specs, t) && size > 0 && ServerOk(st.server)
    requires DeletedUids(st.server[t.name]) == {} && SoundTarget(t)
    ensures var mid := ApplySpec(st, specs, m0, t, hasMove, low, p, size).st;
      Reachable(mid.server, specs, t) &&
      Outcome(st.server, ApplySpec(mid, specs, m0, t, hasMove, low, q, size).st.server, t.name,
              MatchingSet(st.server[t.name], specs, low, p + q), FirstFate(st.server[t.name], specs, t, low))
  {
    var mid := ApplySpec(st, specs, m0, t, hasMove, low, p, size).st;
    var end := ApplySpec(mid, specs, m0, t, hasMove, low, q, size).st;
    var b, fate := st.server[t.name], FirstFate(st.server[t.name], specs, t, low);
    var a, c := MatchingSet(b, specs, low, p), MatchingSet(mid.server[t.name], specs, low, q);
    hide ApplySpec;
    ApplyOutcome(st, specs, m0, t, hasMove, low, p, size);
    NoneDeleted(st.server, mid.server, t.name, a, fate);
    FatesAfter(st.server, mid.server, t, a, fate, specs, low);
    assert ServerOk(mid.server);
    hide Outcome; hide MatchingSet; hide FirstFate; hide SoundTarget; hide ServerOk; hide DeletedUids;
    ApplyOutcome(mid, specs, m0, t, hasMove, low, q, size);
    SameFates(mid.server, end.server, t.name, c, FirstFate(mid.server[t.name], specs, t, low), fate);
    Compose(st.server, mid.server, end.server, t.name, a, c, fate);
    MatchesAfter(st.server, mid.server, t.name, fate, specs, low, p, q);
  }

  lemma FatesAfter(s0: Server, s1: Server, t: Target, a: set<nat>, fate: nat -> Fate, specs: seq<Spec>,
                   low: char -> char)
    requires Outcome(s0, s1, t.name, a, fate)
    ensures t.name in s0 && t.name in s1
    ensures forall u :: u in s1[t.name].msgs ==>
      FirstFate(s1[t.name], specs, t, low)(u) == FirstFate(s0[t.name], specs, t, low)(u)
  {
    hide First;
  }

  // ----- The reported count -----

  /** Entries on the first n lists. */
  function Total(matched: seq<seq<nat>>, n: nat): nat
    requires n <= |matched|
  {
    if n == 0 then 0 else Total(matched, n - 1) + |matched[n - 1]|
  }

  predicate AllAct(specs: seq<Spec>) {
    forall f :: 0 <= f < |specs| ==> !specs[f].action.OtherAction?
  }

  lemma {:induction false} ReportsAll(st: State, specs: seq<Spec>, matched: seq<seq<nat>>, t: Target, hasMove: bool,
                                      n: nat)
    requires n <= |specs| == |matched| && Reachable(st.server, specs, t) && AllAct(specs)
    ensures |PerformUpTo(st, specs, matched, t, hasMove, n).1| == Total(matched, n)
    ensures n > 0 ==>
      PerformUpTo(st, specs, matched, t, hasMove, n).1 ==
        PerformUpTo(st, specs, matched, t, hasMove, n - 1).1 + matched[n - 1]
  {
    if n > 0 { ReportsAll(st, specs, matched, t, hasMove, n - 1); }
  }

  lemma {:induction false} TotalZero(matched: seq<seq<nat>>, n: nat)
    requires n <= |matched|
    ensures Total(matched, n) == 0 <==> forall f :: 0 <= f < n ==> matched[f] == []
  {
    if n > 0 { TotalZero(matched, n - 1); }
  }

  lemma {:induction false} RecordGrows(matched: seq<seq<nat>>, rules: seq<FilterRules.Rule>, items: seq<Item>,
                                       low: char -> char, f: nat)
    requires |matched| == |rules| && f < |rules|
    ensures matched[f] <= Record(matched, rules, items, low)[f]
  {
    if items != [] { RecordGrows(matched, rules, items[..|items| - 1], low, f); }
  }

  lemma EmptyBefore(a: seq<seq<nat>>, b: seq<seq<nat>>)
    requires |a| == |b| && (forall f :: 0 <= f < |a| ==> |b[f]| >= |a[f]|) && Empty(b)
    ensures Empty(a)
  {
  }

  lemma {:induction false} NothingReported(st: State, specs: seq<Spec>, m0: seq<seq<nat>>, t: Target, hasMove: bool,
                                           low: char -> char,
                                           uids: seq<nat>, size: nat, k: nat)
    requires |m0| == |specs| && Empty(m0) && Reachable(st.server, specs, t) && size > 0 && AllAct(specs)
    ensures var r := SlicesSpec(st, specs, m0, t, hasMove, low, uids, size, k); |r.applied| == 0 <==> Empty(r.matched)
  {
    hide *;
    SlicesBase(st, specs, m0, t, hasMove, low, uids, size);
    if k > 0 {
      NextLists(st, specs, m0, t, hasMove, low, uids, size, k);
      NothingReported(st, specs, m0, t, hasMove, low, uids, size, k - 1);
      var before := SlicesSpec(st, specs, m0, t, hasMove, low, uids, size, k - 1);
      SliceReports(before.st, specs, before.matched, t, hasMove, low, SliceOf(uids, size, k - 1));
      var s := SliceSpec(before.st, specs, before.matched, t, hasMove, low, SliceOf(uids, size, k - 1));
      if Empty(s.matched) { EmptyBefore(before.matched, s.matched); }
    }
  }

  lemma SliceGrows(st: State, specs: seq<Spec>, matched: seq<seq<nat>>, t: Target, hasMove: bool, low: char -> char,
                   uids: seq<nat>)
    requires |matched| == |specs| && Reachable(st.server, specs, t)
    ensures forall f :: 0 <= f < |specs| ==>
      matched[f] <= SliceSpec(st, specs, matched, t, hasMove, low, uids).matched[f]
  {
    hide Record; hide PerformUpTo; hide FromServer;
    forall f: nat | f < |specs|
      ensures matched[f] <= SliceSpec(st, specs, matched, t, hasMove, low, uids).matched[f]
    {
      RecordGrows(matched, Rules(specs), FromServer(st.server[t.name], uids, st.server[t.name].uidNext), low, f);
    }
  }

  lemma {:induction false} SlicesKeepLists(st: State, specs: seq<Spec>, m0: seq<seq<nat>>, t: Target, hasMove: bool,
                                           low: char -> char, uids: seq<nat>, size: nat, k: nat)
    requires |m0| == |specs| && Reachable(st.server, specs, t) && size > 0
    ensures var r := SlicesSpec(st, specs, m0, t, hasMove, low, uids, size, k);
      forall f :: 0 <= f < |specs| ==> m0[f] <= r.matched[f]
  {
    hide *;
    SlicesBase(st, specs, m0, t, hasMove, low, uids, size);
    if k > 0 {
      SlicesKeepLists(st, specs, m0, t, hasMove, low, uids, size, k - 1);
      NextLists(st, specs, m0, t, hasMove, low, uids, size, k);
      var r := SlicesSpec(st, specs, m0, t, hasMove, low, uids, size, k - 1);
      SliceGrows(r.st, specs, r.matched, t, hasMove, low, SliceOf(uids, size, k - 1));
    }
  }

  /** Lists are only added to. */
  lemma ListKept(st: State, specs: seq<Spec>, m0: seq<seq<nat>>, t: Target, hasMove: bool, low: char -> char,
                 uids: seq<nat>, size: nat)
    requires |m0| == |specs| && Reachable(st.server, specs, t) && size > 0
    ensures forall f :: 0 <= f < |specs| ==>
      m0[f] <= ApplySpec(st, specs, m0, t, hasMove, low, uids, size).matched[f]
  {
    hide *;
    ApplyIs(st, specs, m0, t, hasMove, low, uids, size);
    SlicesKeepLists(st, specs, m0, t, hasMove, low, uids, size, SliceCount(uids, size));
  }

  /** As soon as there is a slice, something is reported exactly when something is listed, also from lists carried
      along; the last slice reports all lists, and a single slice nothing else. */
  lemma ReportsIff(st: State, specs: seq<Spec>, m0: seq<seq<nat>>, t: Target, hasMove: bool, low: char -> char,
                   uids: seq<nat>, size: nat)
    requires |m0| == |specs| && Reachable(st.server, specs, t) && size > 0 && AllAct(specs) && uids != []
    ensures var r := ApplySpec(st, specs, m0, t, hasMove, low, uids, size);
      && (|r.applied| == 0 <==> Empty(r.matched)) && |r.applied| >= Total(r.matched, |specs|)
      && (|uids| <= size ==> |r.applied| == Total(r.matched, |specs|))
  {
    if |uids| <= size { OneSlice(uids, size); }
    hide *;
    AllSlices(uids, size);
    ApplyIs(st, specs, m0, t, hasMove, low, uids, size);
    SlicesReport(st, specs, m0, t, hasMove, low, uids, size, SliceCount(uids, size));
  }

  lemma OneSlice(uids: seq<nat>, size: nat)
    requires 0 < |uids| <= size
    ensures SliceCount(uids, size) == 1
  {
  }

  lemma {:induction false} SlicesReport(st: State, specs: seq<Spec>, m0: seq<seq<nat>>, t: Target, hasMove: bool,
                                        low: char -> char, uids: seq<nat>, size: nat, k: nat)
    requires |m0| == |specs| && Reachable(st.server, specs, t) && size > 0 && AllAct(specs) && k > 0
    ensures var r := SlicesSpec(st, specs, m0, t, hasMove, low, uids, size, k);
      && (|r.applied| == 0 <==> Empty(r.matched)) && |r.applied| >= Total(r.matched, |specs|)
      && (k == 1 ==> |r.applied| == Total(r.matched, |specs|))
  {
    hide *;
    NextLists(st, specs, m0, t, hasMove, low, uids, size, k);
    var before := SlicesSpec(st, specs, m0, t, hasMove, low, uids, size, k - 1);
    SliceReports(before.st, specs, before.matched, t, hasMove, low, SliceOf(uids, size, k - 1));
    var s := SliceSpec(before.st, specs, before.matched, t, hasMove, low, SliceOf(uids, size, k - 1));
    if k > 1 {
      SlicesReport(st, specs, m0, t, hasMove, low, uids, size, k - 1);
    } else {
      SlicesBase(st, specs, m0, t, hasMove, low, uids, size);
    }
    if Empty(s.matched) { EmptyBefore(before.matched, s.matched); }
  }

  lemma SliceReports(st: State, specs: seq<Spec>, matched: seq<seq<nat>>, t: Target, hasMove: bool, low: char -> char,
                     uids: seq<nat>)
    requires |matched| == |specs| && Reachable(st.server, specs, t) && AllAct(specs)
    ensures var r := SliceSpec(st, specs, matched, t, hasMove, low, uids);
      && |r.applied| == Total(r.matched, |specs|) && (|r.applied| == 0 <==> Empty(r.matched))
      && forall f :: 0 <= f < |specs| ==> |r.matched[f]| >= |matched[f]|
  {
    var items := FromServer(st.server[t.name], uids, st.server[t.name].uidNext);
    var found := Record(matched, Rules(specs), items, low);
    hide Record; hide PerformUpTo; hide Total; hide FromServer;
    ReportsAll(st, specs, found, t, hasMove, |specs|);
    TotalZero(found, |specs|);
    forall f: nat | f < |specs| ensures |found[f]| >= |matched[f]| {
      RecordGrows(matched, Rules(specs), items, low, f);
    }
  }

  lemma ApplyIs(st: State, specs: seq<Spec>, m0: seq<seq<nat>>, t: Target, hasMove: bool, low: char -> char,
                uids: seq<nat>, size: nat)
    requires |m0| == |specs| && Reachable(st.server, specs, t) && size > 0
    ensures ApplySpec(st, specs, m0, t, hasMove, low, uids, size) ==
      SlicesSpec(st, specs, m0, t, hasMove, low, uids, size, SliceCount(uids, size))
  {
    hide SlicesSpec;
  }

  lemma CountAfter(st: State, specs: seq<Spec>, m0: seq<seq<nat>>, t: Target, hasMove: bool, low: char -> char,
                   uids: seq<nat>, size: nat, n: nat)
    requires |m0| == |specs| && Empty(m0) && Reachable(st.server, specs, t) && size > 0 && ServerOk(st.server)
    requires AllAct(specs)
    requires DeletedUids(st.server[t.name]) == {} && SoundTarget(t)
    ensures var r := SlicesSpec(st, specs, m0, t, hasMove, low, uids, size, n + 1);
      |r.applied| == Total(r.matched, |specs|) <==>
        MatchingSet(st.server[t.name], specs, low, UpToSlice(uids, size, n)) == {}
  {
    assert t.name in st.server;
    hide *;
    NextLists(st, specs, m0, t, hasMove, low, uids, size, n + 1);
    var before := SlicesSpec(st, specs, m0, t, hasMove, low, uids, size, n);
    SliceReports(before.st, specs, before.matched, t, hasMove, low, SliceOf(uids, size, n));
    NothingReported(st, specs, m0, t, hasMove, low, uids, size, n);
    ListsByFirstMatch(st, specs, m0, t, hasMove, low, uids, size, n);
    NoneMatched(st.server[t.name], specs, low, before.matched, UpToSlice(uids, size, n));
  }

  /** The number reported is the number of listed messages exactly when no slice but the last matches
      anything: a match is reported again after every later slice. */
  lemma CountIsRight(st: State, specs: seq<Spec>, m0: seq<seq<nat>>, t: Target, hasMove: bool, low: char -> char,
                     uids: seq<nat>, size: nat, n: nat)
    requires |m0| == |specs| && Empty(m0) && Reachable(st.server, specs, t) && size > 0 && ServerOk(st.server)
    requires AllAct(specs)
    requires DeletedUids(st.server[t.name]) == {} && SoundTarget(t) && SliceCount(uids, size) == n + 1
    ensures var r := ApplySpec(st, specs, m0, t, hasMove, low, uids, size);
      |r.applied| == Total(r.matched, |specs|) <==>
        MatchingSet(st.server[t.name], specs, low, UpToSlice(uids, size, n)) == {}
  {
    hide *;
    ApplyIs(st, specs, m0, t, hasMove, low, uids, size);
    CountAfter(st, specs, m0, t, hasMove, low, uids, size, n);
  }

  lemma NoneMatched(b: Box, specs: seq<Spec>, low: char -> char, matched: seq<seq<nat>>, seen: seq<nat>)
    requires ListsAre(b, specs, low, matched, seen)
    ensures Empty(matched) <==> MatchingSet(b, specs, low, seen) == {}
  {
    hide First;
    forall u | u in MatchingSet(b, specs, low, seen) ensures u in matched[FirstOf(b, specs, low, u)] {}
    forall f: nat | f < |matched| && matched[f] != [] ensures matched[f][0] in MatchingSet(b, specs, low, seen) {
      var u := matched[f][0];
      assert u in matched[f];
      assert Matching(b, specs, low, seen, u);
    }
  }

  function FirstUids(n: nat): (r: seq<nat>)
    ensures |r| == n && forall i :: 0 <= i < n ==> r[i] == i + 1
  {
    if n == 0 then [] else FirstUids(n - 1) + [n]
  }

  /** Message 1 matches in the first of two slices and is reported after both. */
  lemma MatchReportedTwice(hasMove: bool, low: char -> char)
    ensures var specs := [Spec(Rule(Or, [Condition(Subject, Equals, "a")]), MoveTo("b"))];
      var st := State(map["a" := Box(2, map[1 := Message(Header("", [], [], [], "a", ""), {})]), "b" := Box(1, map[])],
        []);
      var r := ApplySpec(st, specs, [[]], Target("a", false, None), hasMove, low, FirstUids(257), 256);
      |r.applied| != Total(r.matched, 1)
  {
    var condition, h := Condition(Subject, Equals, "a"), Header("", [], [], [], "a", "");
    var rule := Rule(Or, [condition]);
    var specs := [Spec(rule, MoveTo("b"))];
    var st := State(map["a" := Box(2, map[1 := Message(h, {})]), "b" := Box(1, map[])], []);
    var t, uids := Target("a", false, None), FirstUids(257);
    assert Texts(h, Subject)[0] == "a" && TextMatches(condition, "a", low);
    assert ConditionMatches(condition, h, low);
    assert rule.conditions[0] == condition && RuleMatches(rule, h, low);
    var rules := Rules(specs);
    assert rules[0] == specs[0].rule == rule;
    var seen := UpToSlice(uids, 256, 1);
    assert seen == uids[..256] && seen[0] == 1;
    var b := st.server["a"];
    assert b.msgs[1].header == h;
    assert Matching(b, specs, low, seen, 1);
    assert 1 in MatchingSet(b, specs, low, seen);
    assert SliceCount(uids, 256) == 2;
    hide ApplySpec; hide Matching; hide First; hide FirstUids; hide UpToSlice; hide SliceCount;
    CountIsRight(st, specs, [[]], t, hasMove, low, uids, 256, 1);
  }
}
