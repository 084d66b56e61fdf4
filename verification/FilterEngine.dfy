/** Applying filters to a list of UIDs in slices: each message goes to its first matching filter, and each filter
    acts after every slice on everything it has matched so far. */
module FilterEngine {
  import opened CacheTable
  import opened Collections
  import opened FilterRules
  import opened HeaderCache
  import opened MailMoves
  import opened MailServer
  import opened MailStore
  import opened Wrappers

  const NUMBER_OF_SLICE_UIDS: nat := 256

  datatype Action = MoveTo(mailbox: string) | Delete | OtherAction

  datatype Spec = Spec(rule: Rule, action: Action)

  /** The mailbox filters are applied to, with trash_box?, and the user's trash. */
  datatype Target = Target(name: string, inTrash: bool, trash: Option<string>)

  class Filter {
    const spec: Spec
    var matchedUids: seq<nat>

    constructor (spec: Spec)
      ensures this.spec == spec && matchedUids == []
    {
      this.spec, matchedUids := spec, [];
    }
  }

  datatype State = State(server: Server, nodes: seq<Node>)

  /** Mailboxes the actions name exist, so no command fails. */
  predicate Reachable(s: Server, specs: seq<Spec>, t: Target) {
    && t.name in s
    && (t.trash.Some? ==> t.trash.value in s)
    && forall i :: 0 <= i < |specs| && specs[i].action.MoveTo? ==> specs[i].action.mailbox in s
  }

  predicate ReachableOne(s: Server, a: Action, t: Target) {
    t.name in s && (t.trash.Some? ==> t.trash.value in s) && (a.MoveTo? ==> a.mailbox in s)
  }

  /** perform_action: the store it leaves and the UIDs it reports. */
  function Perform(st: State, a: Action, t: Target, hasMove: bool, uids: seq<nat>): (State, seq<nat>)
    requires ReachableOne(st.server, a, t)
  {
    match a
    case MoveTo(m) => (State(MoveAll(st.server, hasMove, t.name, m, uids).0, DeleteNodes(st.nodes, t.name, uids)), uids)
    case Delete =>
      if t.trash.None? then (st, uids)
      else (State(TrashAll(st.server, hasMove, t.name, t.inTrash, t.trash.value, uids).0,
        DeleteNodes(st.nodes, t.name, uids)), uids)
    case OtherAction => (st, [])
  }

  /** Adds each fetched message to the list of its first matching filter. */
  function Record(matched: seq<seq<nat>>, rules: seq<Rule>, items: seq<Item>, low: char -> char): (r: seq<seq<nat>>)
    requires |matched| == |rules|
    ensures |r| == |rules|
  {
    if items == [] then matched
    else
      var before, it := Record(matched, rules, items[..|items| - 1], low), items[|items| - 1];
      var k := First(rules, it.header, low);
      if k < |rules| then before[k := before[k] + [it.uid]] else before
  }

  function Rules(specs: seq<Spec>): (r: seq<Rule>)
    ensures |r| == |specs| && forall i :: 0 <= i < |specs| ==> r[i] == specs[i].rule
  {
    if specs == [] then [] else [specs[0].rule] + Rules(specs[1..])
  }

  lemma PerformKeys(st: State, a: Action, t: Target, hasMove: bool, uids: seq<nat>)
    requires ReachableOne(st.server, a, t)
    ensures Perform(st, a, t, hasMove, uids).0.server.Keys == st.server.Keys
  {
  }

  /** The first n filters act on their lists. */
  function PerformUpTo(st: State, specs: seq<Spec>, matched: seq<seq<nat>>, t: Target, hasMove: bool,
                       n: nat): (r: (State, seq<nat>))
    requires n <= |specs| == |matched| && Reachable(st.server, specs, t)
    ensures r.0.server.Keys == st.server.Keys
  {
    if n == 0 then (st, [])
    else
      var (before, applied) := PerformUpTo(st, specs, matched, t, hasMove, n - 1);
      if matched[n - 1] == [] then (before, applied)
      else
        PerformKeys(before, specs[n - 1].action, t, hasMove, matched[n - 1]);
        var (after, done) := Perform(before, specs[n - 1].action, t, hasMove, matched[n - 1]);
        (after, applied + done)
  }

  /** Store, match lists and reported UIDs after one slice. */
  datatype Result = Result(st: State, matched: seq<seq<nat>>, applied: seq<nat>)

  function SliceSpec(st: State, specs: seq<Spec>, matched: seq<seq<nat>>, t: Target, hasMove: bool, low: char -> char,
                     uids: seq<nat>): (r: Result)
    requires |matched| == |specs| && Reachable(st.server, specs, t)
    ensures |r.matched| == |specs| && r.st.server.Keys == st.server.Keys
  {
    var items := FromServer(st.server[t.name], uids, st.server[t.name].uidNext);
    var found := Record(matched, Rules(specs), items, low);
    var (after, applied) := PerformUpTo(st, specs, found, t, hasMove, |specs|);
    Result(after, found, applied)
  }

  /** The first k slices of the given size. */
  function SlicesSpec(st: State, specs: seq<Spec>, matched: seq<seq<nat>>, t: Target, hasMove: bool, low: char -> char,
                      uids: seq<nat>, size: nat, k: nat): (r: Result)
    requires |matched| == |specs| && Reachable(st.server, specs, t) && size > 0
    ensures |r.matched| == |specs| && r.st.server.Keys == st.server.Keys
  {
    if k == 0 then Result(st, matched, [])
    else
      var before := SlicesSpec(st, specs, matched, t, hasMove, low, uids, size, k - 1);
      var after := SliceSpec(before.st, specs, before.matched, t, hasMove, low, SliceOf(uids, size, k - 1));
      after.(applied := before.applied + after.applied)
  }

  lemma SlicesBase(st: State, specs: seq<Spec>, m0: seq<seq<nat>>, t: Target, hasMove: bool, low: char -> char,
                   uids: seq<nat>, size: nat)
    requires |m0| == |specs| && Reachable(st.server, specs, t) && size > 0
    ensures SlicesSpec(st, specs, m0, t, hasMove, low, uids, size, 0) == Result(st, m0, [])
  {
  }

  /** One more slice. */
  lemma NextLists(st: State, specs: seq<Spec>, m0: seq<seq<nat>>, t: Target, hasMove: bool, low: char -> char,
                  uids: seq<nat>, size: nat, k: nat)
    requires |m0| == |specs| && Reachable(st.server, specs, t) && size > 0 && k > 0
    ensures var r := SlicesSpec(st, specs, m0, t, hasMove, low, uids, size, k - 1);
      Reachable(r.st.server, specs, t) &&
      var s := SliceSpec(r.st, specs, r.matched, t, hasMove, low, SliceOf(uids, size, k - 1));
      SlicesSpec(st, specs, m0, t, hasMove, low, uids, size, k) == s.(applied := r.applied + s.applied)
  {
    hide SliceSpec; hide SliceOf;
  }

  /** Slice number k of consecutive slices of the given size. */
  function SliceOf(uids: seq<nat>, size: nat, k: nat): seq<nat> {
    var lo, hi := k * size, k * size + size;
    if lo > |uids| then [] else if hi > |uids| then uids[lo..] else uids[lo..hi]
  }

  function SliceCount(uids: seq<nat>, size: nat): nat
    requires size > 0
  {
    (|uids| + size - 1) / size
  }

  function ApplySpec(st: State, specs: seq<Spec>, matched: seq<seq<nat>>, t: Target, hasMove: bool, low: char -> char,
                     uids: seq<nat>, size: nat): (r: Result)
    requires |matched| == |specs| && Reachable(st.server, specs, t) && size > 0
    ensures |r.matched| == |specs| && r.st.server.Keys == st.server.Keys
  {
    SlicesSpec(st, specs, matched, t, hasMove, low, uids, size, SliceCount(uids, size))
  }

  // ----- The methods -----

  ghost function Specs(filters: seq<Filter>): (r: seq<Spec>)
    ensures |r| == |filters| && forall i :: 0 <= i < |filters| ==> r[i] == filters[i].spec
  {
    if filters == [] then [] else Specs(filters[..|filters| - 1]) + [filters[|filters| - 1].spec]
  }

  ghost function Matched(filters: seq<Filter>): (r: seq<seq<nat>>)
    reads filters
    ensures |r| == |filters| && forall i :: 0 <= i < |filters| ==> r[i] == filters[i].matchedUids
  {
    if filters == [] then [] else Matched(filters[..|filters| - 1]) + [filters[|filters| - 1].matchedUids]
  }

  method Add(filters: seq<Filter>, i: nat, uid: nat)
    requires NoRepeats(filters) && i < |filters|
    modifies filters
    ensures Matched(filters) == old(Matched(filters))[i := old(Matched(filters))[i] + [uid]]
  {
    hide Matched;
    filters[i].matchedUids := filters[i].matchedUids + [uid];
  }

  /** The loop over filters with its break. */
  method Select(filters: seq<Filter>, it: Item, low: char -> char)
    requires NoRepeats(filters)
    modifies filters
    ensures var k := First(Rules(Specs(filters)), it.header, low);
      Matched(filters) == if k < |filters| then old(Matched(filters))[k := old(Matched(filters))[k] + [it.uid]]
        else old(Matched(filters))
  {
    hide RuleMatches; hide First; hide Rules; hide Matched;
    var i := 0;
    ghost var rules := Rules(Specs(filters));
    while i < |filters|
      invariant i <= |filters| && Matched(filters) == old(Matched(filters))
      invariant forall j :: 0 <= j < i ==> !RuleMatches(rules[j], it.header, low)
    {
      if RuleMatches(filters[i].spec.rule, it.header, low) {
        FirstIs(rules, it.header, low, i);
        Add(filters, i, it.uid);
        return;
      }
      i := i + 1;
    }
    FirstIs(rules, it.header, low, i);
  }

  lemma FirstIs(rules: seq<Rule>, h: Header, low: char -> char, i: nat)
    requires i <= |rules| && (forall j :: 0 <= j < i ==> !RuleMatches(rules[j], h, low))
    requires i < |rules| ==> RuleMatches(rules[i], h, low)
    ensures First(rules, h, low) == i
  {
  }

  method PerformAction(session: Session, a: Action, t: Target, uids: seq<nat>) returns (done: seq<nat>)
    requires ReachableOne(session.server, a, t)
    modifies session
    ensures (State(session.server, session.nodes), done) ==
      Perform(State(old(session.server), old(session.nodes)), a, t, session.hasMove, uids)
  {
    done := uids;
    match a {
      case MoveTo(m) => var num := session.MoveMails(t.name, m, uids);
      case Delete =>
        if t.trash.Some? { var num := session.TrashMails(t.name, t.inTrash, t.trash.value, uids); }
      case OtherAction => done := [];
    }
  }

  method SelectAll(filters: seq<Filter>, mails: seq<Item>, low: char -> char)
    requires NoRepeats(filters)
    modifies filters
    ensures Matched(filters) == Record(old(Matched(filters)), Rules(Specs(filters)), mails, low)
  {
    hide First; hide NoRepeats;
    for k := 0 to |mails|
      invariant Matched(filters) == Record(old(Matched(filters)), Rules(Specs(filters)), mails[..k], low)
    {
      assert mails[..k + 1][..k] == mails[..k];
      Select(filters, mails[k], low);
    }
    assert mails[..|mails|] == mails;
  }

  method PerformAll(filters: seq<Filter>, session: Session, t: Target) returns (applied: seq<nat>)
    requires Reachable(session.server, Specs(filters), t)
    modifies session
    ensures (State(session.server, session.nodes), applied) ==
      PerformUpTo(State(old(session.server), old(session.nodes)), Specs(filters), Matched(filters), t, session.hasMove,
        |filters|)
  {
    ghost var specs, found, st := Specs(filters), Matched(filters), State(session.server, session.nodes);
    applied := [];
    for k := 0 to |filters|
      invariant Matched(filters) == found
      invariant (State(session.server, session.nodes), applied) == PerformUpTo(st, specs, found, t, session.hasMove, k)
    {
      hide Perform; hide Matched; hide Specs;
      if |filters[k].matchedUids| > 0 {
        var done := PerformAction(session, filters[k].spec.action, t, filters[k].matchedUids);
        applied := applied + done;
      }
    }
  }

  /** apply_uids_for_each_slice */
  method ApplySlice(filters: seq<Filter>, session: Session, t: Target, low: char -> char, uids: seq<nat>)
    returns (applied: seq<nat>)
    requires NoRepeats(filters) && Reachable(session.server, Specs(filters), t)
    modifies filters, session
    ensures Result(State(session.server, session.nodes), Matched(filters), applied) ==
      SliceSpec(State(old(session.server), old(session.nodes)), Specs(filters), old(Matched(filters)), t,
        session.hasMove, low, uids)
  {
    hide Record; hide PerformUpTo; hide Matched; hide Specs;
    var mails := FromServer(session.server[t.name], uids, session.server[t.name].uidNext);
    SelectAll(filters, mails, low);
    applied := PerformAll(filters, session, t);
  }

  /** apply_uids */
  method ApplyUids(filters: seq<Filter>, session: Session, t: Target, low: char -> char, uids: seq<nat>)
    returns (applied: seq<nat>)
    requires NoRepeats(filters) && Reachable(session.server, Specs(filters), t)
    modifies filters, session
    ensures Result(State(session.server, session.nodes), Matched(filters), applied) ==
      ApplySpec(State(old(session.server), old(session.nodes)), Specs(filters), old(Matched(filters)), t,
        session.hasMove, low, uids,
                NUMBER_OF_SLICE_UIDS)
  {
    ghost var specs, matched, st := Specs(filters), Matched(filters), State(session.server, session.nodes);
    applied := [];
    for k := 0 to SliceCount(uids, NUMBER_OF_SLICE_UIDS)
      invariant Result(State(session.server, session.nodes), Matched(filters), applied) ==
        SlicesSpec(st, specs, matched, t, session.hasMove, low, uids, NUMBER_OF_SLICE_UIDS, k)
    {
      hide SliceSpec; hide SliceOf;
      assert Reachable(session.server, specs, t);
      var done := ApplySlice(filters, session, t, low, SliceOf(uids, NUMBER_OF_SLICE_UIDS, k));
      applied := applied + done;
    }
  }
}
