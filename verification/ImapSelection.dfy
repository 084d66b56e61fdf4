/** Which mailbox the connection believes to be open. */
module ImapSelection {
  // A command that fails raises before the fields are set; on the server a failed SELECT or EXAMINE leaves
  // no mailbox selected (section 6.3.1 of RFC 3501).
  import opened Wrappers

  datatype Event = Open(mailbox: string, readOnly: bool, ok: bool) | Close(ok: bool)

  class Connection {
    var selectedMailbox: Option<string>
    var examinedMailbox: Option<string>
    ghost var events: seq<Event>

    constructor ()
      ensures selectedMailbox == None && examinedMailbox == None && events == []
    {
      selectedMailbox, examinedMailbox, events := None, None, [];
    }

    /** At most one field is set, and it says what the successful commands last opened. */
    ghost predicate Valid()
      reads this
    {
      (selectedMailbox == None || examinedMailbox == None) && Tracked() == Believed(events)
    }

    function Tracked(): Option<string>
      reads this
    {
      if selectedMailbox.Some? then selectedMailbox else examinedMailbox
    }

    predicate IsOpened(mailbox: string)
      reads this
    {
      selectedMailbox == Some(mailbox) || examinedMailbox == Some(mailbox)
    }

    /** select; false stands for the error raised. */
    method Select(mailbox: string, serverAccepts: bool) returns (ok: bool)
      requires Valid()
      modifies this
      ensures Valid() && ok == serverAccepts && events == old(events) + [Open(mailbox, false, ok)]
    {
      ok := serverAccepts;
      events := events + [Open(mailbox, false, ok)];
      assert events[..|events| - 1] == old(events);
      if ok { selectedMailbox, examinedMailbox := Some(mailbox), None; }
    }

    method Examine(mailbox: string, serverAccepts: bool) returns (ok: bool)
      requires Valid()
      modifies this
      ensures Valid() && ok == serverAccepts && events == old(events) + [Open(mailbox, true, ok)]
    {
      ok := serverAccepts;
      events := events + [Open(mailbox, true, ok)];
      assert events[..|events| - 1] == old(events);
      if ok { selectedMailbox, examinedMailbox := None, Some(mailbox); }
    }

    method CloseMailbox(serverAccepts: bool) returns (ok: bool)
      requires Valid()
      modifies this
      ensures Valid() && ok == serverAccepts && events == old(events) + [Close(ok)]
    {
      ok := serverAccepts;
      events := events + [Close(ok)];
      assert events[..|events| - 1] == old(events);
      if ok { selectedMailbox, examinedMailbox := None, None; }
    }

    /** examine(mailbox) unless opened?(mailbox), as every read does first. */
    method ExamineUnlessOpened(mailbox: string, serverAccepts: bool) returns (ok: bool)
      requires Valid()
      modifies this
      ensures Valid() && (ok ==> Believed(events) == Some(mailbox))
      ensures events == if Believed(old(events)) == Some(mailbox) then old(events)
        else old(events) + [Open(mailbox, true, serverAccepts)]
    {
      ok := true;
      if !IsOpened(mailbox) {
        ok := Examine(mailbox, serverAccepts);
        assert events[..|events| - 1] == old(events);
      }
    }
  }

  /** The mailbox the successful commands last opened. */
  function Believed(events: seq<Event>): Option<string> {
    if events == [] then None
    else
      match events[|events| - 1]
      case Open(m, _, ok) => if ok then Some(m) else Believed(events[..|events| - 1])
      case Close(ok) => if ok then None else Believed(events[..|events| - 1])
  }

  /** The mailbox selected on the server. */
  function Selected(events: seq<Event>): Option<string> {
    if events == [] then None
    else
      match events[|events| - 1]
      case Open(m, _, ok) => if ok then Some(m) else None
      case Close(ok) => if ok then None else Selected(events[..|events| - 1])
  }

  /** An open that failed while a mailbox was believed open, with no success of any kind since. */
  ghost predicate FailedSince(events: seq<Event>) {
    exists i :: 0 <= i < |events| && events[i].Open? && !events[i].ok && Believed(events[..i]).Some? &&
                forall j :: i < j < |events| ==> !events[j].ok
  }

  lemma {:induction false} NoSuccessKeepsBelief(events: seq<Event>, i: nat)
    requires i <= |events| && forall j :: i <= j < |events| ==> !events[j].ok
    ensures Believed(events) == Believed(events[..i])
    decreases |events|
  {
    if i < |events| {
      var init := events[..|events| - 1];
      NoSuccessKeepsBelief(init, i);
      assert init[..i] == events[..i];
    } else {
      assert events[..i] == events;
    }
  }

  lemma FailedStep(events: seq<Event>)
    requires events != []
    ensures var init, last := events[..|events| - 1], events[|events| - 1];
      FailedSince(events) <==> !last.ok && (FailedSince(init) || (last.Open? && Believed(init).Some?))
  {
    var n := |events| - 1;
    var init, last := events[..n], events[n];
    if FailedSince(init) && !last.ok {
      var i :| 0 <= i < |init| && init[i].Open? && !init[i].ok && Believed(init[..i]).Some?
        && forall j :: i < j < |init| ==> !init[j].ok;
      assert events[i] == init[i] && events[..i] == init[..i];
      assert forall j :: i < j < |events| ==> !events[j].ok;
    }
    if FailedSince(events) {
      var i :| 0 <= i < |events| && events[i].Open? && !events[i].ok && Believed(events[..i]).Some?
        && forall j :: i < j < |events| ==> !events[j].ok;
      if i < n {
        assert init[i] == events[i] && init[..i] == events[..i];
        assert forall j :: i < j < |init| ==> init[j] == events[j];
      }
    }
  }

  /** After every run of commands the connection knows the selected mailbox, except exactly when opening a
      mailbox failed while another was open and nothing has succeeded since: then a read of that other
      mailbox is sent although none is selected. */
  lemma {:induction false} BeliefIsRight(events: seq<Event>)
    ensures Believed(events) == Selected(events) <==> !FailedSince(events)
    ensures FailedSince(events) ==> Believed(events).Some? && Selected(events) == None
  {
    if events != [] {
      var init := events[..|events| - 1];
      BeliefIsRight(init);
      FailedStep(events);
      hide FailedSince;
    }
  }

  /** With a open, b fails to open: the connection believes in a, and nothing is selected. */
  lemma FailedOpenForgotten()
    ensures var events := [Open("a", true, true), Open("b", true, false)];
      Believed(events) == Some("a") && Selected(events) == None
  {
    var events := [Open("a", true, true), Open("b", true, false)];
    assert events[..1] == [Open("a", true, true)] && events[..1][..0] == [];
  }
}
