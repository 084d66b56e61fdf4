/** The IMAP server's mailboxes: UIDs are handed out upwards and never reused (section 2.3.1.1 of RFC 3501),
    commands ignore UIDs that do not exist (section 6.4.8). */
module MailServer {

  datatype Flag = Seen | Deleted | Flagged | Answered | Keyword(name: string)

  /** The header data a listing shows. `rest` stands for date, size, priority and the other columns
      that are stored as they are. */
  datatype Header = Header(from: string, to: seq<string>, cc: seq<string>, bcc: seq<string>, subject: string,
    rest: string)

  datatype Message = Message(header: Header, flags: set<Flag>)

  datatype Box = Box(uidNext: nat, msgs: map<nat, Message>)

  type Server = map<string, Box>

  ghost predicate BoxOk(b: Box) {
    b.uidNext >= 1 && forall u :: u in b.msgs ==> 1 <= u < b.uidNext
  }

  ghost predicate ServerOk(s: Server) {
    forall x :: x in s ==> BoxOk(s[x])
  }

  /** Messages with UIDs below n, in UID order. */
  function InOrder(msgs: map<nat, Message>, n: nat): seq<Message> {
    if n == 0 then [] else InOrder(msgs, n - 1) + if n - 1 in msgs then [msgs[n - 1]] else []
  }

  function Selected(b: Box, uids: set<nat>): map<nat, Message> {
    map u | u in b.msgs && u in uids :: b.msgs[u]
  }

  function Without(b: Box, uids: set<nat>): Box {
    b.(msgs := map u | u in b.msgs && u !in uids :: b.msgs[u])
  }

  /** APPEND, or the receiving side of COPY and MOVE. */
  function Deliver(b: Box, ms: seq<Message>): Box {
    if ms == [] then b else DeliverOne(Deliver(b, ms[..|ms| - 1]), ms[|ms| - 1])
  }

  function DeliverOne(b: Box, m: Message): Box {
    Box(b.uidNext + 1, b.msgs[b.uidNext := m])
  }

  function Picked(b: Box, uids: set<nat>): seq<Message> {
    InOrder(Selected(b, uids), b.uidNext)
  }

  /** UID COPY */
  function UidCopy(s: Server, src: string, dst: string, uids: set<nat>): Server
    requires src in s && dst in s
  {
    s[dst := Deliver(s[dst], Picked(s[src], uids))]
  }

  /** UID STORE +FLAGS or -FLAGS */
  function UidStore(s: Server, box: string, uids: set<nat>, add: set<Flag>, remove: set<Flag>): Server
    requires box in s
  {
    s[box := s[box].(msgs := map u | u in s[box].msgs ::
                         if u in uids then s[box].msgs[u].(flags := s[box].msgs[u].flags + add - remove)
                           else s[box].msgs[u])]
  }

  function DeletedUids(b: Box): set<nat> {
    set u | u in b.msgs && Deleted in b.msgs[u].flags
  }

  /** EXPUNGE */
  function Expunge(s: Server, box: string): Server
    requires box in s
  {
    s[box := Without(s[box], DeletedUids(s[box]))]
  }

  /** UID MOVE (section 3.3 of RFC 6851) */
  function UidMove(s: Server, src: string, dst: string, uids: set<nat>): Server
    requires src in s && dst in s && src != dst
  {
    UidCopy(s, src, dst, uids)[src := Without(s[src], uids)]
  }

  /** STORE \Deleted, then EXPUNGE, which also removes messages flagged earlier. */
  function StoreExpunge(s: Server, box: string, uids: set<nat>): Server
    requires box in s
  {
    Expunge(UidStore(s, box, uids, {Deleted}, {}), box)
  }

  lemma StoreExpungeIs(s: Server, box: string, uids: set<nat>)
    requires box in s
    ensures StoreExpunge(s, box, uids) == s[box := Without(s[box], uids + DeletedUids(s[box]))]
  {
    var mid := UidStore(s, box, uids, {Deleted}, {});
    assert mid[box].msgs.Keys == s[box].msgs.Keys;
    assert forall u :: u in s[box].msgs ==> (u in DeletedUids(mid[box]) <==> u in uids + DeletedUids(s[box]));
    assert Without(mid[box], DeletedUids(mid[box])).msgs == Without(s[box], uids + DeletedUids(s[box])).msgs;
  }

  // ----- Contents -----

  /** How often a message occurs below n. */
  ghost function Occurs(msgs: map<nat, Message>, n: nat, x: Message): nat {
    if n == 0 then 0 else Occurs(msgs, n - 1, x) + if n - 1 in msgs && msgs[n - 1] == x then 1 else 0
  }

  /** How often a mailbox holds a message. */
  ghost function Held(b: Box, x: Message): nat {
    Occurs(b.msgs, b.uidNext, x)
  }

  ghost function CountIn(ms: seq<Message>, x: Message): nat {
    if ms == [] then 0 else CountIn(ms[..|ms| - 1], x) + if ms[|ms| - 1] == x then 1 else 0
  }

  lemma {:induction false} CountAppend(a: seq<Message>, b: seq<Message>, x: Message)
    ensures CountIn(a + b, x) == CountIn(a, x) + CountIn(b, x)
  {
    if b == [] {
      assert a + b == a;
    } else {
      assert (a + b)[..|a + b| - 1] == a + b[..|b| - 1];
      CountAppend(a, b[..|b| - 1], x);
    }
  }

  lemma {:induction false} CountInOrder(msgs: map<nat, Message>, n: nat, x: Message)
    ensures CountIn(InOrder(msgs, n), x) == Occurs(msgs, n, x)
  {
    if n > 0 {
      CountInOrder(msgs, n - 1, x);
      if n - 1 in msgs {
        var ms := InOrder(msgs, n);
        assert ms[..|ms| - 1] == InOrder(msgs, n - 1);
      } else {
        assert InOrder(msgs, n) == InOrder(msgs, n - 1);
      }
    }
  }

  lemma {:induction false} OccursSplit(a: map<nat, Message>, b: map<nat, Message>, n: nat, x: Message)
    requires a.Keys !! b.Keys
    ensures Occurs(a + b, n, x) == Occurs(a, n, x) + Occurs(b, n, x)
  {
    if n > 0 { OccursSplit(a, b, n - 1, x); }
  }

  lemma {:induction false} OccursSame(a: map<nat, Message>, b: map<nat, Message>, n: nat, x: Message)
    requires forall u :: u < n ==> (u in a <==> u in b) && (u in a ==> a[u] == b[u])
    ensures Occurs(a, n, x) == Occurs(b, n, x)
  {
    if n > 0 { OccursSame(a, b, n - 1, x); }
  }

  lemma RemoveOne(msgs: map<nat, Message>, u: nat)
    requires u in msgs
    ensures |msgs - {u}| == |msgs| - 1
  {
    assert (msgs - {u}).Keys == msgs.Keys - {u};
    assert |(msgs - {u}).Keys| == |msgs.Keys| - 1;
  }

  lemma NoKeys(msgs: map<nat, Message>)
    requires forall u :: u !in msgs
    ensures |msgs| == 0
  {
    assert msgs.Keys == {};
  }

  lemma {:induction false} InOrderSize(msgs: map<nat, Message>, n: nat)
    requires forall u :: u in msgs ==> u < n
    ensures |InOrder(msgs, n)| == |msgs|
  {
    if n == 0 {
      NoKeys(msgs);
    } else if n - 1 in msgs {
      var less := msgs - {n - 1};
      RemoveOne(msgs, n - 1);
      InOrderSize(less, n - 1);
      InOrderSame(msgs, less, n - 1);
    } else {
      InOrderSize(msgs, n - 1);
    }
  }

  lemma {:induction false} InOrderSame(a: map<nat, Message>, b: map<nat, Message>, n: nat)
    requires forall u :: u < n ==> (u in a <==> u in b) && (u in a ==> a[u] == b[u])
    ensures InOrder(a, n) == InOrder(b, n)
  {
    if n > 0 { InOrderSame(a, b, n - 1); }
  }

  /** A delivery keeps what was there and keeps UIDs below UIDNEXT. */
  lemma {:induction false} DeliverKeeps(b: Box, ms: seq<Message>)
    requires BoxOk(b)
    ensures BoxOk(Deliver(b, ms)) && Deliver(b, ms).uidNext == b.uidNext + |ms|
    ensures forall u :: u < b.uidNext ==> (u in Deliver(b, ms).msgs <==> u in b.msgs)
    ensures forall u :: u in b.msgs ==> Deliver(b, ms).msgs[u] == b.msgs[u]
  {
    if ms != [] { DeliverKeeps(b, ms[..|ms| - 1]); }
  }

  /** A delivery adds exactly the delivered messages. */
  lemma {:induction false} DeliverAdds(b: Box, ms: seq<Message>, x: Message)
    requires BoxOk(b)
    ensures Held(Deliver(b, ms), x) == Held(b, x) + CountIn(ms, x)
  {
    if ms != [] {
      var init := ms[..|ms| - 1];
      DeliverKeeps(b, init);
      DeliverAdds(b, init, x);
      OccursSame(Deliver(b, ms).msgs, Deliver(b, init).msgs, Deliver(b, init).uidNext, x);
    }
  }

  /** What is taken out and what stays make up the whole. */
  lemma TakeOut(b: Box, uids: set<nat>, x: Message)
    ensures Held(Without(b, uids), x) + CountIn(Picked(b, uids), x) == Held(b, x)
  {
    var a, c := Without(b, uids).msgs, Selected(b, uids);
    assert a + c == b.msgs;
    OccursSplit(a, c, b.uidNext, x);
    CountInOrder(c, b.uidNext, x);
  }
}
