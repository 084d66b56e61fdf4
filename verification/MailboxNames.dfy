/** Mailbox names: delimiter-separated paths, the parent a path names, and the prefix rewrite that a rename performs
    on a name and everything below it. */
module MailboxNames {

  /** The pieces between delimiters, empty ones included. */
  function SplitAll(s: string, d: char): (r: seq<string>)
    ensures |r| >= 1
  {
    if s == "" then [""]
    else
      var rest := SplitAll(s[1..], d);
      if s[0] == d then [""] + rest else [[s[0]] + rest[0]] + rest[1..]
  }

  function DropTrailingEmpty(xs: seq<string>): (r: seq<string>)
    ensures xs != [] && xs[|xs| - 1] != "" ==> r == xs
  {
    if xs != [] && xs[|xs| - 1] == "" then DropTrailingEmpty(xs[..|xs| - 1]) else xs
  }

  /** Ruby's String#split, which forgets trailing empty pieces. */
  function Split(s: string, d: char): seq<string> {
    DropTrailingEmpty(SplitAll(s, d))
  }

  function Join(xs: seq<string>, d: char): string {
    if xs == [] then "" else if |xs| == 1 then xs[0] else xs[0] + [d] + Join(xs[1..], d)
  }

  /** All pieces but the last, joined again; the empty string when there is no parent. */
  function AncestorName(s: string, d: char): string {
    var names := Split(s, d);
    if names == [] then "" else Join(names[..|names| - 1], d)
  }

  /** INBOX in any letter case. */
  predicate IsInbox(s: string) {
    |s| == 5 && s[0] in {'I', 'i'} && s[1] in {'N', 'n'} && s[2] in {'B', 'b'} && s[3] in {'O', 'o'}
      && s[4] in {'X', 'x'}
  }

  /** No empty segment. */
  ghost predicate WellNamed(s: string, d: char) {
    forall i :: 0 <= i < |SplitAll(s, d)| ==> SplitAll(s, d)[i] != ""
  }

  /** `name` is `top` itself or lies below it. */
  predicate Under(name: string, top: string, d: char) {
    |top| <= |name| && name[..|top|] == top && (|name| == |top| || name[|top|] == d)
  }

  /** The anchored substitution of a leading `old` that ends at a delimiter or at the end. */
  function RenamePath(name: string, oldName: string, newName: string, d: char): string {
    if Under(name, oldName, d) then newName + name[|oldName|..] else name
  }

  lemma {:induction false} SplitConcat(a: string, b: string, d: char)
    ensures SplitAll(a + [d] + b, d) == SplitAll(a, d) + SplitAll(b, d)
  {
    if a == "" {
      assert (a + [d] + b)[1..] == b;
    } else {
      assert (a + [d] + b)[1..] == a[1..] + [d] + b;
      SplitConcat(a[1..], b, d);
    }
  }

  lemma {:induction false} JoinSplit(s: string, d: char)
    ensures Join(SplitAll(s, d), d) == s
  {
    if s != "" {
      JoinSplit(s[1..], d);
      var rest := SplitAll(s[1..], d);
      if s[0] == d {
        assert ([""] + rest)[1..] == rest;
      } else {
        assert SplitAll(s, d)[1..] == rest[1..];
      }
    }
  }

  lemma {:induction false} JoinConcat(xs: seq<string>, ys: seq<string>, d: char)
    requires xs != [] && ys != []
    ensures Join(xs + ys, d) == Join(xs, d) + [d] + Join(ys, d)
  {
    if |xs| == 1 {
      assert (xs + ys)[1..] == ys;
    } else {
      assert (xs + ys)[1..] == xs[1..] + ys;
      JoinConcat(xs[1..], ys, d);
    }
  }

  /** A well-formed name has a parent that is well-formed and strictly shorter, or none. */
  lemma AncestorOf(s: string, d: char)
    requires WellNamed(s, d)
    ensures var a := AncestorName(s, d);
      && |a| < |s|
      && (|SplitAll(s, d)| == 1 ==> a == "")
      && (|SplitAll(s, d)| > 1 ==>
           && a != ""
           && SplitAll(a, d) == SplitAll(s, d)[..|SplitAll(s, d)| - 1]
           && WellNamed(a, d)
           && s == a + [d] + SplitAll(s, d)[|SplitAll(s, d)| - 1])
  {
    var xs := SplitAll(s, d);
    assert Split(s, d) == xs;
    JoinSplit(s, d);
    if |xs| > 1 {
      var a := Join(xs[..|xs| - 1], d);
      assert xs == xs[..|xs| - 1] + xs[|xs| - 1..];
      JoinConcat(xs[..|xs| - 1], xs[|xs| - 1..], d);
      assert s == a + [d] + xs[|xs| - 1];
      SplitConcat(a, xs[|xs| - 1], d);
      PieceHasNoDelim(s, |xs| - 1, d);
      Indivisible(xs[|xs| - 1], d);
      assert SplitAll(a, d) + [xs[|xs| - 1]] == xs;
      assert SplitAll(a, d) == xs[..|xs| - 1];
      assert SplitAll(a, d)[0] == xs[0] != "";
    }
  }

  lemma {:induction false} PieceHasNoDelim(s: string, i: nat, d: char)
    requires i < |SplitAll(s, d)|
    ensures d !in SplitAll(s, d)[i]
  {
    if s != "" {
      var rest := SplitAll(s[1..], d);
      if s[0] == d {
        if i > 0 { PieceHasNoDelim(s[1..], i - 1, d); }
      } else {
        PieceHasNoDelim(s[1..], i, d);
      }
    }
  }

  lemma {:induction false} Indivisible(s: string, d: char)
    requires d !in s
    ensures SplitAll(s, d) == [s]
  {
    if s != "" {
      Indivisible(s[1..], d);
      assert [s[0]] + s[1..] == s;
    }
  }

  lemma WellNamedConcat(a: string, s: string, d: char)
    ensures SplitAll(a + [d] + s, d) == SplitAll(a, d) + SplitAll(s, d)
    ensures WellNamed(a + [d] + s, d) <==> WellNamed(a, d) && WellNamed(s, d)
  {
    SplitConcat(a, s, d);
    var upper, lower := SplitAll(a, d), SplitAll(s, d);
    assert forall i :: 0 <= i < |lower| ==> (upper + lower)[|upper| + i] == lower[i];
    assert forall i :: 0 <= i < |upper| ==> (upper + lower)[i] == upper[i];
  }

  /** The parent of a well-formed name is the join of all its pieces but the last. */
  lemma AncestorIsJoin(s: string, d: char)
    requires WellNamed(s, d)
    ensures AncestorName(s, d) == Join(SplitAll(s, d)[..|SplitAll(s, d)| - 1], d)
  {
    assert Split(s, d) == SplitAll(s, d);
    hide SplitAll; hide Join;
  }

  lemma AncestorEmpty(s: string, d: char)
    requires WellNamed(s, d)
    ensures AncestorName(s, d) == "" <==> |SplitAll(s, d)| == 1
  {
    AncestorOf(s, d);
  }

  /** The parent of a path below `a` is found inside the lower part. */
  lemma AncestorBelow(a: string, s: string, d: char)
    requires WellNamed(a, d) && WellNamed(s, d)
    ensures WellNamed(a + [d] + s, d)
    ensures AncestorName(a + [d] + s, d) ==
      if AncestorName(s, d) == "" then a else a + [d] + AncestorName(s, d)
  {
    hide *;
    var upper, lower := SplitAll(a, d), SplitAll(s, d);
    WellNamedConcat(a, s, d);
    var xs := upper + lower;
    AncestorIsJoin(a + [d] + s, d);
    AncestorIsJoin(s, d);
    AncestorEmpty(s, d);
    JoinSplit(a, d);
    if |lower| == 1 {
      assert xs[..|xs| - 1] == upper;
    } else {
      assert xs[..|xs| - 1] == upper + lower[..|lower| - 1];
      JoinConcat(upper, lower[..|lower| - 1], d);
    }
  }

  /** Splits a name below `top` into `top`, a delimiter and a well-formed rest. */
  lemma UnderRest(x: string, top: string, d: char)
    requires WellNamed(x, d) && WellNamed(top, d) && Under(x, top, d) && x != top
    ensures |x| > |top| + 1 && x == top + [d] + x[|top| + 1..] && WellNamed(x[|top| + 1..], d)
    ensures Under(AncestorName(x, d), top, d)
    ensures AncestorName(x, d) != ""
  {
    var s := x[|top| + 1..];
    assert x == top + [d] + s;
    WellNamedConcat(top, s, d);
    assert SplitAll(s, d)[0] != "" && SplitAll(top, d)[0] != "";
    AncestorBelow(top, s, d);
  }

  /** Being under a parent's name from outside means being the name or under the parent's child. */
  lemma UnderAncestor(x: string, top: string, d: char)
    requires WellNamed(x, d) && Under(AncestorName(x, d), top, d) && top != ""
    ensures Under(x, top, d)
  {
    AncestorOf(x, d);
  }

  lemma UnderTransitive(x: string, y: string, z: string, d: char)
    requires Under(x, y, d) && Under(y, z, d)
    ensures Under(x, z, d)
  {
    assert x[..|z|] == y[..|z|];
  }

  lemma Tails(x: string, k: string, n: nat)
    requires |k| <= |x| && x[..|k|] == k && n <= |k|
    ensures k[n..] + x[|k|..] == x[n..]
  {
    assert x == k + x[|k|..];
  }

  /** Renaming in two hops, through a name below the top, is renaming once. */
  lemma RenameThrough(x: string, k: string, oldName: string, newName: string, d: char)
    requires Under(x, k, d) && Under(k, oldName, d)
    ensures RenamePath(x, k, RenamePath(k, oldName, newName, d), d) == RenamePath(x, oldName, newName, d)
  {
    UnderTransitive(x, k, oldName, d);
    assert |k| <= |x| && x[..|k|] == k && |oldName| <= |k|;
    var once := RenamePath(k, oldName, newName, d);
    assert once == newName + k[|oldName|..];
    assert RenamePath(x, k, once, d) == once + x[|k|..];
    assert RenamePath(x, oldName, newName, d) == newName + x[|oldName|..];
    hide Under; hide RenamePath;
    Tails(x, k, |oldName|);
    assert once + x[|k|..] == newName + (k[|oldName|..] + x[|k|..]);
  }

  lemma RenamedIsUnder(x: string, oldName: string, newName: string, d: char)
    requires Under(x, oldName, d)
    ensures Under(RenamePath(x, oldName, newName, d), newName, d)
    ensures (RenamePath(x, oldName, newName, d) == x) == (oldName == newName)
  {
    var r := RenamePath(x, oldName, newName, d);
    assert x == oldName + x[|oldName|..];
    if r == x { assert |oldName| == |newName| && x[..|oldName|] == r[..|newName|]; }
  }

  /** Two siblings share no descendants. */
  lemma SiblingsApart(x: string, k1: string, k2: string, d: char)
    requires WellNamed(k1, d) && WellNamed(k2, d)
    requires AncestorName(k1, d) == AncestorName(k2, d)
    requires Under(x, k1, d) && Under(x, k2, d)
    ensures k1 == k2
  {
    if |k1| == |k2| {
      assert k1 == x[..|k1|] == k2;
    } else {
      var lo, hi := if |k1| < |k2| then k1 else k2, if |k1| < |k2| then k2 else k1;
      assert hi[..|lo|] == x[..|lo|] == lo && hi[|lo|] == x[|lo|];
      assert Under(hi, lo, d);
      UnderRest(hi, lo, d);
      AncestorOf(lo, d);
    }
  }
}
