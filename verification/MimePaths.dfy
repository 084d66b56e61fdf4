/** Parts of a message named by the path to them, and what a walk finds, told on paths. */
module MimePaths {
  import opened MimeTree

  /** Child i of a multipart, or the message inside a message/rfc822 part. */
  predicate IsStep(p: Part, i: nat) {
    if IsMultipart(p) then i < |Parts(p)| else p.kind.Embedded? && i == 0
  }

  function Steps(p: Part): nat {
    if IsMultipart(p) then |Parts(p)| else if p.kind.Embedded? then 1 else 0
  }

  function Child(p: Part, i: nat): (c: Part)
    requires IsStep(p, i)
    ensures c < p
  {
    if IsMultipart(p) then Parts(p)[i] else p.kind.message
  }

  predicate IsPath(p: Part, path: seq<nat>)
    decreases |path|
  {
    path == [] || (IsStep(p, path[0]) && IsPath(Child(p, path[0]), path[1..]))
  }

  function At(p: Part, path: seq<nat>): Part
    requires IsPath(p, path)
    decreases |path|
  {
    if path == [] then p else At(Child(p, path[0]), path[1..])
  }

  /** Multiparts above the parts directly inside p; a message/rfc822 part starts counting again. */
  function Inside(p: Part, lv: nat): nat {
    if IsMultipart(p) then lv + 1 else 0
  }

  /** Multiparts above the end of the path within its message, when lv are above p. */
  function Above(p: Part, lv: nat, path: seq<nat>): nat
    requires IsPath(p, path)
    decreases |path|
  {
    if path == [] then lv else Above(Child(p, path[0]), Inside(p, lv), path[1..])
  }

  lemma {:induction false} PrefixIsPath(p: Part, path: seq<nat>, j: nat)
    requires IsPath(p, path) && j <= |path|
    ensures IsPath(p, path[..j])
    decreases |path|
  {
    if j > 0 {
      PrefixIsPath(Child(p, path[0]), path[1..], j - 1);
      assert path[..j][1..] == path[1..][..j - 1];
    }
  }

  /** What a walk takes and where it goes on, by the part and the number of multiparts above it. */
  datatype Walk = Walk(takes: (Part, nat) -> bool, opens: (Part, nat) -> bool)

  /** The walk takes the part at the end of the path, and goes on at every part on the way. */
  ghost predicate Found(p: Part, lv: nat, path: seq<nat>, w: Walk) {
    && IsPath(p, path) && w.takes(At(p, path), Above(p, lv, path))
    && forall j :: 0 <= j < |path| ==> Opened(p, lv, path, j, w)
  }

  ghost predicate Opened(p: Part, lv: nat, path: seq<nat>, j: nat, w: Walk)
    requires IsPath(p, path) && j < |path|
  {
    PrefixIsPath(p, path, j);
    w.opens(At(p, path[..j]), Above(p, lv, path[..j]))
  }

  /** Message order: a part comes before those inside it, otherwise the first step that differs decides. */
  ghost predicate PathLess(a: seq<nat>, b: seq<nat>) {
    exists k :: 0 <= k <= |a| && k < |b| && a[..k] == b[..k] && (k == |a| || a[k] < b[k])
  }

  ghost predicate Ascends(paths: seq<seq<nat>>) {
    forall i, j :: 0 <= i < j < |paths| ==> PathLess(paths[i], paths[j])
  }

  /** The paths of everything the walk takes, in message order. */
  ghost predicate AllFound(p: Part, lv: nat, w: Walk, paths: seq<seq<nat>>) {
    Ascends(paths) && forall path :: path in paths <==> Found(p, lv, path, w)
  }

  lemma OpenedStep(p: Part, lv: nat, path: seq<nat>, j: nat, w: Walk)
    requires path != [] && IsPath(p, path) && j + 1 < |path|
    ensures Opened(p, lv, path, j + 1, w) <==> Opened(Child(p, path[0]), Inside(p, lv), path[1..], j, w)
  {
    PrefixIsPath(p, path, j + 1);
    assert path[..j + 1][1..] == path[1..][..j];
  }

  /** What is found through a child is found there. */
  lemma FoundStep(p: Part, lv: nat, path: seq<nat>, w: Walk)
    requires path != [] && IsStep(p, path[0])
    ensures Found(p, lv, path, w) <==>
      w.opens(p, lv) && Found(Child(p, path[0]), Inside(p, lv), path[1..], w)
  {
    var c, next, rest := Child(p, path[0]), Inside(p, lv), path[1..];
    if IsPath(p, path) {
      assert Opened(p, lv, path, 0, w) <==> w.opens(p, lv);
      hide Opened; hide Above;
      if Found(p, lv, path, w) {
        forall j | 0 <= j < |rest| ensures Opened(c, next, rest, j, w) {
          assert Opened(p, lv, path, j + 1, w);
          OpenedStep(p, lv, path, j, w);
        }
      }
      if w.opens(p, lv) && Found(c, next, rest, w) {
        forall j | 1 <= j < |path| ensures Opened(p, lv, path, j, w) {
          assert Opened(c, next, rest, j - 1, w);
          OpenedStep(p, lv, path, j - 1, w);
        }
      }
    }
  }

  /** The paths below child i, continued from p. */
  ghost function Via(i: nat, paths: seq<seq<nat>>): (r: seq<seq<nat>>)
    ensures |r| == |paths| && forall k :: 0 <= k < |r| ==> r[k] == [i] + paths[k]
  {
    if paths == [] then [] else Via(i, paths[..|paths| - 1]) + [[i] + paths[|paths| - 1]]
  }

  /** The walk as a recursion. */
  ghost function Gathered(p: Part, lv: nat, w: Walk): seq<seq<nat>>
    decreases p, Steps(p) + 1
  {
    (if w.takes(p, lv) then [[]] else []) + if w.opens(p, lv) then GatheredFirst(p, lv, w, Steps(p)) else []
  }

  ghost function GatheredFirst(p: Part, lv: nat, w: Walk, n: nat): seq<seq<nat>>
    requires n <= Steps(p)
    decreases p, n
  {
    if n == 0 then []
    else GatheredFirst(p, lv, w, n - 1) + Via(n - 1, Gathered(Child(p, n - 1), Inside(p, lv), w))
  }

  lemma LessVia(i: nat, a: seq<nat>, b: seq<nat>)
    requires PathLess(a, b)
    ensures PathLess([i] + a, [i] + b)
  {
    var k :| 0 <= k <= |a| && k < |b| && a[..k] == b[..k] && (k == |a| || a[k] < b[k]);
    assert ([i] + a)[..k + 1] == [i] + a[..k] && ([i] + b)[..k + 1] == [i] + b[..k];
  }

  lemma LessFirst(a: seq<nat>, b: seq<nat>)
    requires b != [] && (a == [] || a[0] < b[0])
    ensures PathLess(a, b)
  {
    assert a[..0] == b[..0];
  }

  ghost predicate Through(n: nat, paths: seq<seq<nat>>) {
    forall i :: 0 <= i < |paths| ==> paths[i] != [] && paths[i][0] < n
  }

  /** Paths through child n come after those through the children before it. */
  lemma AscendsVia(n: nat, paths: seq<seq<nat>>, more: seq<seq<nat>>)
    requires Ascends(paths) && Ascends(more) && Through(n, paths)
    ensures Ascends(paths + Via(n, more)) && Through(n + 1, paths + Via(n, more))
  {
    var all := paths + Via(n, more);
    hide PathLess;
    forall i, j | 0 <= i < j < |all| ensures PathLess(all[i], all[j]) {
      if j >= |paths| {
        if i < |paths| { LessFirst(all[i], all[j]); } else { LessVia(n, more[i - |paths|], more[j - |paths|]); }
      }
    }
  }

  lemma AscendsSelf(paths: seq<seq<nat>>, n: nat)
    requires Ascends(paths) && Through(n, paths)
    ensures Ascends([[]] + paths)
  {
    var all := [[]] + paths;
    hide PathLess;
    forall i, j | 0 <= i < j < |all| ensures PathLess(all[i], all[j]) {
      if i == 0 { LessFirst(all[i], all[j]); }
    }
  }

  lemma {:induction false} GatheredIn(p: Part, lv: nat, w: Walk)
    ensures AllFound(p, lv, w, Gathered(p, lv, w))
    decreases p, Steps(p) + 1
  {
    var below, n := GatheredFirst(p, lv, w, Steps(p)), Steps(p);
    GatheredFirstIn(p, lv, w, n);
    hide *;
    GatheredIs(p, lv, w);
    OwnFirst(w.takes(p, lv), w.opens(p, lv), below, n, Gathered(p, lv, w));
    forall path ensures path in Gathered(p, lv, w) <==> Found(p, lv, path, w) { FoundIs(p, lv, path, w); }
    AllFoundIs(p, lv, w, Gathered(p, lv, w));
  }

  lemma AllFoundIs(p: Part, lv: nat, w: Walk, paths: seq<seq<nat>>)
    requires Ascends(paths) && forall path :: path in paths <==> Found(p, lv, path, w)
    ensures AllFound(p, lv, w, paths)
  {
    hide Ascends; hide Found;
  }

  lemma GatheredIs(p: Part, lv: nat, w: Walk)
    ensures Gathered(p, lv, w) ==
      (if w.takes(p, lv) then [[]] else []) + if w.opens(p, lv) then GatheredFirst(p, lv, w, Steps(p)) else []
  {
  }

  /** The part itself, if taken, before what is found below it. */
  lemma OwnFirst(takes: bool, opens: bool, below: seq<seq<nat>>, n: nat, r: seq<seq<nat>>)
    requires r == (if takes then [[]] else []) + if opens then below else []
    requires Ascends(below) && Through(n, below)
    ensures Ascends(r) && forall path :: path in r <==> (path == [] && takes) || (path in below && opens)
  {
    AscendsSelf(below, n);
    NothingAscends();
    hide *;
    if takes {
      if opens { assert r == [[]] + below; } else { assert r == [[]]; }
    } else {
      if opens { assert r == below; } else { assert r == []; }
    }
  }

  lemma NothingAscends()
    ensures Ascends([]) && Ascends([[]])
  {
  }

  /** A path is empty, or goes through a child. */
  lemma FoundIs(p: Part, lv: nat, path: seq<nat>, w: Walk)
    ensures Found(p, lv, path, w) <==>
      (path == [] && w.takes(p, lv)) || (InFirst(p, lv, path, w, Steps(p)) && w.opens(p, lv))
  {
    if path != [] && IsStep(p, path[0]) { FoundStep(p, lv, path, w); }
  }

  /** Found through one of the first n children. */
  ghost predicate InFirst(p: Part, lv: nat, path: seq<nat>, w: Walk, n: nat)
    requires n <= Steps(p)
  {
    path != [] && path[0] < n && Found(Child(p, path[0]), Inside(p, lv), path[1..], w)
  }

  lemma NextFirst(p: Part, lv: nat, path: seq<nat>, w: Walk, n: nat, before: seq<seq<nat>>, more: seq<seq<nat>>)
    requires 0 < n <= Steps(p) && (path in before <==> InFirst(p, lv, path, w, n - 1))
    requires AllFound(Child(p, n - 1), Inside(p, lv), w, more)
    ensures path in before + Via(n - 1, more) <==> InFirst(p, lv, path, w, n)
  {
    InVia(n - 1, more, path);
    hide Ascends; hide Found; hide Child; hide Inside;
  }

  /** The paths through the first n children, whether or not the walk goes on at p. */
  lemma {:induction false} GatheredFirstIn(p: Part, lv: nat, w: Walk, n: nat)
    requires n <= Steps(p)
    ensures Ascends(GatheredFirst(p, lv, w, n)) && Through(n, GatheredFirst(p, lv, w, n))
    ensures forall path :: path in GatheredFirst(p, lv, w, n) <==> InFirst(p, lv, path, w, n)
    decreases p, n
  {
    hide PathLess; hide Found; hide Gathered;
    if n > 0 {
      var before, more := GatheredFirst(p, lv, w, n - 1), Gathered(Child(p, n - 1), Inside(p, lv), w);
      GatheredFirstIn(p, lv, w, n - 1);
      GatheredIn(Child(p, n - 1), Inside(p, lv), w);
      assert GatheredFirst(p, lv, w, n) == before + Via(n - 1, more);
      hide *;
      GatheredAscends(p, lv, w, n, before, more);
      forall path ensures path in before + Via(n - 1, more) <==> InFirst(p, lv, path, w, n) {
        NextFirst(p, lv, path, w, n, before, more);
      }
    }
  }

  lemma GatheredAscends(p: Part, lv: nat, w: Walk, n: nat, before: seq<seq<nat>>, more: seq<seq<nat>>)
    requires 0 < n <= Steps(p) && Ascends(before) && Through(n - 1, before)
    requires AllFound(Child(p, n - 1), Inside(p, lv), w, more)
    ensures Ascends(before + Via(n - 1, more)) && Through(n, before + Via(n - 1, more))
  {
    assert Ascends(more);
    hide *;
    AscendsVia(n - 1, before, more);
  }

  lemma InVia(i: nat, paths: seq<seq<nat>>, path: seq<nat>)
    ensures path in Via(i, paths) <==> path != [] && path[0] == i && path[1..] in paths
  {
    if path in Via(i, paths) {
      var k :| 0 <= k < |paths| && Via(i, paths)[k] == path;
      assert path[1..] == paths[k];
    }
    if path != [] && path[0] == i && path[1..] in paths {
      var k :| 0 <= k < |paths| && paths[k] == path[1..];
      assert Via(i, paths)[k] == path;
    }
  }
}
