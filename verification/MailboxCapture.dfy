/** A rename that takes a reference along twice. */
module MailboxCapture {
  import opened MailboxForest
  import opened MailboxNames
  import opened MailboxRename
  import opened MailboxTree
  import opened Text
  import opened Wrappers

  /** Mailbox A.b with A.b.b, A.b.b.c and A.b.c below it; there is no mailbox A. */
  function FourBoxes(): map<nat, Row> {
    map[1 := Row("A.b", "b"), 2 := Row("A.b.b", "b"), 3 := Row("A.b.b.c", "c"), 4 := Row("A.b.c", "c")]
  }

  lemma OnePiece(s: string)
    requires |s| == 1 && s[0] != '.'
    ensures WellNamed(s, '.') && AncestorName(s, '.') == ""
  {
    Indivisible(s, '.');
    AncestorEmpty(s, '.');
  }

  lemma OneBelow(a: string, s: string)
    requires WellNamed(a, '.') && |s| == 1 && s[0] != '.'
    ensures WellNamed(a + "." + s, '.') && AncestorName(a + "." + s, '.') == a
  {
    OnePiece(s);
    AncestorBelow(a, s, '.');
    hide AncestorName; hide WellNamed;
  }

  lemma FourTexts()
    ensures "A" + "." + "b" == "A.b" && "A.b" + "." + "b" == "A.b.b"
    ensures "A.b.b" + "." + "c" == "A.b.b.c" && "A.b" + "." + "c" == "A.b.c"
  {
  }

  lemma FourNames()
    ensures WellNamed("A.b", '.') && WellNamed("A.b.b", '.') && WellNamed("A.b.b.c", '.') && WellNamed("A.b.c", '.')
    ensures AncestorName("A.b", '.') == "A" && AncestorName("A.b.b", '.') == "A.b"
    ensures AncestorName("A.b.b.c", '.') == "A.b.b" && AncestorName("A.b.c", '.') == "A.b"
  {
    hide *;
    FourTexts();
    OnePiece("A");
    OneBelow("A", "b");
    OneBelow("A.b", "b");
    OneBelow("A.b.b", "c");
    OneBelow("A.b", "c");
  }

  lemma FourIndexed(x: string)
    ensures var i := IndexBy(FourBoxes(), [1, 2, 3, 4], x);
      && (x == "A.b" ==> i == Some(1)) && (x == "A.b.b" ==> i == Some(2)) && (x == "A" ==> i == None)
  {
    var order := [1, 2, 3, 4];
    assert order[..3] == [1, 2, 3] && [1, 2, 3][..2] == [1, 2] && [1, 2][..1] == [1] && [1][..0] == [];
    assert "A.b"[0] == 'A' && |"A.b"| == 3 && |"A.b.b"| == 5 && |"A.b.b.c"| == 7 && |"A.b.c"| == 5 && |"A"| == 1;
    assert "A.b.b"[4] == 'b' && "A.b.c"[4] == 'c';
  }

  lemma FourParents()
    ensures ParentOf(FourBoxes(), [1, 2, 3, 4], 1, '.') == None
    ensures ParentOf(FourBoxes(), [1, 2, 3, 4], 2, '.') == Some(1)
    ensures ParentOf(FourBoxes(), [1, 2, 3, 4], 3, '.') == Some(2)
    ensures ParentOf(FourBoxes(), [1, 2, 3, 4], 4, '.') == Some(1)
  {
    hide IndexBy; hide AncestorName; hide WellNamed;
    FourNames();
    FourIndexed("A");
    FourIndexed("A.b");
    FourIndexed("A.b.b");
  }

  lemma FourLinks()
    ensures ForestOf(FourBoxes(), [1, 2, 3, 4], '.').par == map[2 := 1, 3 := 2, 4 := 1]
  {
    hide ParentOf;
    FourParents();
    assert FourBoxes().Keys == {1, 2, 3, 4};
  }

  ghost predicate IsKid(f: Forest, c: nat, top: nat) {
    c in f.par && f.par[c] == top
  }

  lemma KidsNext(f: Forest, order: seq<nat>, k: nat, top: nat)
    requires k < |order|
    ensures IsKid(f, order[k], top) ==> ChildIds(f, order[..k + 1], top) == ChildIds(f, order[..k], top) + [order[k]]
    ensures !IsKid(f, order[k], top) ==> ChildIds(f, order[..k + 1], top) == ChildIds(f, order[..k], top)
  {
    assert order[..k + 1][..k] == order[..k];
  }

  lemma KidsOfFour(f: Forest, order: seq<nat>, top: nat)
    requires |order| == 4 && !IsKid(f, order[0], top)
    requires IsKid(f, order[1], top) ==> !IsKid(f, order[2], top)
    requires IsKid(f, order[3], top) ==> IsKid(f, order[1], top)
    ensures ChildIds(f, order, top) ==
      if IsKid(f, order[1], top) then if IsKid(f, order[3], top) then [order[1], order[3]] else [order[1]]
      else if IsKid(f, order[2], top) then [order[2]] else []
  {
    assert ChildIds(f, order[..0], top) == [];
    hide *;
    KidsNext(f, order, 0, top);
    KidsNext(f, order, 1, top);
    KidsNext(f, order, 2, top);
    KidsNext(f, order, 3, top);
    assert order[..4] == order;
  }

  lemma FourKids(f: Forest)
    requires f.par == map[2 := 1, 3 := 2, 4 := 1]
    ensures ChildIds(f, [1, 2, 3, 4], 1) == [2, 4] && ChildIds(f, [1, 2, 3, 4], 2) == [3]
    ensures ChildIds(f, [1, 2, 3, 4], 3) == [] && ChildIds(f, [1, 2, 3, 4], 4) == []
  {
    hide ChildIds;
    KidsOfFour(f, [1, 2, 3, 4], 1);
    KidsOfFour(f, [1, 2, 3, 4], 2);
    KidsOfFour(f, [1, 2, 3, 4], 3);
    KidsOfFour(f, [1, 2, 3, 4], 4);
  }

  lemma NoKids(f: Forest, order: seq<nat>, id: nat)
    requires Sound(f) && id in f.below && ChildIds(f, order, id) == []
    ensures TreeOf(f, order, id) == Tree(id, [])
  {
  }

  lemma OneKid(f: Forest, order: seq<nat>, id: nat, k: nat)
    requires Sound(f) && id in f.below && k in f.below && ChildIds(f, order, id) == [k]
    ensures TreeOf(f, order, id) == Tree(id, [TreeOf(f, order, k)])
  {
    assert k in ChildIds(f, order, id);
    TreesAt(f, order, [k], id, 0);
  }

  lemma TwoKids(f: Forest, order: seq<nat>, id: nat, k: nat, l: nat)
    requires Sound(f) && id in f.below && k in f.below && l in f.below && ChildIds(f, order, id) == [k, l]
    ensures TreeOf(f, order, id) == Tree(id, [TreeOf(f, order, k), TreeOf(f, order, l)])
  {
    assert k in ChildIds(f, order, id) && l in ChildIds(f, order, id);
    TreesAt(f, order, [k, l], id, 0);
    TreesAt(f, order, [k, l], id, 1);
  }

  lemma FourWell()
    ensures AllWellNamed(FourBoxes(), '.')
  {
    FourNames();
    hide WellNamed;
  }

  function FourTree(): Tree {
    Tree(1, [Tree(2, [Tree(3, [])]), Tree(4, [])])
  }

  lemma FourLoaded()
    ensures AllWellNamed(FourBoxes(), '.') && LoadedTree(FourBoxes(), [1, 2, 3, 4], 1, '.') == FourTree()
  {
    var rows, order := FourBoxes(), [1, 2, 3, 4];
    var f := ForestOf(rows, order, '.');
    assert rows.Keys == {1, 2, 3, 4} && f.below.Keys == {1, 2, 3, 4};
    FourWell();
    hide ForestOf; hide AllWellNamed; hide ChildIds; hide TreeOf; hide Sound;
    ForestSound(rows, order, '.');
    FourLinks();
    FourKids(f);
    NoKids(f, order, 3);
    NoKids(f, order, 4);
    OneKid(f, order, 2, 3);
    TwoKids(f, order, 1, 2, 4);
  }

  lemma FourWalk()
    ensures Walk(FourTree(), {1, 2, 3, 4}) == [1, 2, 3, 4]
  {
    var ok: set<nat> := {1, 2, 3, 4};
    assert Walk(Tree(3, []), ok) == [3] && Walk(Tree(4, []), ok) == [4];
    assert WalkUpTo(Tree(2, [Tree(3, [])]), 0, ok) == [];
    assert Walk(Tree(2, [Tree(3, [])]), ok) == [2, 3];
    assert WalkUpTo(FourTree(), 0, ok) == [] && WalkUpTo(FourTree(), 1, ok) == [2, 3];
    assert WalkUpTo(FourTree(), 2, ok) == [2, 3, 4];
  }

  lemma FourFollowed()
    ensures Follow(FourBoxes(), [1, 2, 3, 4], "A.b.b.c", "A.b", "A", '.') == "A.c"
    ensures RenamePath("A.b.b.c", "A.b", "A", '.') == "A.b.c"
  {
    var rows := FourBoxes();
    assert [1, 2, 3, 4][..3] == [1, 2, 3] && [1, 2, 3][..2] == [1, 2] && [1, 2][..1] == [1] && [1][..0] == [];
    ShortenedOnce();
    hide RenamePath;
    assert Follow(rows, [1], "A.b.b.c", "A.b", "A", '.') == "A.b.b.c";
    assert Follow(rows, [1, 2], "A.b.b.c", "A.b", "A", '.') == "A.b.b.c";
    assert Follow(rows, [1, 2, 3], "A.b.b.c", "A.b", "A", '.') == "A.b.c";
  }

  lemma ShortenedOnce()
    ensures RenamePath("A.b.b.c", "A.b", "A", '.') == "A.b.c" && RenamePath("A.b.c", "A.b", "A", '.') == "A.c"
    ensures |"A.b.b.c"| == 7 && |"A.b.b"| == 5 && |"A.b"| == 3 && |"A.b.c"| == 5
  {
    assert "A.b.b.c"[..3] == "A.b" && "A.b.b.c"[3..] == ".b.c" && "A" + ".b.c" == "A.b.c";
    assert "A.b.c"[..3] == "A.b" && "A.b.c"[3..] == ".c" && "A" + ".c" == "A.c";
  }

  /** Renaming A.b to A moves A.b.b.c to A.b.c on the server, but a filter on it ends up on A.c: the row of the old
      A.b.c is saved after that of A.b.b.c and takes along what has just come to its name. */
  lemma CapturedOnTheWay()
    ensures AllWellNamed(FourBoxes(), '.') && RenamePath("A.b.b.c", "A.b", "A", '.') == "A.b.c"
    ensures var p, t := Picture(FourBoxes(), [Filter(true, "A.b.b.c")], [], FourBoxes()),
      LoadedTree(FourBoxes(), [1, 2, 3, 4], 1, '.');
      Ids(t) <= p.rows.Keys && RenameSpec(p, t, "A", '.').filters == [Filter(true, "A.c")]
  {
    hide *;
    var p := Picture(FourBoxes(), [Filter(true, "A.b.b.c")], [], FourBoxes());
    FourLoaded();
    FourFollowed();
    FourWalk();
    FourOk(p);
    FourReady(p);
    var q := RenameEffect(p, [1, 2, 3, 4], 1, "A", '.');
    OneFilter(p, q, p.rows, [1, 2, 3, 4], "A.b", "A", '.');
  }

  lemma OneFilter(p: Picture, q: Picture, rows: map<nat, Row>, walk: seq<nat>, was: string, name: string, d: char)
    requires SameKeys(p, rows) && Effect(p, q, rows, walk, was, name, d) && |p.filters| == 1
    ensures q.filters == [p.filters[0].(mailboxName := Follow(rows, walk, p.filters[0].mailboxName, was, name, d))]
  {
    hide Follow;
  }

  lemma FourReady(p: Picture)
    requires p.rows == p.mem == FourBoxes()
    ensures FreshLoad(p, 1) && Lists([1, 2, 3, 4], p.rows) && !Blank("A") && p.rows[1].name == "A.b" && "A" != "A.b"
  {
    assert !IsSpace("A"[0]) && p.rows.Keys == {1, 2, 3, 4} && |"A"| != |"A.b"|;
  }

  lemma FourOk(p: Picture)
    requires p.mem == FourBoxes()
    ensures Ok(p) == {1, 2, 3, 4}
  {
    assert "b"[0] == 'b' && "c"[0] == 'c' && !IsSpace('b') && !IsSpace('c');
    assert ValidTitle("b") && ValidTitle("c");
    hide ValidTitle;
    assert FourBoxes().Keys == {1, 2, 3, 4};
  }
}
