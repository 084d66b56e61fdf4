/** The forest that make_tree links. */
module MailboxForest {
  // From the names of the loaded rows to parent links and trees, and which rows a recursive save from one of them
  // reaches. Names may repeat; then children hang on the row that is listed last.
  import opened Collections
  import opened MailboxNames
  import opened MailboxTree
  import opened Wrappers

  // ----- From names to a forest and a tree -----

  ghost predicate AllWellNamed(rows: map<nat, Row>, d: char) {
    forall i :: i in rows ==> WellNamed(rows[i].name, d)
  }

  ghost predicate UniqueNames(rows: map<nat, Row>) {
    forall i, j :: i in rows && j in rows && rows[i].name == rows[j].name ==> i == j
  }

  /** Mailbox names are unique and have no empty segment. */
  ghost predicate WellFormed(rows: map<nat, Row>, d: char) {
    AllWellNamed(rows, d) && UniqueNames(rows)
  }

  /** `order` lists every row once. */
  ghost predicate Lists(order: seq<nat>, rows: map<nat, Row>) {
    NoRepeats(order) && forall c :: c in rows ==> c in order
  }

  /** The row an index by name finds: of rows with the same name the last one listed. */
  ghost function IndexBy(rows: map<nat, Row>, order: seq<nat>, x: string): (r: Option<nat>)
    ensures r.Some? ==> r.value in rows && r.value in order && rows[r.value].name == x
    ensures r.None? ==> forall i :: i in order && i in rows ==> rows[i].name != x
  {
    if order == [] then None
    else
      var last := order[|order| - 1];
      assert order == order[..|order| - 1] + [last];
      if last in rows && rows[last].name == x then Some(last) else IndexBy(rows, order[..|order| - 1], x)
  }

  /** Children of mailboxes of this name are linked to row y. */
  ghost predicate IsIndexed(rows: map<nat, Row>, order: seq<nat>, y: nat) {
    y in rows && IndexBy(rows, order, rows[y].name) == Some(y)
  }

  ghost function ParentOf(rows: map<nat, Row>, order: seq<nat>, c: nat, d: char): Option<nat>
    requires c in rows
  {
    IndexBy(rows, order, AncestorName(rows[c].name, d))
  }

  /** Parent links, and the rows below each row. */
  datatype Forest = Forest(par: map<nat, nat>, below: map<nat, set<nat>>)

  ghost predicate Sound(f: Forest) {
    && (forall x :: x in f.below ==> x in f.below[x])
    && (forall c :: c in f.par ==>
          c in f.below && f.par[c] in f.below && f.below[c] <= f.below[f.par[c]] && f.par[c] !in f.below[c])
    && (forall b, c :: b in f.par && c in f.par && b != c && f.par[b] == f.par[c] ==> f.below[b] !! f.below[c])
  }

  /** make_tree links a row to the row its parent name finds. */
  ghost function ForestOf(rows: map<nat, Row>, order: seq<nat>, d: char): Forest {
    Forest(map c | c in rows && ParentOf(rows, order, c, d).Some? :: ParentOf(rows, order, c, d).value,
           map y | y in rows :: set x | x in rows && (x == y || (IsIndexed(rows, order, y) && Below(rows, x, y, d))))
  }

  ghost predicate Below(rows: map<nat, Row>, x: nat, y: nat, d: char) {
    x in rows && y in rows && rows[x].name != rows[y].name && Under(rows[x].name, rows[y].name, d)
  }

  lemma ParentFacts(rows: map<nat, Row>, order: seq<nat>, c: nat, d: char)
    requires AllWellNamed(rows, d) && c in rows && ParentOf(rows, order, c, d).Some?
    ensures var y := ParentOf(rows, order, c, d).value;
      && IsIndexed(rows, order, y) && rows[y].name == AncestorName(rows[c].name, d)
      && Below(rows, c, y, d) && |rows[y].name| < |rows[c].name|
  {
    hide IndexBy;
    var y := ParentOf(rows, order, c, d).value;
    assert WellNamed(rows[y].name, d) && SplitAll(rows[y].name, d)[0] != "";
    AncestorOf(rows[c].name, d);
  }

  lemma ParentAbove(rows: map<nat, Row>, order: seq<nat>, c: nat, d: char)
    requires AllWellNamed(rows, d) && c in rows && ParentOf(rows, order, c, d).Some?
    ensures var f, y := ForestOf(rows, order, d), ParentOf(rows, order, c, d).value;
      y in rows && f.below[c] <= f.below[y] && y !in f.below[c]
  {
    var y := ParentOf(rows, order, c, d).value;
    ParentFacts(rows, order, c, d);
    hide AllWellNamed; hide ParentOf; hide IsIndexed;
    assert !Below(rows, y, c, d);
    forall x | Below(rows, x, c, d) ensures Below(rows, x, y, d) {
      UnderTransitive(rows[x].name, rows[c].name, rows[y].name, d);
    }
  }

  lemma SiblingsDisjoint(rows: map<nat, Row>, order: seq<nat>, b: nat, c: nat, d: char)
    requires AllWellNamed(rows, d) && b in rows && c in rows && b != c
    requires ParentOf(rows, order, b, d).Some? && ParentOf(rows, order, b, d) == ParentOf(rows, order, c, d)
    ensures ForestOf(rows, order, d).below[b] !! ForestOf(rows, order, d).below[c]
  {
    var f := ForestOf(rows, order, d);
    ParentFacts(rows, order, b, d);
    ParentFacts(rows, order, c, d);
    hide AncestorName; hide ParentOf; hide IndexBy;
    forall x | x in f.below[b] && x in f.below[c] ensures false {
      assert Under(rows[x].name, rows[b].name, d) && Under(rows[x].name, rows[c].name, d);
      SiblingsApart(rows[x].name, rows[b].name, rows[c].name, d);
    }
  }

  lemma ForestSound(rows: map<nat, Row>, order: seq<nat>, d: char)
    requires AllWellNamed(rows, d)
    ensures Sound(ForestOf(rows, order, d))
  {
    var f := ForestOf(rows, order, d);
    hide AllWellNamed; hide IsIndexed; hide Below; hide ParentOf;
    forall c | c in f.par ensures c in rows && f.par[c] in rows && f.below[c] <= f.below[f.par[c]]
      && f.par[c] !in f.below[c] {
      ParentAbove(rows, order, c, d);
    }
    forall b, c | b in f.par && c in f.par && b != c && f.par[b] == f.par[c] ensures f.below[b] !! f.below[c] {
      SiblingsDisjoint(rows, order, b, c, d);
    }
  }

  // ----- Trees of a forest -----

  /** `t` hangs together through parent links. */
  ghost predicate Shaped(f: Forest, t: Tree)
    decreases t
  {
    && t.id in f.below
    && (forall i :: 0 <= i < |t.kids| ==> t.kids[i].id in f.par && f.par[t.kids[i].id] == t.id && Shaped(f, t.kids[i]))
    && (forall i, j :: 0 <= i < j < |t.kids| ==> t.kids[i].id != t.kids[j].id)
  }

  /** No child is missing anywhere in `t`. */
  ghost predicate Complete(f: Forest, t: Tree)
    decreases t
  {
    && (forall i :: 0 <= i < |t.kids| ==> Complete(f, t.kids[i]))
    && (forall c :: c in f.par && f.par[c] == t.id ==> exists i :: 0 <= i < |t.kids| && t.kids[i].id == c)
  }

  lemma {:induction false} ShapedBelow(f: Forest, t: Tree)
    requires Sound(f) && Shaped(f, t)
    ensures Ids(t) <= f.below[t.id]
    decreases t
  {
    ShapedBelowUpTo(f, t, |t.kids|);
  }

  lemma {:induction false} ShapedBelowUpTo(f: Forest, t: Tree, n: nat)
    requires Sound(f) && Shaped(f, t) && n <= |t.kids|
    ensures IdsUpTo(t, n) <= f.below[t.id] - {t.id}
    decreases t, n
  {
    if n > 0 {
      ShapedBelowUpTo(f, t, n - 1);
      ShapedBelow(f, t.kids[n - 1]);
    }
  }

  lemma {:induction false} KidsApart(f: Forest, t: Tree, m: nat, n: nat)
    requires Sound(f) && Shaped(f, t) && m <= n < |t.kids|
    ensures IdsUpTo(t, m) !! Ids(t.kids[n])
  {
    if m > 0 {
      KidsApart(f, t, m - 1, n);
      ShapedBelow(f, t.kids[m - 1]);
      ShapedBelow(f, t.kids[n]);
    }
  }

  lemma {:induction false} ShapedHangs(rows: map<nat, Row>, order: seq<nat>, t: Tree, d: char)
    requires AllWellNamed(rows, d) && Sound(ForestOf(rows, order, d)) && Shaped(ForestOf(rows, order, d), t)
    ensures Hangs(rows, t, d)
    decreases t
  {
    var f := ForestOf(rows, order, d);
    hide AllWellNamed; hide ForestOf; hide Sound;
    ShapedBelowUpTo(f, t, |t.kids|);
    KeyIsRow(rows, order, t.id, d);
    forall i | 0 <= i < |t.kids|
      ensures t.kids[i].id in rows && Under(rows[t.kids[i].id].name, rows[t.id].name, d)
      ensures Hangs(rows, t.kids[i], d) && IdsUpTo(t, i) !! Ids(t.kids[i])
    {
      ShapedHangs(rows, order, t.kids[i], d);
      KidsApart(f, t, i, i);
      LinkIsParent(rows, order, t.kids[i].id, d);
    }
  }

  lemma KeyIsRow(rows: map<nat, Row>, order: seq<nat>, x: nat, d: char)
    requires x in ForestOf(rows, order, d).below
    ensures x in rows
  {
  }

  lemma LinkIsParent(rows: map<nat, Row>, order: seq<nat>, c: nat, d: char)
    requires AllWellNamed(rows, d) && c in ForestOf(rows, order, d).par
    ensures var y := ForestOf(rows, order, d).par[c];
      && c in rows && y in rows && Under(rows[c].name, rows[y].name, d) && |rows[y].name| < |rows[c].name|
      && IsIndexed(rows, order, y) && rows[y].name == AncestorName(rows[c].name, d)
  {
    ParentFacts(rows, order, c, d);
    hide AllWellNamed; hide ParentOf; hide IsIndexed; hide AncestorName;
  }

  ghost function ChildIds(f: Forest, order: seq<nat>, top: nat): (r: seq<nat>)
    ensures forall k :: k in r <==> k in order && k in f.par && f.par[k] == top
    ensures NoRepeats(order) ==> NoRepeats(r)
  {
    if order == [] then []
    else
      var rest, last := ChildIds(f, order[..|order| - 1], top), order[|order| - 1];
      assert order == order[..|order| - 1] + [last];
      if last in f.par && f.par[last] == top then rest + [last] else rest
  }

  /** The tree under `id`, children in the given order. */
  ghost function TreeOf(f: Forest, order: seq<nat>, id: nat): (t: Tree)
    requires Sound(f) && id in f.below
    ensures t.id == id
    decreases f.below[id]
  {
    Tree(id, TreesOf(f, order, ChildIds(f, order, id), id))
  }

  ghost function TreesOf(f: Forest, order: seq<nat>, kids: seq<nat>, top: nat): (ts: seq<Tree>)
    requires Sound(f) && top in f.below
    requires forall k :: k in kids ==> k in f.par && f.par[k] == top
    ensures |ts| == |kids|
    ensures forall i :: 0 <= i < |kids| ==> ts[i].id == kids[i]
    decreases f.below[top], |kids|
  {
    if kids == [] then []
    else
      assert f.below[kids[0]] < f.below[top] by { assert top !in f.below[kids[0]]; }
      [TreeOf(f, order, kids[0])] + TreesOf(f, order, kids[1..], top)
  }

  lemma {:induction false} TreesAt(f: Forest, order: seq<nat>, kids: seq<nat>, top: nat, i: nat)
    requires Sound(f) && top in f.below && i < |kids|
    requires forall k :: k in kids ==> k in f.par && f.par[k] == top
    ensures TreesOf(f, order, kids, top)[i] == TreeOf(f, order, kids[i])
  {
    if i > 0 { TreesAt(f, order, kids[1..], top, i - 1); }
  }

  lemma {:induction false} TreeShaped(f: Forest, order: seq<nat>, id: nat)
    requires Sound(f) && id in f.below && NoRepeats(order)
    requires forall c :: c in f.par ==> c in order
    ensures Shaped(f, TreeOf(f, order, id)) && Complete(f, TreeOf(f, order, id))
    decreases f.below[id]
  {
    var t, kids := TreeOf(f, order, id), ChildIds(f, order, id);
    forall i | 0 <= i < |kids|
      ensures Shaped(f, t.kids[i]) && Complete(f, t.kids[i])
    {
      TreesAt(f, order, kids, id, i);
      assert kids[i] in kids;
      assert f.below[kids[i]] < f.below[id] by { assert id !in f.below[kids[i]]; }
      TreeShaped(f, order, kids[i]);
    }
    forall c | c in f.par && f.par[c] == id
      ensures exists i :: 0 <= i < |t.kids| && t.kids[i].id == c
    {
      var i :| 0 <= i < |kids| && kids[i] == c;
      assert t.kids[i].id == c;
    }
  }

  // ----- Which rows the walk reaches -----

  lemma {:induction false} SavedStep(f: Forest, t: Tree, ok: set<nat>, x: nat)
    requires Complete(f, t) && x in f.par && f.par[x] in Walk(t, ok) && x in ok
    ensures x in Walk(t, ok)
    decreases t
  {
    if f.par[x] == t.id {
      var i :| 0 <= i < |t.kids| && t.kids[i].id == x;
      WalkUpToIn(t, i, |t.kids|, ok, x);
    } else {
      var i := SavedVia(t, |t.kids|, ok, f.par[x]);
      SavedStep(f, t.kids[i], ok, x);
      WalkUpToIn(t, i, |t.kids|, ok, x);
    }
  }

  lemma {:induction false} WalkUpToIn(t: Tree, i: nat, n: nat, ok: set<nat>, x: nat)
    requires i < n <= |t.kids| && x in Walk(t.kids[i], ok)
    ensures x in WalkUpTo(t, n, ok)
    decreases n
  {
    if i < n - 1 { WalkUpToIn(t, i, n - 1, ok, x); }
  }

  lemma {:induction false} SavedVia(t: Tree, n: nat, ok: set<nat>, x: nat) returns (i: nat)
    requires n <= |t.kids| && x in WalkUpTo(t, n, ok)
    ensures i < n && x in Walk(t.kids[i], ok)
    decreases n
  {
    if x in Walk(t.kids[n - 1], ok) { i := n - 1; } else { i := SavedVia(t, n - 1, ok, x); }
  }

  /** A saved row's parent was saved. */
  lemma {:induction false} SavedParent(f: Forest, t: Tree, ok: set<nat>, x: nat)
    requires Shaped(f, t) && x in Walk(t, ok) && x != t.id
    ensures x in f.par && f.par[x] in Walk(t, ok)
    decreases t
  {
    var i := SavedVia(t, |t.kids|, ok, x);
    if x != t.kids[i].id {
      SavedParent(f, t.kids[i], ok, x);
      WalkUpToIn(t, i, |t.kids|, ok, f.par[x]);
    }
  }

  /** The tree of a record as make_tree links it. */
  ghost function LoadedTree(rows: map<nat, Row>, order: seq<nat>, top: nat, d: char): Tree
    requires AllWellNamed(rows, d) && top in rows
  {
    ForestSound(rows, order, d);
    TreeOf(ForestOf(rows, order, d), order, top)
  }

  lemma LoadedTreeShaped(rows: map<nat, Row>, order: seq<nat>, top: nat, d: char)
    requires AllWellNamed(rows, d) && top in rows && Lists(order, rows)
    ensures var t := LoadedTree(rows, order, top, d);
      && t.id == top && Ids(t) <= rows.Keys && Hangs(rows, t, d)
      && Shaped(ForestOf(rows, order, d), t) && Complete(ForestOf(rows, order, d), t)
  {
    var f := ForestOf(rows, order, d);
    ForestSound(rows, order, d);
    assert forall c :: c in f.par ==> c in order;
    hide ForestOf; hide AllWellNamed;
    RowIsKey(rows, order, top, d);
    TreeShaped(f, order, top);
    ShapedHangs(rows, order, LoadedTree(rows, order, top, d), d);
    HangsUnder(rows, LoadedTree(rows, order, top, d), d);
  }

  lemma RowIsKey(rows: map<nat, Row>, order: seq<nat>, x: nat, d: char)
    requires x in rows
    ensures x in ForestOf(rows, order, d).below
  {
  }

  ghost predicate IsParent(rows: map<nat, Row>, y: nat, c: nat, d: char) {
    y in rows && c in rows && rows[y].name == AncestorName(rows[c].name, d)
  }

  ghost predicate HasParent(rows: map<nat, Row>, c: nat, d: char) {
    exists y :: IsParent(rows, y, c, d)
  }

  /** Every row under `top` has a title that validates, and its parent is a row. */
  ghost predicate Renamable(rows: map<nat, Row>, top: nat, ok: set<nat>, d: char)
    requires top in rows
  {
    forall x :: x in rows && Under(rows[x].name, rows[top].name, d) ==> x in ok && (x == top || HasParent(rows, x, d))
  }

  /** With unique names the parent link leads to the one row of that name. */
  lemma ParentLink(rows: map<nat, Row>, order: seq<nat>, c: nat, d: char)
    requires WellFormed(rows, d) && Lists(order, rows) && c in rows && HasParent(rows, c, d)
    ensures c in ForestOf(rows, order, d).par && IsParent(rows, ForestOf(rows, order, d).par[c], c, d)
  {
    var y :| IsParent(rows, y, c, d);
    hide AncestorName; hide AllWellNamed;
    assert y in order && ParentOf(rows, order, c, d).Some?;
  }

  lemma {:induction false} AllSaved(rows: map<nat, Row>, order: seq<nat>, t: Tree, ok: set<nat>, x: nat, d: char)
    requires WellFormed(rows, d) && Lists(order, rows) && Complete(ForestOf(rows, order, d), t) && t.id in rows
    requires Renamable(rows, t.id, ok, d) && x in rows && Under(rows[x].name, rows[t.id].name, d)
    ensures x in Walk(t, ok)
    decreases |rows[x].name|
  {
    hide Complete; hide ForestOf; hide IsIndexed; hide AncestorName; hide WellNamed;
    if x != t.id {
      ParentLink(rows, order, x, d);
      LinkIsParent(rows, order, x, d);
      UnderRest(rows[x].name, rows[t.id].name, d);
      AllSaved(rows, order, t, ok, ForestOf(rows, order, d).par[x], d);
      SavedStep(ForestOf(rows, order, d), t, ok, x);
    }
  }

  lemma SavedWhy(rows: map<nat, Row>, order: seq<nat>, t: Tree, ok: set<nat>, x: nat, d: char)
    requires AllWellNamed(rows, d) && Shaped(ForestOf(rows, order, d), t) && x in Walk(t, ok)
    ensures x in ok && (x == t.id || HasParent(rows, x, d))
  {
    hide ForestOf; hide IsIndexed; hide AncestorName; hide AllWellNamed; hide Shaped; hide Walk;
    WalkWithin(t, ok);
    if x != t.id {
      SavedParent(ForestOf(rows, order, d), t, ok, x);
      LinkIsParent(rows, order, x, d);
      assert IsParent(rows, ForestOf(rows, order, d).par[x], x, d);
    }
  }

  /** The rows of the walk lie at or below that name. */
  ghost predicate WalksUnder(rows: map<nat, Row>, walk: seq<nat>, was: string, d: char) {
    forall i :: i in walk ==> i in rows && Under(rows[i].name, was, d)
  }

  /** The walk from `top` reaches only what lies under it, and all of it if and only if the subtree is renamable. */
  lemma ReachesAll(rows: map<nat, Row>, order: seq<nat>, top: nat, ok: set<nat>, d: char)
    requires WellFormed(rows, d) && Lists(order, rows) && top in rows
    ensures var walk := Walk(LoadedTree(rows, order, top, d), ok);
      && WalksUnder(rows, walk, rows[top].name, d)
      && ((forall x :: x in rows && Under(rows[x].name, rows[top].name, d) ==> x in walk) <==>
            Renamable(rows, top, ok, d))
  {
    hide *;
    NamesWell(rows, d);
    var t := LoadedTree(rows, order, top, d);
    LoadedTreeShaped(rows, order, top, d);
    WalkBelow(rows, t, ok, d);
    forall x | x in Walk(t, ok) ensures x in ok && (x == t.id || HasParent(rows, x, d)) {
      SavedWhy(rows, order, t, ok, x, d);
    }
    if Renamable(rows, top, ok, d) {
      forall x | x in rows && Under(rows[x].name, rows[top].name, d) ensures x in Walk(t, ok) {
        AllSaved(rows, order, t, ok, x, d);
      }
    }
    AllIsRenamable(rows, top, ok, Walk(t, ok), d);
  }

  lemma NamesWell(rows: map<nat, Row>, d: char)
    requires WellFormed(rows, d)
    ensures AllWellNamed(rows, d)
  {
  }

  lemma WalkBelow(rows: map<nat, Row>, t: Tree, ok: set<nat>, d: char)
    requires Hangs(rows, t, d) && t.id in rows
    ensures WalksUnder(rows, Walk(t, ok), rows[t.id].name, d)
  {
    HangsUnder(rows, t, d);
    WalkWithin(t, ok);
    hide Hangs; hide Walk; hide Under;
  }

  lemma AllIsRenamable(rows: map<nat, Row>, top: nat, ok: set<nat>, walk: seq<nat>, d: char)
    requires top in rows && forall x :: x in walk ==> x in ok && (x == top || HasParent(rows, x, d))
    ensures (forall x :: x in rows && Under(rows[x].name, rows[top].name, d) ==> x in walk) ==>
      Renamable(rows, top, ok, d)
  {
    hide Under; hide HasParent;
  }

  /** The record that children of mailboxes named y hang on validates. */
  ghost predicate Passes(rows: map<nat, Row>, order: seq<nat>, ok: set<nat>, y: string) {
    IndexBy(rows, order, y).Some? && IndexBy(rows, order, y).value in ok
  }

  /** y lies on the way from x up to `top`, both excluded. */
  ghost predicate Between(y: string, x: string, top: string, d: char) {
    Under(x, y, d) && Under(y, top, d) && y != x && y != top
  }

  /** A mailbox named x hangs on `top`: some row of that name validates, and so does every record on the way up. */
  ghost predicate LinkedTo(rows: map<nat, Row>, order: seq<nat>, ok: set<nat>, top: nat, x: string, d: char) {
    && top in ok && top in rows && Under(x, rows[top].name, d)
    && (x != rows[top].name ==> IsIndexed(rows, order, top) && Names(rows, ok, x))
    && forall y :: Between(y, x, rows[top].name, d) ==> Passes(rows, order, ok, y)
  }

  lemma PrefixWellNamed(x: string, y: string, d: char)
    requires WellNamed(x, d) && Under(x, y, d)
    ensures WellNamed(y, d)
  {
    if x != y {
      assert x == y + [d] + x[|y| + 1..];
      WellNamedConcat(y, x[|y| + 1..], d);
    }
  }

  lemma UnderBoth(x: string, y: string, d: char)
    requires Under(x, y, d) && Under(y, x, d)
    ensures x == y
  {
  }

  /** What lies above a saved row and below the top hangs on records that validate. */
  lemma {:induction false} SavedPath(rows: map<nat, Row>, order: seq<nat>, t: Tree, ok: set<nat>, i: nat, y: string,
                                     d: char)
    requires AllWellNamed(rows, d) && t.id in rows && Shaped(ForestOf(rows, order, d), t)
    requires i in Walk(t, ok) && i in rows && i != t.id
    ensures IsIndexed(rows, order, t.id)
    ensures Between(y, rows[i].name, rows[t.id].name, d) ==> Passes(rows, order, ok, y)
    decreases |rows[i].name|
  {
    var f := ForestOf(rows, order, d);
    SavedParent(f, t, ok, i);
    LinkIsParent(rows, order, i, d);
    WalkWithin(t, ok);
    assert WellNamed(rows[i].name, d);
    hide Under; hide WellNamed; hide AncestorName; hide Shaped; hide Walk; hide ForestOf;
    var p := f.par[i];
    if p != t.id { SavedPath(rows, order, t, ok, p, y, d); }
    if Between(y, rows[i].name, rows[t.id].name, d) {
      PrefixWellNamed(rows[i].name, y, d);
      UnderRest(rows[i].name, y, d);
      if p == t.id { UnderBoth(y, rows[t.id].name, d); }
    }
  }

  lemma {:induction false} LinkedSaved(rows: map<nat, Row>, order: seq<nat>, t: Tree, ok: set<nat>, i: nat, d: char)
    requires AllWellNamed(rows, d) && Complete(ForestOf(rows, order, d), t) && t.id in rows && t.id in ok
    requires IsIndexed(rows, order, t.id)
    requires i in rows && i in ok && Under(rows[i].name, rows[t.id].name, d) && rows[i].name != rows[t.id].name
    requires forall y :: Between(y, rows[i].name, rows[t.id].name, d) ==> Passes(rows, order, ok, y)
    ensures i in Walk(t, ok)
    decreases |rows[i].name|
  {
    var f, x, top := ForestOf(rows, order, d), rows[i].name, rows[t.id].name;
    assert WellNamed(x, d) && WellNamed(top, d);
    hide WellNamed; hide AncestorName; hide Complete;
    UnderRest(x, top, d);
    var a := AncestorName(x, d);
    AncestorAbove(x, d);
    assert a == top || Passes(rows, order, ok, a);
    var p := IndexBy(rows, order, a).value;
    assert i in f.par && f.par[i] == p;
    hide ForestOf; hide Under;
    if a == top {
      assert p == t.id;
    } else {
      forall y | Between(y, a, top, d) ensures Passes(rows, order, ok, y) {
        UnderTransitive(x, a, y, d);
        if y == x { UnderBoth(a, x, d); }
      }
      LinkedSaved(rows, order, t, ok, p, d);
    }
    SavedStep(f, t, ok, i);
  }

  lemma AncestorAbove(x: string, d: char)
    requires WellNamed(x, d) && AncestorName(x, d) != ""
    ensures Under(x, AncestorName(x, d), d) && |AncestorName(x, d)| < |x|
  {
    AncestorOf(x, d);
  }

  /** The walk reaches a mailbox exactly when it is linked to the top through records that validate. */
  lemma ReachedIff(rows: map<nat, Row>, order: seq<nat>, top: nat, ok: set<nat>, x: string, d: char)
    requires AllWellNamed(rows, d) && Lists(order, rows) && top in rows
    ensures Names(rows, Visited(Walk(LoadedTree(rows, order, top, d), ok)), x) <==> LinkedTo(rows, order, ok, top, x, d)
  {
    var t := LoadedTree(rows, order, top, d);
    LoadedTreeShaped(rows, order, top, d);
    HangsUnder(rows, t, d);
    WalkWithin(t, ok);
    hide Lists; hide LoadedTree; hide ForestOf; hide Shaped; hide Complete; hide Hangs; hide AllWellNamed; hide Passes;
    hide IsIndexed; hide Under;
    if i :| i in Walk(t, ok) && rows[i].name == x {
      hide Walk;
      TopSaved(t, ok, i);
      SavedLinked(rows, order, t, ok, i, d);
    }
    if LinkedTo(rows, order, ok, top, x, d) {
      if x == rows[top].name {
        assert top in Walk(t, ok);
      } else {
        var i :| i in ok && i in rows && rows[i].name == x;
        LinkedSaved(rows, order, t, ok, i, d);
      }
    }
  }

  lemma TopSaved(t: Tree, ok: set<nat>, i: nat)
    requires i in Walk(t, ok)
    ensures t.id in ok
  {
  }

  lemma SavedLinked(rows: map<nat, Row>, order: seq<nat>, t: Tree, ok: set<nat>, i: nat, d: char)
    requires AllWellNamed(rows, d) && t.id in rows && t.id in ok && Shaped(ForestOf(rows, order, d), t)
    requires i in Walk(t, ok) && i in rows && i in ok && Under(rows[i].name, rows[t.id].name, d)
    ensures LinkedTo(rows, order, ok, t.id, rows[i].name, d)
  {
    hide ForestOf; hide Shaped; hide AllWellNamed; hide Passes; hide IsIndexed; hide Under; hide Walk;
    var x, top := rows[i].name, rows[t.id].name;
    if i != t.id {
      forall y | Between(y, x, top, d) ensures Passes(rows, order, ok, y) { SavedPath(rows, order, t, ok, i, y, d); }
      SavedPath(rows, order, t, ok, i, x, d);
    } else {
      forall y ensures !Between(y, x, top, d) {
        if Under(x, y, d) && Under(y, top, d) { UnderBoth(x, y, d); }
      }
    }
  }
}
