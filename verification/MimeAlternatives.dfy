/** What the section of a multipart/alternative shows: its own group, or else the first group below it. */
module MimeAlternatives {
  import opened MimePaths
  import opened MimeTree
  import opened Text
  import opened Wrappers

  /** Multiparts below an alternative that have a text, outside further alternatives. */
  ghost function AltTexts(): Walk {
    Walk((p: Part, lv: nat) => IsMultipart(p) && !p.kind.Alternative? && lv < 5 && Given(GroupText(p)),
      (p: Part, lv: nat) => if IsMultipart(p) then lv < 5 && !p.kind.Alternative? else lv == 0 || p.shown)
  }

  ghost function AltHtmls(): Walk {
    Walk((p: Part, lv: nat) => IsMultipart(p) && !p.kind.Alternative? && lv < 5 && Given(GroupHtml(p)),
      (p: Part, lv: nat) => if IsMultipart(p) then lv < 5 && !p.kind.Alternative? else lv == 0 || p.shown)
  }

  /** The first of the groups at the ends of the paths, if there is one. */
  ghost function FirstText(p: Part, paths: seq<seq<nat>>): Option<string> {
    if paths != [] && IsPath(p, paths[0]) then GroupText(At(p, paths[0])) else None
  }

  ghost function FirstHtml(p: Part, paths: seq<seq<nat>>): Option<string> {
    if paths != [] && IsPath(p, paths[0]) then GroupHtml(At(p, paths[0])) else None
  }

  ghost function Or(a: Option<string>, b: Option<string>): Option<string> {
    if Given(a) then a else if Given(b) then b else a
  }

  ghost function FirstGiven(a: Option<string>, b: Option<string>): Option<string> {
    if Given(a) then a else if Given(b) then b else None
  }

  ghost predicate Opens(w: W, k: nat) {
    Ok(w) && |w.open| > 0 && w.open[|w.open| - 1] == k && k < |w.inlines|
  }

  lemma FirstVia(p: Part, before: seq<seq<nat>>, n: nat, more: seq<seq<nat>>)
    requires IsStep(p, n) && (before != [] ==> IsPath(p, before[0])) && (more != [] ==> IsPath(Child(p, n), more[0]))
    ensures var all := before + Via(n, more);
      && (all != [] ==> IsPath(p, all[0]))
      && FirstText(p, all) == (if before != [] then FirstText(p, before) else FirstText(Child(p, n), more))
      && FirstHtml(p, all) == (if before != [] then FirstHtml(p, before) else FirstHtml(Child(p, n), more))
  {
    hide GroupText; hide GroupHtml;
    if before == [] && more != [] { assert Via(n, more)[0][1..] == more[0]; }
  }

  /** Text and html of section k. */
  ghost function Shown(w: W, k: nat): (Option<string>, Option<string>)
    requires k < |w.inlines|
  {
    (w.inlines[k].text, w.inlines[k].html)
  }

  /** r is w with section k filled by these, where it is blank. */
  ghost predicate FilledBy(w: W, r: W, k: nat, text: Option<string>, html: Option<string>) {
    && Opens(w, k) && Opens(r, k)
    && Shown(r, k) == (Or(Shown(w, k).0, text), Or(Shown(w, k).1, html))
  }

  lemma FilledOn(a: W, b: W, c: W, k: nat, t1: Option<string>, h1: Option<string>, t2: Option<string>,
                 h2: Option<string>)
    requires FilledBy(a, b, k, t1, h1) && FilledBy(b, c, k, t2, h2)
    ensures FilledBy(a, c, k, Or(t1, t2), Or(h1, h2))
  {
    hide Blank; hide Opens;
  }

  lemma FilledNone(w: W, k: nat)
    requires Opens(w, k)
    ensures FilledBy(w, w, k, None, None)
  {
  }

  /** A group goes to the open alternative where that is blank. */
  lemma EnterFills(w: W, p: Part, k: nat)
    requires Opens(w, k) && IsMultipart(p) && !p.kind.Alternative?
    ensures FilledBy(w, Enter(w, p), k, GroupText(p), GroupHtml(p))
  {
    EnterKeeps(w, p);
    hide Blank; hide CollectText; hide CollectHtml;
  }

  /** Another alternative keeps to itself. */
  lemma {:induction false} NestedKeeps(w: W, p: Part, lv: nat, k: nat)
    requires Opens(w, k) && p.kind.Alternative?
    ensures FilledBy(w, Visit(w, p, lv), k, None, None)
  {
    VisitKeeps(w, p, lv);
    if lv < SEARCH_CONTENTS_DEPTH {
      var a := Enter(w, p);
      EnterKeeps(w, p);
      VisitFirstKeeps(a, p, lv + 1, |Parts(p)|);
      assert a.inlines[..|w.inlines|][k] == a.inlines[k];
      hide Enter; hide Blank;
    }
  }

  lemma LeafFills(w: W, p: Part, lv: nat, k: nat)
    requires Opens(w, k)
    ensures FilledBy(w, Leaf(w, p, lv), k, None, None)
  {
    LeafKeeps(w, p, lv);
  }

  ghost predicate Firsts(p: Part, texts: seq<seq<nat>>, htmls: seq<seq<nat>>) {
    && (texts != [] ==> IsPath(p, texts[0]) && Given(FirstText(p, texts)))
    && (htmls != [] ==> IsPath(p, htmls[0]) && Given(FirstHtml(p, htmls)))
  }

  lemma GatheredGiven(p: Part, lv: nat)
    ensures Firsts(p, Gathered(p, lv, AltTexts()), Gathered(p, lv, AltHtmls()))
  {
    var texts, htmls := Gathered(p, lv, AltTexts()), Gathered(p, lv, AltHtmls());
    hide Gathered; hide Given; hide GroupText; hide GroupHtml;
    GatheredIn(p, lv, AltTexts());
    GatheredIn(p, lv, AltHtmls());
    if texts != [] { assert texts[0] in texts; }
    if htmls != [] { assert htmls[0] in htmls; }
  }

  /** The groups below the first n children, then those below child n. */
  lemma FirstsVia(p: Part, n: nat, texts: seq<seq<nat>>, htmls: seq<seq<nat>>, mt: seq<seq<nat>>, mh: seq<seq<nat>>)
    requires IsStep(p, n) && Firsts(p, texts, htmls) && Firsts(Child(p, n), mt, mh)
    ensures Firsts(p, texts + Via(n, mt), htmls + Via(n, mh))
    ensures FirstText(p, texts + Via(n, mt)) == Or(FirstText(p, texts), FirstText(Child(p, n), mt))
    ensures FirstHtml(p, htmls + Via(n, mh)) == Or(FirstHtml(p, htmls), FirstHtml(Child(p, n), mh))
  {
    hide GroupText; hide GroupHtml; hide Blank;
    FirstVia(p, texts, n, mt);
    FirstVia(p, htmls, n, mh);
  }

  /** Visiting a part below an open alternative fills its section with the first groups. */
  lemma {:induction false} VisitFills(w: W, p: Part, lv: nat, k: nat)
    requires Opens(w, k)
    ensures FilledBy(w, Visit(w, p, lv), k, FirstText(p, Gathered(p, lv, AltTexts())),
      FirstHtml(p, Gathered(p, lv, AltHtmls())))
    decreases p, |Parts(p)| + 1
  {
    if p.kind.Alternative? {
      hide FilledBy;
      NestedKeeps(w, p, lv, k);
    } else if IsMultipart(p) && lv < SEARCH_CONTENTS_DEPTH {
      hide Opens; hide Enter; hide GroupText; hide GroupHtml;
      EnterFills(w, p, k);
      VisitFirstFills(Enter(w, p), p, lv, k, |Parts(p)|);
      MultipartFills(w, Enter(w, p), Visit(w, p, lv), p, lv, k);
    } else if IsMultipart(p) {
      FilledNone(w, k);
    } else if p.kind.Embedded? {
      hide Opens; hide FilledBy; hide Gathered;
      MessageFirsts(p, lv);
      FilledNone(w, k);
      if Reached(p, lv) { VisitFills(w, p.kind.message, 0, k); }
    } else {
      hide FilledBy;
      LeafFills(w, p, lv, k);
    }
  }

  lemma MessageGathered(p: Part, lv: nat, w: Walk)
    requires p.kind.Embedded?
    ensures Gathered(p, lv, w) == (if w.takes(p, lv) then [[]] else [])
      + if w.opens(p, lv) then [] + Via(0, Gathered(p.kind.message, 0, w)) else []
  {
    assert GatheredFirst(p, lv, w, 0) == [];
    assert GatheredFirst(p, lv, w, 1) == [] + Via(0, Gathered(Child(p, 0), Inside(p, lv), w));
  }

  lemma MessageFirsts(p: Part, lv: nat)
    requires p.kind.Embedded?
    ensures FirstText(p, Gathered(p, lv, AltTexts())) ==
      if Reached(p, lv) then FirstText(p.kind.message, Gathered(p.kind.message, 0, AltTexts())) else None
    ensures FirstHtml(p, Gathered(p, lv, AltHtmls())) ==
      if Reached(p, lv) then FirstHtml(p.kind.message, Gathered(p.kind.message, 0, AltHtmls())) else None
  {
    var mt, mh := Gathered(p.kind.message, 0, AltTexts()), Gathered(p.kind.message, 0, AltHtmls());
    MessageWalks(p, lv);
    NoFirsts(p, []);
    NoFirsts(p, [] + []);
    hide *;
    GatheredGiven(p.kind.message, 0);
    FirstsVia(p, 0, [], [], mt, mh);
    MessageGathered(p, lv, AltTexts());
    MessageGathered(p, lv, AltHtmls());
    NoneBefore(Via(0, mt), Via(0, mh));
    OrNone(p.kind.message, mt, mh);
  }

  lemma MessageWalks(p: Part, lv: nat)
    requires p.kind.Embedded?
    ensures IsStep(p, 0) && Child(p, 0) == p.kind.message
    ensures !AltTexts().takes(p, lv) && !AltHtmls().takes(p, lv)
    ensures AltTexts().opens(p, lv) == AltHtmls().opens(p, lv) == Reached(p, lv)
  {
  }

  lemma NoFirsts(p: Part, none: seq<seq<nat>>)
    requires none == []
    ensures Firsts(p, none, none) && FirstText(p, none) == None && FirstHtml(p, none) == None
  {
  }

  lemma NoneBefore(x: seq<seq<nat>>, y: seq<seq<nat>>)
    ensures [] + ([] + x) == [] + x && [] + ([] + y) == [] + y
  {
  }

  lemma OrNone(p: Part, texts: seq<seq<nat>>, htmls: seq<seq<nat>>)
    requires Firsts(p, texts, htmls)
    ensures Or(None, FirstText(p, texts)) == FirstText(p, texts) && Or(None, FirstHtml(p, htmls)) == FirstHtml(p, htmls)
  {
    hide GroupText; hide GroupHtml; hide Blank;
  }

  lemma MultipartFills(w: W, a: W, b: W, p: Part, lv: nat, k: nat)
    requires IsMultipart(p) && !p.kind.Alternative? && lv < 5
    requires FilledBy(w, a, k, GroupText(p), GroupHtml(p))
    requires FilledBy(a, b, k, FirstText(p, GatheredFirst(p, lv, AltTexts(), |Parts(p)|)),
      FirstHtml(p, GatheredFirst(p, lv, AltHtmls(), |Parts(p)|)))
    ensures FilledBy(w, b, k, FirstText(p, Gathered(p, lv, AltTexts())), FirstHtml(p, Gathered(p, lv, AltHtmls())))
  {
  }

  lemma {:induction false} VisitFirstFills(w: W, p: Part, lv: nat, k: nat, n: nat)
    requires Opens(w, k) && IsMultipart(p) && n <= |Parts(p)|
    ensures FilledBy(w, VisitFirst(w, p, lv + 1, n), k, FirstText(p, GatheredFirst(p, lv, AltTexts(), n)),
      FirstHtml(p, GatheredFirst(p, lv, AltHtmls(), n)))
    ensures Firsts(p, GatheredFirst(p, lv, AltTexts(), n), GatheredFirst(p, lv, AltHtmls(), n))
    decreases p, n
  {
    hide Opens; hide Gathered; hide Visit; hide GroupText; hide GroupHtml;
    if n == 0 {
      FilledNone(w, k);
    } else {
      var a, c := VisitFirst(w, p, lv + 1, n - 1), Parts(p)[n - 1];
      VisitFirstFills(w, p, lv, k, n - 1);
      VisitFills(a, c, lv + 1, k);
      GatheredGiven(c, lv + 1);
      var mt, mh := Gathered(c, lv + 1, AltTexts()), Gathered(c, lv + 1, AltHtmls());
      var texts, htmls := GatheredFirst(p, lv, AltTexts(), n - 1), GatheredFirst(p, lv, AltHtmls(), n - 1);
      FirstsVia(p, n - 1, texts, htmls, mt, mh);
      FilledOn(w, a, Visit(a, c, lv + 1), k, FirstText(p, texts), FirstHtml(p, htmls), FirstText(c, mt),
        FirstHtml(c, mh));
    }
  }

  /** The section of an alternative: its own text and html and, where those are blank, the first non-blank ones of
      the multiparts below it, in message order and outside further alternatives. */
  lemma AlternativeShows(w: W, p: Part, lv: nat)
    requires Ok(w) && p.kind.Alternative? && lv < 5
    ensures var r, k, n := Visit(w, p, lv), |w.inlines|, |Parts(p)|;
      && k < |r.inlines| && r.inlines[k].alternative
      && r.inlines[k].text == FirstGiven(GroupText(p), FirstText(p, GatheredFirst(p, lv, AltTexts(), n)))
      && r.inlines[k].html == FirstGiven(GroupHtml(p), FirstHtml(p, GatheredFirst(p, lv, AltHtmls(), n)))
      && r.inlines[..k] == w.inlines
  {
    var a, k := Enter(w, p), |w.inlines|;
    EnterKeeps(w, p);
    var b := VisitFirst(a, p, lv + 1, |Parts(p)|);
    VisitFirstFills(a, p, lv, k, |Parts(p)|);
    VisitFirstKeeps(a, p, lv + 1, |Parts(p)|);
    hide GroupText; hide GroupHtml; hide Blank; hide VisitFirst;
    assert b.inlines[..k] == w.inlines;
  }
}
