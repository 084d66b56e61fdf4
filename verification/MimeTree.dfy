/** Messages as MIME trees, and the walk that collects what is displayed, on values: sections in order of
    appearance, and the positions of open alternatives. */
module MimeTree {
  import opened Text
  import opened Wrappers

  const SEARCH_CONTENTS_DEPTH: nat := 5

  datatype Kind =
    | Plain
    | Html
    | OtherText(name: string)
    | Embedded(message: Part)
    | Alternative(parts: seq<Part>)
    | Multipart(name: string, parts: seq<Part>)
    | OtherKind(name: string)

  /** shown: the disposition is inline or blank. text and html are the decoded bodies. */
  datatype Part = Part(kind: Kind, attachment: bool, shown: bool, filename: string, text: string, html: string)

  predicate IsMultipart(p: Part) {
    p.kind.Alternative? || p.kind.Multipart?
  }

  function Parts(p: Part): (r: seq<Part>)
    ensures forall i :: 0 <= i < |r| ==> r[i] < p
  {
    if IsMultipart(p) then p.kind.parts else []
  }

  /** One displayed section. */
  datatype Slot = Slot(seqno: nat, contentType: string, text: Option<string>, html: Option<string>, alternative: bool,
    attachment: bool)

  /** The sections so far, and the open multipart/alternative nodes by position, innermost last. */
  datatype W = W(inlines: seq<Slot>, open: seq<nat>)

  /** collect_text over the first n children. */
  function CollectText(parts: seq<Part>, n: nat): Option<string>
    requires n <= |parts|
  {
    if n == 0 then None
    else
      var before, p := CollectText(parts, n - 1), parts[n - 1];
      if !p.kind.Plain? || p.attachment then before
      else
        var text := if before.None? then "" else before.value;
        Some((if !Blank(text) then text + "\n" else text) + p.text)
  }

  /** collect_html over the first n children. */
  function CollectHtml(parts: seq<Part>, n: nat): Option<string>
    requires n <= |parts|
  {
    if n == 0 then None
    else
      var before, p := CollectHtml(parts, n - 1), parts[n - 1];
      if !p.kind.Html? || p.attachment then before
      else Some((if before.None? then "" else before.value) + "<p>" + p.html + "</p>")
  }

  function GroupText(p: Part): Option<string> {
    CollectText(Parts(p), |Parts(p)|)
  }

  function GroupHtml(p: Part): Option<string> {
    CollectHtml(Parts(p), |Parts(p)|)
  }

  function Add(w: W, contentType: string, text: Option<string>, html: Option<string>, attachment: bool): W {
    W(w.inlines + [Slot(|w.inlines|, contentType, text, html, false, attachment)], w.open)
  }

  predicate Reached(p: Part, lv: nat) {
    lv == 0 || p.shown
  }

  /** The section a single part makes of itself. */
  function Leaf(w: W, p: Part, lv: nat): W {
    match p.kind
    case Plain => if Reached(p, lv) && (lv == 0 || p.attachment)
      then Add(w, "text/plain", Some(p.text), None, p.attachment) else w
    case Html => if Reached(p, lv) && (lv == 0 || p.attachment)
      then Add(w, "text/html", None, Some(p.html), p.attachment) else w
    case OtherText(name) => if Reached(p, lv) then Add(w, name, Some(p.text), None, p.attachment) else w
    case OtherKind(_) => if lv == 0 && !p.attachment then Add(w, "text/plain", Some(p.text), None, false) else w
    case _ => w
  }

  /** A part on its own makes a section of its type and with its own attachment flag: at the top always, elsewhere
      if it is shown and, for plain text and html, an attachment; other types only at the top and not as attachments. */
  lemma LeafIs(w: W, p: Part, lv: nat)
    requires !IsMultipart(p) && !p.kind.Embedded?
    ensures var r, n := Leaf(w, p, lv), |w.inlines|;
      && r.open == w.open
      && (lv == 0 || p.shown ==>
        && (p.kind.Plain? && (lv == 0 || p.attachment) ==>
          r.inlines == w.inlines + [Slot(n, "text/plain", Some(p.text), None, false, p.attachment)])
        && (p.kind.Html? && (lv == 0 || p.attachment) ==>
          r.inlines == w.inlines + [Slot(n, "text/html", None, Some(p.html), false, p.attachment)])
        && (p.kind.OtherText? ==>
          r.inlines == w.inlines + [Slot(n, p.kind.name, Some(p.text), None, false, p.attachment)]))
      && (p.kind.OtherKind? && lv == 0 && !p.attachment ==>
        r.inlines == w.inlines + [Slot(n, "text/plain", Some(p.text), None, false, false)])
      && ((p.kind.Plain? || p.kind.Html?) && lv > 0 && !(p.shown && p.attachment) ==> r == w)
      && (p.kind.OtherText? && lv > 0 && !p.shown ==> r == w)
      && (p.kind.OtherKind? && (lv > 0 || p.attachment) ==> r == w)
  {
  }

  /** The innermost open alternative, if its text is still blank. */
  predicate TextVacant(w: W) {
    |w.open| > 0 && w.open[|w.open| - 1] < |w.inlines| && !Given(w.inlines[w.open[|w.open| - 1]].text)
  }

  predicate HtmlVacant(w: W) {
    |w.open| > 0 && w.open[|w.open| - 1] < |w.inlines| && !Given(w.inlines[w.open[|w.open| - 1]].html)
  }

  function PlaceText(w: W, text: Option<string>): W {
    if !Given(text) then w
    else if TextVacant(w) then
      var k := w.open[|w.open| - 1];
      W(w.inlines[k := w.inlines[k].(text := text)], w.open)
    else Add(w, "text/plain", text, None, false)
  }

  function PlaceHtml(w: W, html: Option<string>): W {
    if !Given(html) then w
    else if HtmlVacant(w) then
      var k := w.open[|w.open| - 1];
      W(w.inlines[k := w.inlines[k].(html := html)], w.open)
    else Add(w, "text/html", None, html, false)
  }

  function IfGiven(s: Option<string>): Option<string> {
    if Given(s) then s else None
  }

  /** What a multipart does before its children are searched. */
  function Enter(w: W, p: Part): W {
    if p.kind.Alternative? then
      W(w.inlines + [Slot(|w.inlines|, "", IfGiven(GroupText(p)), IfGiven(GroupHtml(p)), true, false)],
        w.open + [|w.inlines|])
    else PlaceHtml(PlaceText(w, GroupText(p)), GroupHtml(p))
  }

  function Leave(w: W, p: Part): W {
    if p.kind.Alternative? && |w.open| > 0 then W(w.inlines, w.open[..|w.open| - 1]) else w
  }

  /** search_inline */
  function Visit(w: W, p: Part, lv: nat): W
    decreases p, |Parts(p)| + 1
  {
    if IsMultipart(p) then
      if lv < SEARCH_CONTENTS_DEPTH then Leave(VisitFirst(Enter(w, p), p, lv + 1, |Parts(p)|), p) else w
    else if p.kind.Embedded? then
      if Reached(p, lv) then Visit(w, p.kind.message, 0) else w
    else Leaf(w, p, lv)
  }

  /** The first n children of p. */
  function VisitFirst(w: W, p: Part, lv: nat, n: nat): W
    requires n <= |Parts(p)|
    decreases p, n
  {
    if n == 0 then w else Visit(VisitFirst(w, p, lv, n - 1), Parts(p)[n - 1], lv)
  }

  // ----- The stack is restored, positions are numbers, nothing is overwritten -----

  ghost predicate Ok(w: W) {
    && (forall i :: 0 <= i < |w.inlines| ==> w.inlines[i].seqno == i)
    && (forall k :: 0 <= k < |w.open| ==> w.open[k] < |w.inlines| && w.inlines[w.open[k]].alternative)
    && (forall j, k :: 0 <= j < k < |w.open| ==> w.open[j] < w.open[k])
  }

  /** b is a with a blank text or html filled in, at most. */
  ghost predicate Filled(a: Slot, b: Slot) {
    && b == a.(text := b.text, html := b.html)
    && (b.text != a.text ==> !Given(a.text) && Given(b.text)) && (b.html != a.html ==> !Given(a.html) && Given(b.html))
  }

  /** Earlier sections stay, the innermost open alternative may be filled, new sections come after. */
  ghost predicate Grown(w: W, r: W) {
    && |w.inlines| <= |r.inlines|
    && forall i :: 0 <= i < |w.inlines| ==>
      Filled(w.inlines[i], r.inlines[i]) && (w.inlines[i] != r.inlines[i] ==> |w.open| > 0 && i == w.open[|w.open| - 1])
  }

  lemma PlaceTextKeeps(w: W, text: Option<string>)
    requires Ok(w)
    ensures Ok(PlaceText(w, text)) && PlaceText(w, text).open == w.open && Grown(w, PlaceText(w, text))
  {
    hide Blank;
  }

  lemma PlaceHtmlKeeps(w: W, html: Option<string>)
    requires Ok(w)
    ensures Ok(PlaceHtml(w, html)) && PlaceHtml(w, html).open == w.open && Grown(w, PlaceHtml(w, html))
  {
    hide Blank;
  }

  lemma GrownOn(a: W, b: W, c: W)
    requires Grown(a, b) && Grown(b, c) && a.open == b.open
    ensures Grown(a, c)
  {
    hide Given;
    forall i | 0 <= i < |a.inlines|
      ensures Filled(a.inlines[i], c.inlines[i])
      ensures (a.inlines[i] != c.inlines[i] ==> |a.open| > 0 && i == a.open[|a.open| - 1])
    {
      assert Filled(a.inlines[i], b.inlines[i]) && Filled(b.inlines[i], c.inlines[i]);
    }
  }

  lemma EnterKeeps(w: W, p: Part)
    requires Ok(w) && IsMultipart(p)
    ensures Ok(Enter(w, p))
    ensures if p.kind.Alternative? then Enter(w, p).open == w.open + [|w.inlines|]
      && |Enter(w, p).inlines| == |w.inlines| + 1 &&
                 Enter(w, p).inlines[..|w.inlines|] == w.inlines
      else Enter(w, p).open == w.open && Grown(w, Enter(w, p))
  {
    hide Blank; hide Filled; hide CollectText; hide CollectHtml; hide Given;
    if p.kind.Alternative? {
    } else {
      hide Ok; hide Grown; hide PlaceText; hide PlaceHtml;
      var a := PlaceText(w, GroupText(p));
      PlaceTextKeeps(w, GroupText(p));
      PlaceHtmlKeeps(a, GroupHtml(p));
      GrownOn(w, a, PlaceHtml(a, GroupHtml(p)));
    }
  }

  lemma LeafKeeps(w: W, p: Part, lv: nat)
    requires Ok(w)
    ensures Ok(Leaf(w, p, lv)) && Leaf(w, p, lv).open == w.open && Grown(w, Leaf(w, p, lv))
  {
  }

  /** Every call of search_inline leaves the stack of open alternatives as it found it, numbers sections
      by their position, and changes no earlier section except to fill the innermost open alternative. */
  lemma {:induction false} VisitKeeps(w: W, p: Part, lv: nat)
    requires Ok(w)
    ensures Ok(Visit(w, p, lv)) && Visit(w, p, lv).open == w.open && Grown(w, Visit(w, p, lv))
    decreases p, |Parts(p)| + 1
  {
    hide Ok; hide Grown; hide Enter; hide Leaf;
    if IsMultipart(p) {
      if lv < SEARCH_CONTENTS_DEPTH {
        EnterKeeps(w, p);
        VisitFirstKeeps(Enter(w, p), p, lv + 1, |Parts(p)|);
        LeaveKeeps(w, Enter(w, p), VisitFirst(Enter(w, p), p, lv + 1, |Parts(p)|), p);
      } else {
        GrownSelf(w);
      }
    } else if p.kind.Embedded? {
      if Reached(p, lv) { VisitKeeps(w, p.kind.message, 0); } else { GrownSelf(w); }
    } else {
      LeafKeeps(w, p, lv);
    }
  }

  lemma GrownSelf(w: W)
    ensures Grown(w, w)
  {
  }

  lemma LeaveKeeps(w: W, a: W, b: W, p: Part)
    requires Ok(w) && Ok(b) && a.open == b.open && Grown(a, b)
    requires if p.kind.Alternative? then a.open == w.open + [|w.inlines|] && |a.inlines| == |w.inlines| + 1
      && a.inlines[..|w.inlines|] == w.inlines
      else a.open == w.open && Grown(w, a)
    ensures Ok(Leave(b, p)) && Leave(b, p).open == w.open && Grown(w, Leave(b, p))
  {
    hide Given;
    if p.kind.Alternative? {
      forall i | 0 <= i < |w.inlines| ensures b.inlines[i] == w.inlines[i] {
        assert a.inlines[..|w.inlines|][i] == a.inlines[i];
      }
    } else {
      GrownOn(w, a, b);
    }
  }

  lemma {:induction false} VisitFirstKeeps(w: W, p: Part, lv: nat, n: nat)
    requires Ok(w) && n <= |Parts(p)|
    ensures Ok(VisitFirst(w, p, lv, n)) && VisitFirst(w, p, lv, n).open == w.open && Grown(w, VisitFirst(w, p, lv, n))
    decreases p, n
  {
    hide Ok; hide Grown; hide Visit;
    if n == 0 {
      GrownSelf(w);
    } else {
      VisitFirstKeeps(w, p, lv, n - 1);
      VisitKeeps(VisitFirst(w, p, lv, n - 1), Parts(p)[n - 1], lv);
      GrownOn(w, VisitFirst(w, p, lv, n - 1), VisitFirst(w, p, lv, n));
    }
  }
}
