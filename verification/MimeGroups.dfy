/** Every text or html of a message ends up in exactly one place. */
module MimeGroups {
  import opened MimeTree
  import opened Text
  import opened Wrappers

  /** Number of sections whose text is x. */
  function Texts(s: seq<Slot>, x: string): nat {
    if s == [] then 0 else Texts(s[..|s| - 1], x) + if s[|s| - 1].text == Some(x) then 1 else 0
  }

  function Htmls(s: seq<Slot>, x: string): nat {
    if s == [] then 0 else Htmls(s[..|s| - 1], x) + if s[|s| - 1].html == Some(x) then 1 else 0
  }

  function One(b: bool): nat {
    if b then 1 else 0
  }

  /** Does a single part show its text as a section of its own? */
  predicate OwnText(p: Part, lv: nat) {
    match p.kind
    case Plain => Reached(p, lv) && (lv == 0 || p.attachment)
    case OtherText(_) => Reached(p, lv)
    case OtherKind(_) => lv == 0 && !p.attachment
    case _ => false
  }

  predicate OwnHtml(p: Part, lv: nat) {
    p.kind.Html? && Reached(p, lv) && (lv == 0 || p.attachment)
  }

  /** How often the tree offers the text x: as the group of a multipart less than five levels below its
      message, or as the body of a part shown on its own. A message/rfc822 part starts a new message. */
  function TextsIn(p: Part, lv: nat, x: string): nat
    decreases p, |Parts(p)| + 1
  {
    if IsMultipart(p) then
      if lv < SEARCH_CONTENTS_DEPTH then One(GroupText(p) == Some(x)) + TextsInFirst(p, lv + 1, x, |Parts(p)|) else 0
    else if p.kind.Embedded? then if Reached(p, lv) then TextsIn(p.kind.message, 0, x) else 0
    else One(OwnText(p, lv) && p.text == x)
  }

  function TextsInFirst(p: Part, lv: nat, x: string, n: nat): nat
    requires n <= |Parts(p)|
    decreases p, n
  {
    if n == 0 then 0 else TextsInFirst(p, lv, x, n - 1) + TextsIn(Parts(p)[n - 1], lv, x)
  }

  function HtmlsIn(p: Part, lv: nat, x: string): nat
    decreases p, |Parts(p)| + 1
  {
    if IsMultipart(p) then
      if lv < SEARCH_CONTENTS_DEPTH then One(GroupHtml(p) == Some(x)) + HtmlsInFirst(p, lv + 1, x, |Parts(p)|) else 0
    else if p.kind.Embedded? then if Reached(p, lv) then HtmlsIn(p.kind.message, 0, x) else 0
    else One(OwnHtml(p, lv) && p.html == x)
  }

  function HtmlsInFirst(p: Part, lv: nat, x: string, n: nat): nat
    requires n <= |Parts(p)|
    decreases p, n
  {
    if n == 0 then 0 else HtmlsInFirst(p, lv, x, n - 1) + HtmlsIn(Parts(p)[n - 1], lv, x)
  }

  lemma Appended(s: seq<Slot>, t: Slot, x: string)
    ensures Texts(s + [t], x) == Texts(s, x) + One(t.text == Some(x))
    ensures Htmls(s + [t], x) == Htmls(s, x) + One(t.html == Some(x))
  {
    assert (s + [t])[..|s|] == s;
  }

  lemma {:induction false} Replaced(s: seq<Slot>, k: nat, t: Slot, x: string)
    requires k < |s|
    ensures Texts(s[k := t], x) + One(s[k].text == Some(x)) == Texts(s, x) + One(t.text == Some(x))
    ensures Htmls(s[k := t], x) + One(s[k].html == Some(x)) == Htmls(s, x) + One(t.html == Some(x))
  {
    var n := |s| - 1;
    if k == n {
      assert s[k := t][..n] == s[..n];
    } else {
      Replaced(s[..n], k, t, x);
      assert s[k := t][..n] == s[..n][k := t];
    }
  }

  lemma PlaceTextCounts(w: W, text: Option<string>, x: string)
    requires !Blank(x)
    ensures Texts(PlaceText(w, text).inlines, x) == Texts(w.inlines, x) + One(text == Some(x))
    ensures Htmls(PlaceText(w, text).inlines, x) == Htmls(w.inlines, x)
  {
    hide Blank; hide Texts; hide Htmls;
    if Given(text) {
      if TextVacant(w) {
        var k := w.open[|w.open| - 1];
        Replaced(w.inlines, k, w.inlines[k].(text := text), x);
      } else {
        Appended(w.inlines, Slot(|w.inlines|, "text/plain", text, None, false, false), x);
      }
    }
  }

  lemma PlaceHtmlCounts(w: W, html: Option<string>, x: string)
    requires !Blank(x)
    ensures Htmls(PlaceHtml(w, html).inlines, x) == Htmls(w.inlines, x) + One(html == Some(x))
    ensures Texts(PlaceHtml(w, html).inlines, x) == Texts(w.inlines, x)
  {
    hide Blank; hide Texts; hide Htmls;
    if Given(html) {
      if HtmlVacant(w) {
        var k := w.open[|w.open| - 1];
        Replaced(w.inlines, k, w.inlines[k].(html := html), x);
      } else {
        Appended(w.inlines, Slot(|w.inlines|, "text/html", None, html, false, false), x);
      }
    }
  }

  lemma EnterCounts(w: W, p: Part, x: string)
    requires IsMultipart(p) && !Blank(x)
    ensures Texts(Enter(w, p).inlines, x) == Texts(w.inlines, x) + One(GroupText(p) == Some(x))
    ensures Htmls(Enter(w, p).inlines, x) == Htmls(w.inlines, x) + One(GroupHtml(p) == Some(x))
  {
    hide Blank; hide Texts; hide Htmls; hide PlaceText; hide PlaceHtml; hide CollectText; hide CollectHtml;
    if p.kind.Alternative? {
      Appended(w.inlines, Slot(|w.inlines|, "", IfGiven(GroupText(p)), IfGiven(GroupHtml(p)), true, false), x);
    } else {
      PlaceTextCounts(w, GroupText(p), x);
      PlaceHtmlCounts(PlaceText(w, GroupText(p)), GroupHtml(p), x);
    }
  }

  lemma LeafCounts(w: W, p: Part, lv: nat, x: string)
    requires !IsMultipart(p) && !p.kind.Embedded?
    ensures Texts(Leaf(w, p, lv).inlines, x) == Texts(w.inlines, x) + TextsIn(p, lv, x)
    ensures Htmls(Leaf(w, p, lv).inlines, x) == Htmls(w.inlines, x) + HtmlsIn(p, lv, x)
  {
    hide Texts; hide Htmls;
    forall t: Slot { Appended(w.inlines, t, x); }
  }

  /** The sections gain each non-blank text as often as the tree offers it, and lose none. */
  lemma {:induction false} TextsKept(w: W, p: Part, lv: nat, x: string)
    requires !Blank(x)
    ensures Texts(Visit(w, p, lv).inlines, x) == Texts(w.inlines, x) + TextsIn(p, lv, x)
    decreases p, |Parts(p)| + 1
  {
    hide Blank; hide Texts; hide Enter; hide Leaf;
    if IsMultipart(p) {
      if lv < SEARCH_CONTENTS_DEPTH {
        EnterCounts(w, p, x);
        TextsKeptFirst(Enter(w, p), p, lv + 1, x, |Parts(p)|);
      }
    } else if p.kind.Embedded? {
      if Reached(p, lv) { TextsKept(w, p.kind.message, 0, x); }
    } else {
      LeafCounts(w, p, lv, x);
    }
  }

  lemma {:induction false} TextsKeptFirst(w: W, p: Part, lv: nat, x: string, n: nat)
    requires n <= |Parts(p)| && !Blank(x)
    ensures Texts(VisitFirst(w, p, lv, n).inlines, x) == Texts(w.inlines, x) + TextsInFirst(p, lv, x, n)
    decreases p, n
  {
    hide Blank; hide Texts; hide Visit; hide TextsIn;
    if n > 0 {
      TextsKeptFirst(w, p, lv, x, n - 1);
      TextsKept(VisitFirst(w, p, lv, n - 1), Parts(p)[n - 1], lv, x);
    }
  }

  /** The same for html. */
  lemma {:induction false} HtmlsKept(w: W, p: Part, lv: nat, x: string)
    requires !Blank(x)
    ensures Htmls(Visit(w, p, lv).inlines, x) == Htmls(w.inlines, x) + HtmlsIn(p, lv, x)
    decreases p, |Parts(p)| + 1
  {
    hide Blank; hide Htmls; hide Enter; hide Leaf;
    if IsMultipart(p) {
      if lv < SEARCH_CONTENTS_DEPTH {
        EnterCounts(w, p, x);
        HtmlsKeptFirst(Enter(w, p), p, lv + 1, x, |Parts(p)|);
      }
    } else if p.kind.Embedded? {
      if Reached(p, lv) { HtmlsKept(w, p.kind.message, 0, x); }
    } else {
      LeafCounts(w, p, lv, x);
    }
  }

  lemma {:induction false} HtmlsKeptFirst(w: W, p: Part, lv: nat, x: string, n: nat)
    requires n <= |Parts(p)| && !Blank(x)
    ensures Htmls(VisitFirst(w, p, lv, n).inlines, x) == Htmls(w.inlines, x) + HtmlsInFirst(p, lv, x, n)
    decreases p, n
  {
    hide Blank; hide Htmls; hide Visit; hide HtmlsIn;
    if n > 0 {
      HtmlsKeptFirst(w, p, lv, x, n - 1);
      HtmlsKept(VisitFirst(w, p, lv, n - 1), Parts(p)[n - 1], lv, x);
    }
  }

  // ----- Groups hold their members -----

  predicate Within(s: string, t: string) {
    exists a, b :: 0 <= a <= b <= |t| && t[a..b] == s
  }

  lemma WithinLonger(s: string, t: string, before: string, after: string)
    requires Within(s, t)
    ensures Within(s, before + t + after)
  {
    var a, b :| 0 <= a <= b <= |t| && t[a..b] == s;
    assert (before + t + after)[|before| + a..|before| + b] == s;
  }

  /** Every text/plain child that is not an attachment is part of the group's text. */
  lemma {:induction false} ChildInText(parts: seq<Part>, n: nat, i: nat)
    requires i < n <= |parts| && parts[i].kind.Plain? && !parts[i].attachment
    ensures CollectText(parts, n).Some? && Within(parts[i].text, CollectText(parts, n).value)
  {
    hide *;
    CollectNext(parts, n);
    var p, before := parts[n - 1], CollectText(parts, n - 1);
    if i == n - 1 {
      EndsWithin(Lead(before), p.text);
    } else {
      ChildInText(parts, n - 1, i);
      if p.kind.Plain? && !p.attachment { StaysWithin(parts[i].text, before, p.text); }
    }
  }

  /** What stands before a further text. */
  function Lead(before: Option<string>): string {
    var text := if before.None? then "" else before.value;
    if !Blank(text) then text + "\n" else text
  }

  lemma CollectNext(parts: seq<Part>, n: nat)
    requires 0 < n <= |parts|
    ensures CollectText(parts, n) ==
      if parts[n - 1].kind.Plain? && !parts[n - 1].attachment
        then Some(Lead(CollectText(parts, n - 1)) + parts[n - 1].text)
      else CollectText(parts, n - 1)
  {
    hide Blank;
  }

  lemma EndsWithin(lead: string, text: string)
    ensures Within(text, lead + text)
  {
    assert (lead + text)[|lead|..|lead + text|] == text;
  }

  lemma StaysWithin(s: string, before: Option<string>, text: string)
    requires before.Some? && Within(s, before.value)
    ensures Within(s, Lead(before) + text)
  {
    var rest := (if !Blank(before.value) then "\n" else "") + text;
    hide Within;
    WithinLonger(s, before.value, "", rest);
    assert "" + before.value + rest == Lead(before) + text;
  }

  predicate IsPlainBody(p: Part) {
    p.kind.Plain? && !p.attachment
  }

  predicate IsHtmlBody(p: Part) {
    p.kind.Html? && !p.attachment
  }

  predicate NoBlankBody(parts: seq<Part>) {
    forall i :: 0 <= i < |parts| && IsPlainBody(parts[i]) ==> !Blank(parts[i].text)
  }

  /** Two groups, one after the other. */
  function Both(a: Option<string>, b: Option<string>, between: string): Option<string> {
    if a.None? then b else if b.None? then a else Some(a.value + between + b.value)
  }

  /** A group text with one more child. */
  function AddText(before: Option<string>, p: Part): Option<string> {
    if IsPlainBody(p) then Some(Lead(before) + p.text) else before
  }

  function AddHtml(before: Option<string>, p: Part): Option<string> {
    if IsHtmlBody(p) then Some((if before.None? then "" else before.value) + "<p>" + p.html + "</p>") else before
  }

  lemma NextText(parts: seq<Part>, n: nat)
    requires 0 < n <= |parts|
    ensures CollectText(parts, n) == AddText(CollectText(parts, n - 1), parts[n - 1])
  {
    hide Blank; hide Lead;
    CollectNext(parts, n);
  }

  lemma NextHtml(parts: seq<Part>, n: nat)
    requires 0 < n <= |parts|
    ensures CollectHtml(parts, n) == AddHtml(CollectHtml(parts, n - 1), parts[n - 1])
  {
  }

  lemma NothingCollected(parts: seq<Part>)
    ensures CollectText(parts, 0) == None && CollectHtml(parts, 0) == None
  {
  }

  /** Later children do not matter for the first ones. */
  lemma {:induction false} GroupsFirst(parts: seq<Part>, n: nat, m: nat)
    requires n <= m <= |parts|
    ensures CollectText(parts[..m], n) == CollectText(parts, n)
    ensures CollectHtml(parts[..m], n) == CollectHtml(parts, n)
  {
    hide *;
    if n == 0 {
      NothingCollected(parts);
      NothingCollected(parts[..m]);
    } else {
      GroupsFirst(parts, n - 1, m);
      NextText(parts, n);
      NextText(parts[..m], n);
      NextHtml(parts, n);
      NextHtml(parts[..m], n);
    }
  }

  /** The last child. */
  lemma LastChild(parts: seq<Part>)
    requires |parts| > 0
    ensures var init, p := parts[..|parts| - 1], parts[|parts| - 1];
      && CollectText(parts, |parts|) == AddText(CollectText(init, |init|), p)
      && CollectHtml(parts, |parts|) == AddHtml(CollectHtml(init, |init|), p)
  {
    hide *;
    GroupsFirst(parts, |parts| - 1, |parts| - 1);
    NextText(parts, |parts|);
    NextHtml(parts, |parts|);
  }

  predicate NotBlank(a: Option<string>) {
    a.Some? ==> !Blank(a.value)
  }

  lemma AddedNotBlank(before: Option<string>, p: Part)
    requires NotBlank(before) && (IsPlainBody(p) ==> !Blank(p.text))
    ensures NotBlank(AddText(before, p))
  {
    if IsPlainBody(p) {
      var lead := Lead(before);
      var i :| 0 <= i < |p.text| && !IsSpace(p.text[i]);
      assert (lead + p.text)[|lead| + i] == p.text[i];
    }
  }

  lemma {:induction false} GroupNotBlank(parts: seq<Part>)
    requires NoBlankBody(parts)
    ensures NotBlank(CollectText(parts, |parts|))
  {
    if |parts| > 0 {
      assert IsPlainBody(parts[|parts| - 1]) ==> !Blank(parts[|parts| - 1].text);
      GroupNotBlank(parts[..|parts| - 1]);
      hide *;
      LastChild(parts);
      AddedNotBlank(CollectText(parts[..|parts| - 1], |parts| - 1), parts[|parts| - 1]);
    } else {
      NothingCollected(parts);
    }
  }

  lemma AddToBoth(a: Option<string>, b: Option<string>, p: Part)
    ensures NotBlank(a) && NotBlank(b) ==> AddText(Both(a, b, "\n"), p) == Both(a, AddText(b, p), "\n")
    ensures AddHtml(Both(a, b, ""), p) == Both(a, AddHtml(b, p), "")
  {
    if NotBlank(a) && NotBlank(b) && IsPlainBody(p) { TextToBoth(a, b, p.text); }
    if IsHtmlBody(p) { HtmlToBoth(a, b, p.html); }
    hide Lead; hide Blank;
  }

  lemma TextToBoth(a: Option<string>, b: Option<string>, text: string)
    requires NotBlank(a) && NotBlank(b)
    ensures Some(Lead(Both(a, b, "\n")) + text) == Both(a, Some(Lead(b) + text), "\n")
  {
    if a.Some? && b.Some? {
      EndNotBlank(a.value + "\n", b.value);
      assert a.value + "\n" + b.value + "\n" + text == a.value + "\n" + (b.value + "\n" + text);
    } else if a.Some? {
      assert a.value + "\n" + text == a.value + "\n" + ("" + text);
    }
    hide Blank;
  }

  lemma EndNotBlank(lead: string, text: string)
    requires !Blank(text)
    ensures !Blank(lead + text)
  {
    var i :| 0 <= i < |text| && !IsSpace(text[i]);
    assert (lead + text)[|lead| + i] == text[i];
  }

  lemma HtmlToBoth(a: Option<string>, b: Option<string>, html: string)
    ensures var both, more := Both(a, b, ""), Some((if b.None? then "" else b.value) + "<p>" + html + "</p>");
      Some((if both.None? then "" else both.value) + "<p>" + html + "</p>") == Both(a, more, "")
  {
    if a.Some? {
      var y := if b.None? then "" else b.value;
      assert a.value + "" + y + "<p>" + html + "</p>" == a.value + "" + (y + "<p>" + html + "</p>");
      assert a.value + "" + "" == a.value;
    }
  }

  lemma {:induction false} GroupsJoin(xs: seq<Part>, ys: seq<Part>)
    ensures NoBlankBody(xs) && NoBlankBody(ys) ==>
      CollectText(xs + ys, |xs + ys|) == Both(CollectText(xs, |xs|), CollectText(ys, |ys|), "\n")
    ensures CollectHtml(xs + ys, |xs + ys|) == Both(CollectHtml(xs, |xs|), CollectHtml(ys, |ys|), "")
  {
    var all := xs + ys;
    if |ys| == 0 {
      assert all == xs;
      NothingCollected(ys);
    } else {
      var init, p := ys[..|ys| - 1], ys[|ys| - 1];
      assert all[..|all| - 1] == xs + init && all[|all| - 1] == p;
      if NoBlankBody(xs) && NoBlankBody(ys) {
        assert NoBlankBody(init);
        GroupNotBlank(xs);
        GroupNotBlank(init);
      }
      hide *;
      GroupsJoin(xs, init);
      LastChild(all);
      LastChild(ys);
      AddToBoth(CollectText(xs, |xs|), CollectText(init, |init|), p);
      AddToBoth(CollectHtml(xs, |xs|), CollectHtml(init, |init|), p);
    }
  }

  /** The group text of two lists of children, one after the other, is both texts with a newline between. */
  lemma TextsJoin(xs: seq<Part>, ys: seq<Part>)
    requires NoBlankBody(xs) && NoBlankBody(ys)
    ensures var a, b, r := CollectText(xs, |xs|), CollectText(ys, |ys|), CollectText(xs + ys, |xs + ys|);
      && (a.None? ==> r == b) && (b.None? ==> r == a)
      && (a.Some? && b.Some? ==> r == Some(a.value + "\n" + b.value))
  {
    hide CollectText; hide NoBlankBody;
    GroupsJoin(xs, ys);
  }

  /** The group html of two lists of children, one after the other, is both htmls. */
  lemma HtmlsJoin(xs: seq<Part>, ys: seq<Part>)
    ensures var a, b, r := CollectHtml(xs, |xs|), CollectHtml(ys, |ys|), CollectHtml(xs + ys, |xs + ys|);
      && (a.None? ==> r == b) && (b.None? ==> r == a) && (a.Some? && b.Some? ==> r == Some(a.value + b.value))
  {
    hide CollectHtml; hide NoBlankBody;
    GroupsJoin(xs, ys);
    var a := CollectHtml(xs, |xs|);
    if a.Some? { assert a.value + "" == a.value; }
  }

  /** What a single child gives its group. */
  lemma OneChild(p: Part)
    ensures CollectText([p], 1) == if IsPlainBody(p) then Some(p.text) else None
    ensures CollectHtml([p], 1) == if IsHtmlBody(p) then Some("<p>" + p.html + "</p>") else None
  {
    assert CollectText([p], 0) == None && CollectHtml([p], 0) == None;
    assert "" + p.text == p.text;
    assert "" + "<p>" + p.html + "</p>" == "<p>" + p.html + "</p>";
  }

  /** inline_contents of a whole message: sections numbered by position, and each non-blank text or html
      present as often as the message offers it. */
  lemma Displayed(mail: Part, x: string)
    requires !Blank(x)
    ensures var w := Visit(W([], []), mail, 0);
      && w.open == [] && (forall i :: 0 <= i < |w.inlines| ==> w.inlines[i].seqno == i)
      && Texts(w.inlines, x) == TextsIn(mail, 0, x) && Htmls(w.inlines, x) == HtmlsIn(mail, 0, x)
  {
    VisitKeeps(W([], []), mail, 0);
    hide Blank; hide Visit;
    TextsKept(W([], []), mail, 0, x);
    HtmlsKept(W([], []), mail, 0, x);
  }

  // ----- Depth -----

  /** A chain of n multiparts around a part. */
  function Nested(n: nat, leaf: Part): Part {
    if n == 0 then leaf else Part(Multipart("multipart/mixed", [Nested(n - 1, leaf)]), false, true, "", "", "")
  }

  /** The number of enclosing multiparts decides: a body five levels down is shown, one six levels down is not. */
  lemma {:induction false} DepthLimit(n: nat, lv: nat, text: string)
    requires 1 <= n && !Blank(text)
    ensures TextsIn(Nested(n, Part(Plain, false, true, "", text, "")), lv, text) == One(n + lv <= SEARCH_CONTENTS_DEPTH)
  {
    var leaf := Part(Plain, false, true, "", text, "");
    var p, child := Nested(n, leaf), Nested(n - 1, leaf);
    assert Parts(p) == [child];
    assert TextsInFirst(p, lv + 1, text, 1) == TextsInFirst(p, lv + 1, text, 0) + TextsIn(child, lv + 1, text);
    assert CollectText([child], 0) == None;
    if n == 1 {
      assert GroupText(p) == Some("" + text);
      assert "" + text == text;
    } else {
      DepthLimit(n - 1, lv + 1, text);
      assert GroupText(p) == None;
    }
  }
}
