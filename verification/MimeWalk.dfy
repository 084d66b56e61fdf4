/** inline_contents and attachments as they run: recursive closures that push to lists and a stack they share,
    proved to compute the walk on values. */
module MimeWalk {
  import opened MimeTree
  import opened Text
  import opened Wrappers

  class Inline {
    const seqno: nat
    const contentType: string
    const alternative: bool
    const attachment: bool
    var textBody: Option<string>
    var htmlBody: Option<string>

    constructor (seqno: nat, contentType: string, text: Option<string>, html: Option<string>, alternative: bool,
                 attachment: bool)
      ensures Value() == Slot(seqno, contentType, text, html, alternative, attachment)
    {
      this.seqno, this.contentType, this.alternative, this.attachment := seqno, contentType, alternative, attachment;
      textBody, htmlBody := text, html;
    }

    function Value(): Slot
      reads this
    {
      Slot(seqno, contentType, textBody, htmlBody, alternative, attachment)
    }
  }

  class Contents {
    var inlines: seq<Inline>
    var alternates: seq<Inline>

    constructor ()
      ensures inlines == [] && alternates == []
    {
      inlines, alternates := [], [];
    }

    /** Sections are numbered by position, and the stack holds sections. */
    ghost predicate Valid()
      reads this, inlines
    {
      && (forall i :: 0 <= i < |inlines| ==> inlines[i].seqno == i)
      && (forall k :: 0 <= k < |alternates| ==>
             alternates[k].seqno < |inlines| && inlines[alternates[k].seqno] == alternates[k])
    }

    ghost function Now(): W
      reads this, inlines
    {
      W(seq(|inlines|, i requires 0 <= i < |inlines| reads this, inlines => inlines[i].Value()),
        seq(|alternates|, i requires 0 <= i < |alternates| reads this => alternates[i].seqno))
    }

    method Push(contentType: string, text: Option<string>, html: Option<string>, attachment: bool)
      requires Valid()
      modifies this`inlines
      ensures Valid() && Now() == Add(old(Now()), contentType, text, html, attachment)
      ensures old(inlines) <= inlines && forall i :: |old(inlines)| <= i < |inlines| ==> fresh(inlines[i])
    {
      var inline := new Inline(|inlines|, contentType, text, html, false, attachment);
      inlines := inlines + [inline];
      assert Now().inlines == old(Now()).inlines + [inline.Value()];
    }

    method AddText(text: Option<string>)
      requires Valid()
      modifies this`inlines, inlines
      ensures Valid() && Now() == PlaceText(old(Now()), text)
      ensures old(inlines) <= inlines && alternates == old(alternates)
      ensures forall i :: |old(inlines)| <= i < |inlines| ==> fresh(inlines[i])
    {
      hide Blank;
      if Given(text) {
        if |alternates| > 0 && !Given(alternates[|alternates| - 1].textBody) {
          var k := alternates[|alternates| - 1].seqno;
          alternates[|alternates| - 1].textBody := text;
          assert Now().inlines == old(Now()).inlines[k := old(Now()).inlines[k].(text := text)];
        } else {
          Push("text/plain", text, None, false);
        }
      }
    }

    method AddHtml(html: Option<string>)
      requires Valid()
      modifies this`inlines, inlines
      ensures Valid() && Now() == PlaceHtml(old(Now()), html)
      ensures old(inlines) <= inlines && alternates == old(alternates)
      ensures forall i :: |old(inlines)| <= i < |inlines| ==> fresh(inlines[i])
    {
      hide Blank;
      if Given(html) {
        if |alternates| > 0 && !Given(alternates[|alternates| - 1].htmlBody) {
          var k := alternates[|alternates| - 1].seqno;
          alternates[|alternates| - 1].htmlBody := html;
          assert Now().inlines == old(Now()).inlines[k := old(Now()).inlines[k].(html := html)];
        } else {
          Push("text/html", None, html, false);
        }
      }
    }

    /** The part on its own. */
    method ShowLeaf(p: Part, lv: nat)
      requires Valid() && !p.kind.Embedded? && !IsMultipart(p)
      modifies this`inlines
      ensures Valid() && Now() == Leaf(old(Now()), p, lv)
      ensures old(inlines) <= inlines && forall i :: |old(inlines)| <= i < |inlines| ==> fresh(inlines[i])
    {
      hide Add;
      if Reached(p, lv) {
        match p.kind {
          case Plain => if lv == 0 || p.attachment { Push("text/plain", Some(p.text), None, p.attachment); }
          case Html => if lv == 0 || p.attachment { Push("text/html", None, Some(p.html), p.attachment); }
          case OtherText(name) => Push(name, Some(p.text), None, p.attachment);
          case OtherKind(_) => if lv == 0 && !p.attachment { Push("text/plain", Some(p.text), None, false); }
          case _ =>
        }
      }
    }

    /** A new section that collects text and html of what lies below. */
    method OpenAlternative(text: Option<string>, html: Option<string>)
      requires Valid()
      modifies this
      ensures Valid()
      ensures Now() == W(old(Now()).inlines
        + [Slot(|old(Now()).inlines|, "", IfGiven(text), IfGiven(html), true, false)],
                                    old(Now()).open + [|old(Now()).inlines|])
      ensures old(inlines) <= inlines && forall i :: |old(inlines)| <= i < |inlines| ==> fresh(inlines[i])
      ensures |alternates| == |old(alternates)| + 1 && alternates[..|old(alternates)|] == old(alternates)
    {
      hide Given;
      var alt := new Inline(|inlines|, "", None, None, true, false);
      if Given(text) { alt.textBody := text; }
      if Given(html) { alt.htmlBody := html; }
      inlines := inlines + [alt];
      alternates := alternates + [alt];
      assert Now().inlines == old(Now()).inlines + [alt.Value()];
      assert Now().open == old(Now()).open + [alt.seqno];
    }

    /** A multipart before its children. */
    method Open(p: Part)
      requires Valid() && IsMultipart(p)
      modifies this, inlines
      ensures Valid() && Now() == Enter(old(Now()), p)
      ensures old(inlines) <= inlines && forall i :: |old(inlines)| <= i < |inlines| ==> fresh(inlines[i])
      ensures p.kind.Alternative? ==>
             |alternates| == |old(alternates)| + 1 && alternates[..|old(alternates)|] == old(alternates)
      ensures !p.kind.Alternative? ==> alternates == old(alternates)
    {
      hide Given; hide PlaceText; hide PlaceHtml;
      var text := TextOf(p);
      var html := HtmlOf(p);
      if p.kind.Alternative? {
        OpenAlternative(text, html);
      } else {
        AddText(text);
        AddHtml(html);
      }
    }

    /** search_inline */
    method Search(p: Part, lv: nat)
      requires Valid()
      modifies this, inlines
      ensures Valid() && Now() == Visit(old(Now()), p, lv)
      ensures old(inlines) <= inlines && forall i :: |old(inlines)| <= i < |inlines| ==> fresh(inlines[i])
      ensures alternates == old(alternates)
      decreases p, |Parts(p)| + 1
    {
      hide Valid; hide Now; hide Leaf; hide Enter;
      if p.kind.Embedded? {
        if Reached(p, lv) { Search(p.kind.message, 0); }
      } else if !IsMultipart(p) {
        ShowLeaf(p, lv);
      }
      if IsMultipart(p) && lv < SEARCH_CONTENTS_DEPTH {
        Open(p);
        SearchAll(p, lv + 1);
        if p.kind.Alternative? { Pop(); }
      }
    }

    method Pop()
      requires Valid() && |alternates| > 0
      modifies this`alternates
      ensures Valid() && Now() == W(old(Now()).inlines, old(Now()).open[..|old(Now()).open| - 1])
      ensures |old(Now()).open| > 0 && alternates == old(alternates)[..|old(alternates)| - 1]
    {
      alternates := alternates[..|alternates| - 1];
      assert Now().open == old(Now()).open[..|old(Now()).open| - 1];
    }

    /** p.parts.each */
    method SearchAll(p: Part, lv: nat)
      requires Valid()
      modifies this, inlines
      ensures Valid() && Now() == VisitFirst(old(Now()), p, lv, |Parts(p)|)
      ensures old(inlines) <= inlines && forall i :: |old(inlines)| <= i < |inlines| ==> fresh(inlines[i])
      ensures alternates == old(alternates)
      decreases p, |Parts(p)|
    {
      for n := 0 to |Parts(p)|
        invariant Valid() && Now() == VisitFirst(old(Now()), p, lv, n)
        invariant old(inlines) <= inlines && alternates == old(alternates)
        invariant forall i :: |old(inlines)| <= i < |inlines| ==> fresh(inlines[i])
      {
        hide Valid; hide Now; hide Visit;
        Search(Parts(p)[n], lv);
      }
    }
  }

  /** collect_text */
  method TextOf(p: Part) returns (text: Option<string>)
    ensures text == GroupText(p)
  {
    text := None;
    for n := 0 to |Parts(p)|
      invariant text == CollectText(Parts(p), n)
    {
      hide Blank;
      var c := Parts(p)[n];
      if c.kind.Plain? && !c.attachment {
        if text.None? { text := Some(""); }
        if Given(text) { text := Some(text.value + "\n"); }
        text := Some(text.value + c.text);
      }
    }
  }

  /** collect_html */
  method HtmlOf(p: Part) returns (html: Option<string>)
    ensures html == GroupHtml(p)
  {
    html := None;
    for n := 0 to |Parts(p)|
      invariant html == CollectHtml(Parts(p), n)
    {
      var c := Parts(p)[n];
      if c.kind.Html? && !c.attachment {
        if html.None? { html := Some(""); }
        html := Some(html.value + ("<p>" + c.html + "</p>"));
        assert html.value == (if CollectHtml(Parts(p), n).None? then "" else CollectHtml(Parts(p), n).value) + "<p>"
          + c.html + "</p>";
      }
    }
  }

  /** inline_contents of a message: sections with html and no text get the html as text. */
  method InlineContents(mail: Part, toText: string -> string) returns (contents: Contents)
    ensures fresh(contents) && contents.Valid() && contents.alternates == []
    ensures var w := Visit(W([], []), mail, 0);
      && |contents.inlines| == |w.inlines|
      && forall i :: 0 <= i < |w.inlines| ==>
        var s := w.inlines[i];
        contents.inlines[i].Value() ==
          s.(text := if s.text.None? && s.html.Some? then Some(toText(s.html.value)) else s.text)
  {
    contents := new Contents();
    assert contents.Now() == W([], []);
    contents.Search(mail, 0);
    ghost var w := contents.Now();
    for k := 0 to |contents.inlines|
      invariant contents.Valid() && contents.alternates == [] && |contents.inlines| == |w.inlines|
      invariant forall i :: 0 <= i < |contents.inlines| ==> fresh(contents.inlines[i])
      invariant forall i :: 0 <= i < |w.inlines| ==>
        var s := w.inlines[i];
        contents.inlines[i].Value() ==
          s.(text := if i < k && s.text.None? && s.html.Some? then Some(toText(s.html.value)) else s.text)
    {
      hide Visit;
      var inline := contents.inlines[k];
      assert forall i :: 0 <= i < |contents.inlines| && i != k ==> contents.inlines[i] != inline;
      if inline.textBody.None? && inline.htmlBody.Some? {
        inline.textBody := Some(toText(inline.htmlBody.value));
      }
    }
  }

  // ----- Attachments -----

  datatype Attachment = Attachment(seqno: nat, part: Part)

  predicate IsFile(p: Part) {
    p.attachment && !Blank(p.filename)
  }

  /** The files of a message in order: named attachments, not those inside other named attachments, five
      levels deep per message. */
  function Files(p: Part, lv: nat): seq<Part>
    decreases p, |Parts(p)| + 1
  {
    if IsFile(p) then [p]
    else if IsMultipart(p) then if lv < SEARCH_CONTENTS_DEPTH then FilesFirst(p, lv + 1, |Parts(p)|) else []
    else if p.kind.Embedded? then Files(p.kind.message, 0)
    else []
  }

  function FilesFirst(p: Part, lv: nat, n: nat): seq<Part>
    requires n <= |Parts(p)|
    decreases p, n
  {
    if n == 0 then [] else FilesFirst(p, lv, n - 1) + Files(Parts(p)[n - 1], lv)
  }

  /** The shared list: numbered by position. */
  ghost predicate Lists(found: seq<Attachment>, files: seq<Part>) {
    |found| == |files| && forall i :: 0 <= i < |found| ==> found[i] == Attachment(i, files[i])
  }

  class Collector {
    var found: seq<Attachment>

    constructor ()
      ensures found == []
    {
      found := [];
    }

    /** attached_files: appends the files of the part to whatever was found before. */
    method Attached(p: Part, lv: nat, ghost before: seq<Part>)
      requires Lists(found, before)
      modifies this
      ensures Lists(found, before + Files(p, lv))
      decreases p, |Parts(p)| + 1
    {
      if IsFile(p) {
        found := found + [Attachment(|found|, p)];
      } else if IsMultipart(p) {
        if lv < SEARCH_CONTENTS_DEPTH {
          assert before + FilesFirst(p, lv + 1, 0) == before;
          for n := 0 to |Parts(p)|
            invariant Lists(found, before + FilesFirst(p, lv + 1, n))
          {
            hide Lists; hide Files;
            Attached(Parts(p)[n], lv + 1, before + FilesFirst(p, lv + 1, n));
            assert before + FilesFirst(p, lv + 1, n) + Files(Parts(p)[n], lv + 1)
              == before + FilesFirst(p, lv + 1, n + 1);
          }
        }
      } else if p.kind.Embedded? {
        Attached(p.kind.message, 0, before);
      }
    }
  }
}
