/** Which parts of a message are listed as attachments and which texts it shows, told on the paths to them. */
module MimeFound {
  import opened MimeGroups
  import opened MimePaths
  import opened MimeTree
  import opened MimeWalk
  import opened Text
  import opened Wrappers

  // ----- Attachments -----

  /** An attachment whose name has a character that is not white space. */
  predicate Named(p: Part) {
    p.attachment && exists i :: 0 <= i < |p.filename| && !IsSpace(p.filename[i])
  }

  /** Named attachments; the walk goes on inside other parts, but not in a multipart with five above it. */
  ghost function FileWalk(): Walk {
    Walk((p: Part, lv: nat) => Named(p), (p: Part, lv: nat) => !Named(p) && (IsMultipart(p) ==> lv < 5))
  }

  /** The files are the parts at the ends of the paths. */
  ghost predicate FilesAt(p: Part, paths: seq<seq<nat>>, files: seq<Part>) {
    |paths| == |files| && forall i :: 0 <= i < |paths| ==> IsPath(p, paths[i]) && At(p, paths[i]) == files[i]
  }

  lemma FilesVia(p: Part, n: nat, paths: seq<seq<nat>>, files: seq<Part>, more: seq<seq<nat>>, found: seq<Part>)
    requires IsStep(p, n) && FilesAt(p, paths, files) && FilesAt(Child(p, n), more, found)
    ensures FilesAt(p, paths + Via(n, more), files + found)
  {
    var v := Via(n, more);
    forall i | 0 <= i < |v| ensures IsPath(p, v[i]) && At(p, v[i]) == found[i] { assert v[i][1..] == more[i]; }
    hide IsPath; hide At;
  }

  /** The walk goes on inside p. */
  predicate Searched(p: Part, lv: nat) {
    !IsFile(p) && Steps(p) > 0 && (IsMultipart(p) ==> lv < 5)
  }

  lemma GatheredFiles(p: Part, lv: nat)
    ensures Gathered(p, lv, FileWalk()) ==
      if IsFile(p) then [[]] else if Searched(p, lv) then GatheredFirst(p, lv, FileWalk(), Steps(p)) else []
  {
    assert IsFile(p) <==> Named(p);
    hide IsFile; hide Named;
    var first := GatheredFirst(p, lv, FileWalk(), Steps(p));
    assert Steps(p) == 0 ==> first == [];
    hide GatheredFirst;
    assert [] + first == first;
  }

  lemma FilesAtSelf(p: Part, lv: nat)
    ensures IsFile(p) ==> Files(p, lv) == [p] && FilesAt(p, [[]], [p])
    ensures !IsFile(p) && !Searched(p, lv) ==> Files(p, lv) == [] && FilesAt(p, [], [])
    ensures Searched(p, lv) ==>
      Files(p, lv) == if IsMultipart(p) then FilesFirst(p, lv + 1, Steps(p)) else Files(p.kind.message, 0)
  {
    assert At(p, []) == p;
    hide IsFile; hide FilesFirst;
  }

  lemma {:induction false} FilesGathered(p: Part, lv: nat)
    ensures FilesAt(p, Gathered(p, lv, FileWalk()), Files(p, lv))
    decreases p, Steps(p) + 1
  {
    GatheredFiles(p, lv);
    FilesAtSelf(p, lv);
    if Searched(p, lv) {
      FilesFirstGathered(p, lv, Steps(p));
      assert !IsMultipart(p) ==> Steps(p) == 1;
      hide *;
    }
    hide *;
  }

  lemma {:induction false} FilesFirstGathered(p: Part, lv: nat, n: nat)
    requires n <= Steps(p)
    ensures FilesAt(p, GatheredFirst(p, lv, FileWalk(), n),
      if IsMultipart(p) then FilesFirst(p, lv + 1, n) else if n == 0 then [] else Files(p.kind.message, 0))
    decreases p, n
  {
    hide Named; hide IsFile; hide FilesAt; hide Files; hide Gathered;
    if n == 0 {
      NoFiles(p);
    } else {
      FilesFirstGathered(p, lv, n - 1);
      FilesGathered(Child(p, n - 1), Inside(p, lv));
      var before := if IsMultipart(p) then FilesFirst(p, lv + 1, n - 1) else [];
      FilesVia(p, n - 1, GatheredFirst(p, lv, FileWalk(), n - 1), before,
        Gathered(Child(p, n - 1), Inside(p, lv), FileWalk()), Files(Child(p, n - 1), Inside(p, lv)));
      assert !IsMultipart(p) ==> [] + Files(p.kind.message, 0) == Files(p.kind.message, 0);
    }
  }

  lemma NoFiles(p: Part)
    ensures FilesAt(p, [], [])
  {
  }

  /** attachments: exactly the named attachments with no other above them that the depth lets the walk reach, each as
      often as it occurs and in message order. */
  lemma FilesFound(mail: Part)
    ensures var paths := Gathered(mail, 0, FileWalk());
      FilesAt(mail, paths, Files(mail, 0)) && AllFound(mail, 0, FileWalk(), paths)
  {
    hide Gathered; hide Files;
    FilesGathered(mail, 0);
    GatheredIn(mail, 0, FileWalk());
  }

  // ----- Texts and htmls -----

  /** A multipart with less than five above it offers its group; a single part offers its body where it is shown. */
  predicate OffersText(p: Part, lv: nat, x: string) {
    if IsMultipart(p) then lv < 5 && GroupText(p) == Some(x)
    else
      p.text == x && match p.kind
        case Plain => lv == 0 || (p.shown && p.attachment)
        case OtherText(_) => lv == 0 || p.shown
        case OtherKind(_) => lv == 0 && !p.attachment
        case _ => false
  }

  predicate OffersHtml(p: Part, lv: nat, x: string) {
    if IsMultipart(p) then lv < 5 && GroupHtml(p) == Some(x)
    else p.html == x && p.kind.Html? && (lv == 0 || (p.shown && p.attachment))
  }

  /** The walk goes on in multiparts with less than five above them and in messages that are shown. */
  predicate GoesOn(p: Part, lv: nat) {
    if IsMultipart(p) then lv < 5 else lv == 0 || p.shown
  }

  ghost function TextWalk(x: string): Walk {
    Walk((p: Part, lv: nat) => OffersText(p, lv, x), (p: Part, lv: nat) => GoesOn(p, lv))
  }

  ghost function HtmlWalk(x: string): Walk {
    Walk((p: Part, lv: nat) => OffersHtml(p, lv, x), (p: Part, lv: nat) => GoesOn(p, lv))
  }

  lemma {:induction false} TextsGathered(p: Part, lv: nat, x: string)
    ensures |Gathered(p, lv, TextWalk(x))| == TextsIn(p, lv, x)
    decreases p, Steps(p) + 1
  {
    hide GroupText;
    if Steps(p) > 0 && GoesOn(p, lv) { TextsFirstGathered(p, lv, x, Steps(p)); }
  }

  lemma {:induction false} TextsFirstGathered(p: Part, lv: nat, x: string, n: nat)
    requires n <= Steps(p)
    ensures |GatheredFirst(p, lv, TextWalk(x), n)| ==
      if IsMultipart(p) then TextsInFirst(p, lv + 1, x, n) else if n == 0 then 0 else TextsIn(p.kind.message, 0, x)
    decreases p, n
  {
    hide TextsIn; hide Gathered;
    if n > 0 {
      TextsFirstGathered(p, lv, x, n - 1);
      TextsGathered(Child(p, n - 1), Inside(p, lv), x);
    }
  }

  lemma {:induction false} HtmlsGathered(p: Part, lv: nat, x: string)
    ensures |Gathered(p, lv, HtmlWalk(x))| == HtmlsIn(p, lv, x)
    decreases p, Steps(p) + 1
  {
    hide GroupHtml;
    if Steps(p) > 0 && GoesOn(p, lv) { HtmlsFirstGathered(p, lv, x, Steps(p)); }
  }

  lemma {:induction false} HtmlsFirstGathered(p: Part, lv: nat, x: string, n: nat)
    requires n <= Steps(p)
    ensures |GatheredFirst(p, lv, HtmlWalk(x), n)| ==
      if IsMultipart(p) then HtmlsInFirst(p, lv + 1, x, n) else if n == 0 then 0 else HtmlsIn(p.kind.message, 0, x)
    decreases p, n
  {
    hide HtmlsIn; hide Gathered;
    if n > 0 {
      HtmlsFirstGathered(p, lv, x, n - 1);
      HtmlsGathered(Child(p, n - 1), Inside(p, lv), x);
    }
  }

  /** inline_contents of a message: as many sections have a non-blank text, or html, as there are paths to parts that
      offer it. */
  lemma ShownFound(mail: Part, x: string)
    requires !Blank(x)
    ensures var s, texts, htmls := Visit(W([], []), mail, 0).inlines, Gathered(mail, 0, TextWalk(x)),
        Gathered(mail, 0, HtmlWalk(x));
      && Texts(s, x) == |texts| && AllFound(mail, 0, TextWalk(x), texts)
      && Htmls(s, x) == |htmls| && AllFound(mail, 0, HtmlWalk(x), htmls)
  {
    hide *;
    Displayed(mail, x);
    TextsGathered(mail, 0, x);
    HtmlsGathered(mail, 0, x);
    GatheredIn(mail, 0, TextWalk(x));
    GatheredIn(mail, 0, HtmlWalk(x));
  }
}
