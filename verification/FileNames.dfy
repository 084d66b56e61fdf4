/** Names of the files in a zip of attachments: forbidden characters are replaced, a byte limit cuts the base but
    not the extension, and no name is given twice. */
module FileNames {
  import opened Collections

  /** Bytes of a character in the encoding of the names. */
  type Encoding = char -> nat

  ghost predicate Sizes(bytes: Encoding) {
    forall c :: 1 <= bytes(c) && (c as int < 0x80 ==> bytes(c) == 1)
  }

  function ByteSize(s: string, bytes: Encoding): nat {
    if s == "" then 0 else ByteSize(s[..|s| - 1], bytes) + bytes(s[|s| - 1])
  }

  lemma {:induction false} ByteSizeJoin(a: string, b: string, bytes: Encoding)
    ensures ByteSize(a + b, bytes) == ByteSize(a, bytes) + ByteSize(b, bytes)
  {
    if b == "" {
      assert a + b == a;
    } else {
      assert (a + b)[..|a + b| - 1] == a + b[..|b| - 1];
      ByteSizeJoin(a, b[..|b| - 1], bytes);
    }
  }

  // ----- Base name and extension of a name without slashes -----

  /** Number of leading dots. */
  function Dots(s: string): (d: nat)
    ensures d <= |s| && (forall i :: 0 <= i < d ==> s[i] == '.') && (d < |s| ==> s[d] != '.')
  {
    if s == "" || s[0] != '.' then 0 else 1 + Dots(s[1..])
  }

  /** Position of the last dot of s[from..], or |s|. */
  function LastDot(s: string, from: nat, n: nat): (k: nat)
    requires from <= n <= |s|
    ensures k <= |s| && (k < |s| ==> from <= k < n && s[k] == '.')
    ensures (k == |s| ==> forall i :: from <= i < n ==> s[i] != '.')
    ensures k < |s| ==> forall i :: k < i < n ==> s[i] != '.'
  {
    if n == from then |s| else if s[n - 1] == '.' then n - 1 else LastDot(s, from, n - 1)
  }

  /** File.basename(name, ".*") */
  function Base(s: string): string {
    s[..LastDot(s, Dots(s), |s|)]
  }

  /** File.extname: from the last dot on, leading dots not counting. As in Ruby 2.7 and later, a name that ends in a
      dot has the extension "."; older versions give it none. */
  function Ext(s: string): string {
    s[LastDot(s, Dots(s), |s|)..]
  }

  lemma BaseExt(s: string)
    ensures Base(s) + Ext(s) == s
  {
  }

  /** The extension starts with the last dot that follows another character than a dot; it is empty when there is no
      such dot. */
  lemma ExtIs(s: string)
    ensures Ext(s) != "" ==> Ext(s)[0] == '.' && '.' !in Ext(s)[1..] && exists i :: 0 <= i < |Base(s)| && s[i] != '.'
    ensures Ext(s) == "" <==> forall i, j :: 0 <= i < j < |s| && s[i] != '.' ==> s[j] != '.'
  {
    var d := Dots(s);
    var k := LastDot(s, d, |s|);
    if k < |s| {
      assert s[d] != '.' && d < k;
      assert Base(s)[d] == s[d];
    }
  }

  // ----- filesystemize -----

  predicate Forbidden(c: char) {
    c in {'/', '<', '>', '|', ':', ';', '"', '?', '*', '\\', '\r', '\n'}
  }

  function Replaced(name: string): (r: string)
    ensures |r| == |name|
    ensures forall i :: 0 <= i < |r| ==> !Forbidden(r[i]) && r[i] == if Forbidden(name[i]) then '_' else name[i]
  {
    if name == "" then ""
    else
      var last := name[|name| - 1];
      Replaced(name[..|name| - 1]) + [if Forbidden(last) then '_' else last]
  }

  /** The characters that are replaced. */
  const SEPARATORS := "/<>|:;\"?*\\\r\n"

  ghost predicate Clean(s: string) {
    forall i :: 0 <= i < |s| ==> s[i] !in SEPARATORS
  }

  /** Exactly the separators are replaced. */
  lemma ReplacedIs(name: string)
    ensures Clean(Replaced(name))
    ensures forall i :: 0 <= i < |name| && name[i] !in SEPARATORS ==> Replaced(name)[i] == name[i]
  {
    forall c ensures Forbidden(c) <==> c in SEPARATORS { SeparatorIs(c); }
  }

  lemma SeparatorIs(c: char)
    ensures Forbidden(c) <==> c in SEPARATORS
  {
    var s := SEPARATORS;
    assert s[0] == '/' && s[1] == '<' && s[2] == '>' && s[3] == '|' && s[4] == ':' && s[5] == ';' && s[6] == '"';
    assert s[7] == '?' && s[8] == '*' && s[9] == '\\' && s[10] == '\r' && s[11] == '\n' && |s| == 12;
  }

  /** The longest prefix that leaves room for the extension. */
  ghost predicate Longest(s: string, k: nat, limit: nat, ext: nat, bytes: Encoding) {
    && k <= |s| && (k > 0 ==> ByteSize(s[..k], bytes) + ext <= limit)
    && (k < |s| ==> limit < ByteSize(s[..k + 1], bytes) + ext)
  }

  method TruncateByteSize(name: string, byteSize: nat, keepExt: bool, bytes: Encoding) returns (r: string)
    ensures exists k: nat :: Longest(name, k, byteSize, ByteSize(if keepExt then Ext(name) else "", bytes), bytes) &&
                   r == name[..k] + if keepExt then Ext(name) else ""
  {
    var ext := if keepExt then Ext(name) else "";
    var str, i := "", 0;
    while i < |name|
      invariant i <= |name| && str == name[..i]
      invariant i > 0 ==> ByteSize(name[..i], bytes) + ByteSize(ext, bytes) <= byteSize
    {
      assert name[..i + 1][..i] == name[..i];
      if byteSize < ByteSize(str, bytes) + bytes(name[i]) + ByteSize(ext, bytes) {
        break;
      }
      str := str + [name[i]];
      i := i + 1;
    }
    assert Longest(name, i, byteSize, ByteSize(ext, bytes), bytes);
    r := str + ext;
  }

  /** What a byte limit with the extension kept makes of a name. */
  ghost predicate Cut(name: string, limit: nat, bytes: Encoding, r: string) {
    if ByteSize(name, bytes) <= limit then r == name
    else exists k: nat :: Longest(name, k, limit, ByteSize(Ext(name), bytes), bytes) && r == name[..k] + Ext(name)
  }

  /** filesystemize(name, byte_size: n, keep_ext: true) */
  method Filesystemize(name: string, byteSize: nat, bytes: Encoding) returns (r: string)
    ensures Cut(Replaced(name), byteSize, bytes, r)
  {
    r := Replaced(name);
    if byteSize < ByteSize(r, bytes) {
      r := TruncateByteSize(r, byteSize, true, bytes);
    }
  }

  lemma {:induction false} PrefixSize(s: string, a: nat, b: nat, bytes: Encoding)
    requires a <= b <= |s|
    ensures ByteSize(s[..a], bytes) <= ByteSize(s[..b], bytes)
  {
    assert s[..b] == s[..a] + s[a..b];
    ByteSizeJoin(s[..a], s[a..b], bytes);
  }

  /** A cut name is a prefix of the base followed by the whole extension; it keeps the limit exactly when
      the name needed no cut or its extension fits. */
  lemma CutIs(name: string, limit: nat, bytes: Encoding, r: string)
    requires Cut(name, limit, bytes, r) && Sizes(bytes)
    ensures ByteSize(r, bytes) <= limit <==> ByteSize(name, bytes) <= limit || ByteSize(Ext(name), bytes) <= limit
    ensures exists k :: 0 <= k <= |Base(name)| && r == Base(name)[..k] + Ext(name)
  {
    BaseExt(name);
    ByteSizeJoin(Base(name), Ext(name), bytes);
    if ByteSize(name, bytes) <= limit {
      assert Base(name)[..|Base(name)|] == Base(name);
    } else {
      var k: nat :| Longest(name, k, limit, ByteSize(Ext(name), bytes), bytes) && r == name[..k] + Ext(name);
      CutShort(name, k, limit, bytes);
    }
  }

  lemma CutShort(name: string, k: nat, limit: nat, bytes: Encoding)
    requires ByteSize(name, bytes) > limit && Longest(name, k, limit, ByteSize(Ext(name), bytes), bytes) && Sizes(bytes)
    ensures k <= |Base(name)| && name[..k] == Base(name)[..k]
    ensures ByteSize(name[..k] + Ext(name), bytes) <= limit <==> ByteSize(Ext(name), bytes) <= limit
  {
    BaseExt(name);
    ByteSizeJoin(Base(name), Ext(name), bytes);
    ByteSizeJoin(name[..k], Ext(name), bytes);
    assert name[..|Base(name)|] == Base(name);
    if k > |Base(name)| { PrefixSize(name, |Base(name)|, k, bytes); }
    assert Base(name)[..k] == name[..k];
  }

  // ----- unique_filenames -----

  function Digit(k: nat): char
    requires k < 10
  {
    '0' + (k as char)
  }

  function Dec(n: nat): (s: string)
    ensures |s| > 0 && (n < 10 <==> |s| == 1) && forall i :: 0 <= i < |s| ==> '0' <= s[i] <= '9'
  {
    if n < 10 then [Digit(n)] else Dec(n / 10) + [Digit(n % 10)]
  }

  function Numbered(name: string, n: nat): string {
    Base(name) + "_" + Dec(n) + Ext(name)
  }

  /** Is one of the first k numbered forms free? */
  function Free(name: string, taken: seq<string>, n: nat): nat
    requires n <= 256
    decreases 256 - n
  {
    if n > 255 || Numbered(name, n) !in taken then n else Free(name, taken, n + 1)
  }

  function Chosen(name: string, taken: seq<string>): string {
    if name !in taken then name else if Free(name, taken, 1) > 255 then name else Numbered(name, Free(name, taken, 1))
  }

  function Uniques(names: seq<string>): (r: seq<string>)
    ensures |r| == |names|
  {
    if names == [] then []
    else
      Uniques(names[..|names| - 1]) +
      [Chosen(names[|names| - 1], Uniques(names[..|names| - 1]))]
  }

  method UniqueFilenames(names: seq<string>) returns (uniques: seq<string>)
    ensures uniques == Uniques(names)
  {
    uniques := [];
    for k := 0 to |names|
      invariant uniques == Uniques(names[..k])
    {
      hide Numbered;
      assert names[..k + 1][..k] == names[..k];
      var name := names[k];
      if name in uniques {
        var n := 1;
        while n <= 255
          invariant 1 <= n <= 256 && name == names[k] && Free(names[k], uniques, 1) == Free(names[k], uniques, n)
          decreases 256 - n
        {
          var seqname := Numbered(name, n);
          if seqname !in uniques {
            name := seqname;
            break;
          }
          n := n + 1;
        }
      }
      uniques := uniques + [name];
    }
    assert names[..|names|] == names;
  }

  /** The number that a decimal numeral stands for. */
  function Value(s: string): nat
    requires forall i :: 0 <= i < |s| ==> '0' <= s[i] <= '9'
  {
    if s == "" then 0 else Value(s[..|s| - 1]) * 10 + (s[|s| - 1] - '0') as nat
  }

  lemma {:induction false} DecValue(n: nat)
    ensures Value(Dec(n)) == n
  {
    var s := Dec(n);
    if n >= 10 {
      DecValue(n / 10);
      assert s[..|s| - 1] == Dec(n / 10);
    } else {
      assert s[..0] == "";
    }
  }

  lemma {:induction false} DecInjective(a: nat, b: nat)
    requires Dec(a) == Dec(b)
    ensures a == b
  {
    var s := Dec(a);
    if a >= 10 && b >= 10 {
      assert s[..|s| - 1] == Dec(a / 10) && s[..|s| - 1] == Dec(b / 10);
      assert s[|s| - 1] == Digit(a % 10) && s[|s| - 1] == Digit(b % 10);
      DecInjective(a / 10, b / 10);
    } else if a < 10 && b < 10 {
      assert s[0] == Digit(a) && s[0] == Digit(b);
    }
  }

  /** Different numbers give different names, none of them the name itself. */
  lemma NumberedApart(name: string, a: nat, b: nat)
    ensures Numbered(name, a) == Numbered(name, b) ==> a == b
    ensures Numbered(name, a) != name
  {
    BaseExt(name);
    assert |Numbered(name, a)| > |Base(name)| + |Ext(name)|;
    if Numbered(name, a) == Numbered(name, b) {
      var p, e := |Base(name)| + 1, |Ext(name)|;
      var s := Numbered(name, a);
      hide Base; hide Ext; hide Dec;
      assert Dec(a) == s[p..|s| - e];
      assert Numbered(name, b)[p..|s| - e] == Dec(b);
      DecInjective(a, b);
    }
  }

  /** The name and its first k numbered forms. */
  ghost function Forms(name: string, k: nat): set<string> {
    if k == 0 then {name} else Forms(name, k - 1) + {Numbered(name, k)}
  }

  lemma {:induction false} FormsAre(name: string, k: nat)
    ensures |Forms(name, k)| == k + 1
    ensures forall x :: x in Forms(name, k) <==> x == name || exists n :: 1 <= n <= k && x == Numbered(name, n)
  {
    hide Numbered;
    if k > 0 {
      FormsAre(name, k - 1);
      forall n | 1 <= n < k ensures Numbered(name, n) != Numbered(name, k) { NumberedApart(name, n, k); }
      NumberedApart(name, k, k);
    }
  }

  ghost function SetOf(s: seq<string>): set<string> {
    set x | x in s
  }

  lemma {:induction false} SetOfSize(s: seq<string>)
    ensures |SetOf(s)| <= |s|
  {
    if s == [] {
      assert SetOf(s) == {};
    } else {
      var init, last := s[..|s| - 1], s[|s| - 1];
      SetOfSize(init);
      assert s == init + [last];
      assert SetOf(s) == SetOf(init) + {last};
    }
  }

  lemma {:induction false} FreeIs(name: string, taken: seq<string>, n: nat)
    requires n <= 256
    ensures n <= Free(name, taken, n) <= 256
    ensures Free(name, taken, n) <= 255 ==> Numbered(name, Free(name, taken, n)) !in taken
    ensures forall k :: n <= k < Free(name, taken, n) ==> Numbered(name, k) in taken
    decreases 256 - n
  {
    hide Numbered;
    if n <= 255 && Numbered(name, n) in taken { FreeIs(name, taken, n + 1); }
  }

  /** With at most 255 names taken, one of the name and its numbered forms is free. */
  lemma SomeFormFree(name: string, taken: seq<string>)
    requires |taken| <= 255
    ensures Chosen(name, taken) !in taken
  {
    FreeIs(name, taken, 1);
    hide Numbered; hide Free;
    if name in taken && Free(name, taken, 1) > 255 {
      FormsAre(name, 255);
      assert Forms(name, 255) <= SetOf(taken);
      SubsetSize(Forms(name, 255), SetOf(taken));
      SetOfSize(taken);
    }
  }

  /** Up to 256 names become pairwise distinct. */
  lemma {:induction false} UniquesDistinct(names: seq<string>)
    requires |names| <= 256
    ensures NoRepeats(Uniques(names))
  {
    hide Chosen;
    if names != [] {
      var init := names[..|names| - 1];
      UniquesDistinct(init);
      SomeFormFree(names[|names| - 1], Uniques(init));
      assert forall i :: 0 <= i < |init| ==> Uniques(init)[i] in Uniques(init);
    }
  }

  lemma {:induction false} UniquesPrefix(names: seq<string>, k: nat)
    requires k <= |names|
    ensures Uniques(names)[..k] == Uniques(names[..k])
  {
    hide Chosen;
    if k == |names| {
      assert names[..k] == names;
    } else {
      var init := names[..|names| - 1];
      UniquesPrefix(init, k);
      assert init[..k] == names[..k];
    }
  }

  /** A name that no earlier result takes is kept; any other gets the smallest number from 1 to 255 before its
      extension that makes it free, or is repeated when there is none. */
  lemma KeptOrNumbered(names: seq<string>, k: nat)
    requires k < |names|
    ensures var earlier, name, r := Uniques(names)[..k], names[k], Uniques(names)[k];
      && (name !in earlier ==> r == name)
      && (name in earlier ==> r == name || exists n :: IsNumbered(name, earlier, n, r))
      && (name in earlier && r == name ==> forall n :: 1 <= n <= 255 ==> Numbered(name, n) in earlier)
      && (r in earlier ==> r == name && |names| > 256)
  {
    UniquesPrefix(names, k);
    UniquesPrefix(names, k + 1);
    assert names[..k + 1][..k] == names[..k];
    var name, taken := names[k], Uniques(names[..k]);
    assert Uniques(names)[k] == Uniques(names)[..k + 1][k];
    FreeIs(name, taken, 1);
    if |names| <= 256 { SomeFormFree(name, taken); }
    hide Numbered; hide Free; hide Uniques;
    if name in taken && Free(name, taken, 1) <= 255 {
      assert IsNumbered(name, taken, Free(name, taken, 1), Chosen(name, taken));
      NumberedApart(name, Free(name, taken, 1), 0);
    }
  }

  /** r is the name with number n, the smallest that is free. */
  ghost predicate IsNumbered(name: string, earlier: seq<string>, n: nat, r: string) {
    && 1 <= n <= 255 && r == Numbered(name, n) && r !in earlier
    && forall m :: 1 <= m < n ==> Numbered(name, m) in earlier
  }

  // ----- The limit is sharp -----

  function Copies(name: string, n: nat): (r: seq<string>)
    ensures |r| == n
  {
    if n == 0 then [] else Copies(name, n - 1) + [name]
  }

  lemma {:induction false} CopiesTaken(name: string, n: nat)
    requires n <= 256
    ensures SetOf(Uniques(Copies(name, n))) == if n == 0 then {} else Forms(name, n - 1)
  {
    if n > 0 {
      CopiesTaken(name, n - 1);
      var taken := Uniques(Copies(name, n - 1));
      NextCopy(name, taken, n - 1);
      OneMoreCopy(name, n - 1);
      SetOfMore(taken, Chosen(name, taken));
      hide *;
      FormsNext(name, n - 1);
    } else {
      assert SetOf([]) == {};
    }
  }

  lemma OneMoreCopy(name: string, n: nat)
    ensures Uniques(Copies(name, n + 1)) == Uniques(Copies(name, n)) + [Chosen(name, Uniques(Copies(name, n)))]
  {
    hide Chosen;
    var copies := Copies(name, n + 1);
    assert copies[..n] == Copies(name, n) && copies[n] == name;
  }

  lemma SetOfMore(s: seq<string>, x: string)
    ensures SetOf(s + [x]) == SetOf(s) + {x}
  {
  }

  lemma FormsNext(name: string, m: nat)
    ensures Forms(name, m) == if m == 0 then {name} else Forms(name, m - 1) + {Numbered(name, m)}
  {
    hide Numbered;
  }

  lemma NextCopy(name: string, taken: seq<string>, m: nat)
    requires m <= 255 && SetOf(taken) == if m == 0 then {} else Forms(name, m - 1)
    ensures Chosen(name, taken) == if m == 0 then name else Numbered(name, m)
  {
    hide Numbered; hide Forms; hide Free;
    assert forall x :: x in SetOf(taken) <==> x in taken;
    if m > 0 {
      FormsAre(name, m - 1);
      FirstFree(name, taken, 1, m);
    }
  }

  lemma {:induction false} FirstFree(name: string, taken: seq<string>, n: nat, m: nat)
    requires 1 <= n <= m <= 255 && SetOf(taken) == Forms(name, m - 1)
    ensures Free(name, taken, n) == m
    decreases m - n
  {
    FormsAre(name, m - 1);
    assert forall x :: x in SetOf(taken) <==> x in taken;
    hide Numbered; hide Forms;
    if n < m {
      FirstFree(name, taken, n + 1, m);
    } else {
      forall k | 1 <= k <= m - 1 ensures Numbered(name, k) != Numbered(name, m) { NumberedApart(name, k, m); }
      NumberedApart(name, m, m);
    }
  }

  lemma NoFormLeft(name: string, taken: seq<string>)
    requires SetOf(taken) == Forms(name, 255)
    ensures Chosen(name, taken) in taken
  {
    FormsAre(name, 255);
    FreeIs(name, taken, 1);
    hide Numbered; hide Forms; hide Free;
    assert forall x :: x in SetOf(taken) <==> x in taken;
    assert forall k :: 1 <= k <= 255 ==> Numbered(name, k) in Forms(name, 255);
  }

  ghost predicate Repeats(r: seq<string>, m: nat) {
    m < |r| && exists i :: 0 <= i < m && r[i] == r[m]
  }

  lemma RepeatedAt(name: string, m: nat)
    requires m == 256
    ensures Repeats(Uniques(Copies(name, m + 1)), m)
  {
    var copies := Copies(name, m + 1);
    assert copies[..m] == Copies(name, m);
    var taken := Uniques(Copies(name, m));
    CopiesTaken(name, m);
    hide Forms; hide Copies; hide Numbered;
    NoFormLeft(name, taken);
    hide SetOf; hide Chosen;
    assert Uniques(copies) == taken + [Chosen(name, taken)];
    var i :| 0 <= i < |taken| && taken[i] == Chosen(name, taken);
    assert Uniques(copies)[i] == Uniques(copies)[m];
  }

  lemma {:induction false} CopiesPrefix(name: string, k: nat, n: nat)
    requires k <= n
    ensures Copies(name, n)[..k] == Copies(name, k)
  {
    if k < n { CopiesPrefix(name, k, n - 1); }
  }

  /** Copies of one name become distinct exactly when there are at most 256. */
  lemma CopiesDistinct(name: string, n: nat)
    ensures NoRepeats(Uniques(Copies(name, n))) <==> n <= 256
  {
    hide Copies; hide Chosen; hide Uniques;
    if n <= 256 {
      UniquesDistinct(Copies(name, n));
    } else {
      var m := 256;
      RepeatedAt(name, m);
      CopiesPrefix(name, m + 1, n);
      UniquesPrefix(Copies(name, n), m + 1);
      var r := Uniques(Copies(name, n));
      assert Repeats(r[..m + 1], m);
      assert r[..m + 1][m] == r[m];
    }
  }

  // ----- Names in the zip -----

  lemma NumberBytes(n: nat, bytes: Encoding)
    requires 1 <= n <= 255 && Sizes(bytes)
    ensures ByteSize("_" + Dec(n), bytes) <= 4
  {
    var d := Dec(n);
    assert n / 10 / 10 < 10;
    assert |Dec(n / 10)| <= 2 by { assert n / 10 >= 10 ==> |Dec(n / 10 / 10)| == 1; }
    assert |d| <= 3;
    hide Dec;
    AsciiSize("_" + d, bytes);
  }

  lemma {:induction false} AsciiSize(s: string, bytes: Encoding)
    requires Sizes(bytes) && forall i :: 0 <= i < |s| ==> s[i] as int < 0x80
    ensures ByteSize(s, bytes) == |s|
  {
    if s != "" { AsciiSize(s[..|s| - 1], bytes); }
  }

  lemma NumberedBytes(name: string, n: nat, bytes: Encoding)
    requires 1 <= n <= 255 && Sizes(bytes)
    ensures ByteSize(Numbered(name, n), bytes) <= ByteSize(name, bytes) + 4
  {
    BaseExt(name);
    NumberBytes(n, bytes);
    hide Base; hide Ext; hide Dec; hide ByteSize;
    ByteSizeJoin(Base(name), Ext(name), bytes);
    ByteSizeJoin(Base(name), "_" + Dec(n), bytes);
    ByteSizeJoin(Base(name) + ("_" + Dec(n)), Ext(name), bytes);
    assert Base(name) + ("_" + Dec(n)) + Ext(name) == Numbered(name, n);
  }

  /** zip_attachments: at most 256 names, cut to 250 bytes, become distinct names of at most 254 bytes,
      provided the extensions of the names that are cut fit. */
  lemma ZipNames(names: seq<string>, cut: seq<string>, bytes: Encoding)
    requires |names| == |cut| <= 256 && Sizes(bytes)
    requires forall i :: 0 <= i < |names| ==> Cut(Replaced(names[i]), 250, bytes, cut[i])
    requires forall i :: 0 <= i < |names| && ByteSize(Replaced(names[i]), bytes) > 250 ==>
      ByteSize(Ext(Replaced(names[i])), bytes) <= 250
    ensures |Uniques(cut)| == |names| && NoRepeats(Uniques(cut))
    ensures forall i :: 0 <= i < |names| ==> ByteSize(Uniques(cut)[i], bytes) <= 254
  {
    UniquesDistinct(cut);
    forall i | 0 <= i < |names| ensures ByteSize(Uniques(cut)[i], bytes) <= 254 {
      hide Cut; hide Uniques; hide Numbered; hide Ext; hide ByteSize;
      CutIs(Replaced(names[i]), 250, bytes, cut[i]);
      KeptOrNumbered(cut, i);
      if n :| IsNumbered(cut[i], Uniques(cut)[..i], n, Uniques(cut)[i]) { NumberedBytes(cut[i], n, bytes); }
    }
  }

  lemma PartsClean(name: string, n: nat)
    ensures Clean(name) ==> Clean(Base(name)) && Clean(Ext(name))
    ensures Clean("_" + Dec(n))
  {
    var d := "_" + Dec(n);
    forall i | 0 <= i < |d| ensures d[i] !in SEPARATORS { SeparatorIs(d[i]); }
  }

  lemma CutClean(name: string, limit: nat, bytes: Encoding, cut: string)
    requires Cut(Replaced(name), limit, bytes, cut)
    ensures Clean(cut)
  {
    ReplacedIs(name);
    PartsClean(Replaced(name), 0);
    hide Longest; hide ByteSize; hide Ext; hide Replaced;
  }

  lemma NumberedClean(name: string, n: nat)
    requires Clean(name)
    ensures Clean(Numbered(name, n))
  {
    PartsClean(name, n);
    hide Base; hide Ext; hide Dec;
  }

  /** No name in the zip contains a separator or a line break. */
  lemma ZipNamesClean(names: seq<string>, cut: seq<string>, bytes: Encoding, i: nat)
    requires |names| == |cut| && i < |cut|
    requires forall j :: 0 <= j < |names| ==> Cut(Replaced(names[j]), 250, bytes, cut[j])
    ensures Clean(Uniques(cut)[i])
  {
    hide *;
    CutClean(names[i], 250, bytes, cut[i]);
    UniquesSize(cut);
    KeptOrNumbered(cut, i);
    if n :| IsNumbered(cut[i], Uniques(cut)[..i], n, Uniques(cut)[i]) {
      NumberedClean(cut[i], n);
      NumberedIs(cut[i], Uniques(cut)[..i], n, Uniques(cut)[i]);
    }
  }

  lemma UniquesSize(names: seq<string>)
    ensures |Uniques(names)| == |names|
  {
  }

  lemma NumberedIs(name: string, earlier: seq<string>, n: nat, r: string)
    requires IsNumbered(name, earlier, n, r)
    ensures r == Numbered(name, n)
  {
  }
}
