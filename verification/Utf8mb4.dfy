/** The entity printer and parser for a three-byte utf8 column. */
module Utf8mb4 {
  import opened Text
  import opened Wrappers

  function HexDigit(k: nat): char
    requires k < 16
  {
    if k < 10 then '0' + (k as char) else 'A' + ((k - 10) as char)
  }

  /** Upper-case hexadecimal digits. */
  function Hex(n: nat): string {
    if n < 16 then [HexDigit(n)] else Hex(n / 16) + [HexDigit(n % 16)]
  }

  predicate Astral(c: char) {
    c as int > 0xFFFF
  }

  function Entity(c: char): string {
    "&#x" + Hex(c as int) + ";"
  }

  function Encode(s: string): (r: string)
    ensures forall i :: 0 <= i < |r| ==> r[i] as int <= 0xFFFF
  {
    if s == "" then ""
    else if Astral(s[0]) then EntityIsPlain(s[0]); Entity(s[0]) + Encode(s[1..])
    else [s[0]] + Encode(s[1..])
  }

  predicate IsDigit(c: char, hex: bool) {
    '0' <= c <= '9' || (hex && ('a' <= c <= 'f' || 'A' <= c <= 'F'))
  }

  function DigitValue(c: char): nat
    requires IsDigit(c, true)
  {
    if c <= '9' then c as int - '0' as int
    else if c <= 'F' then c as int - 'A' as int + 10
    else c as int - 'a' as int + 10
  }

  function Number(s: string, base: nat): nat
    requires forall i :: 0 <= i < |s| ==> IsDigit(s[i], true)
  {
    if s == "" then 0 else Number(s[..|s| - 1], base) * base + DigitValue(s[|s| - 1])
  }

  /** Number of leading digits. */
  function Run(s: string, hex: bool): (k: nat)
    ensures k <= |s| && (forall i :: 0 <= i < k ==> IsDigit(s[i], hex)) && (k < |s| ==> !IsDigit(s[k], hex))
  {
    if s == "" || !IsDigit(s[0], hex) then 0 else 1 + Run(s[1..], hex)
  }

  /** A reference at the head of s: its digits' offset and count, when 5-6 hex or 5-7 decimal
      digits and a semicolon follow. */
  datatype Head = Head(hex: bool, digits: nat)

  function HeadOf(s: string): (h: Option<Head>)
    ensures h.Some? ==> 5 <= h.value.digits && EntityLength(h.value) <= |s|
  {
    if |s| < 3 || s[0] != '&' || s[1] != '#' then None
    else if s[2] == 'x' then
      var k := Run(s[3..], true);
      if 5 <= k <= 6 && 3 + k < |s| && s[3 + k] == ';' then Some(Head(true, k)) else None
    else
      var k := Run(s[2..], false);
      if 5 <= k <= 7 && 2 + k < |s| && s[2 + k] == ';' then Some(Head(false, k)) else None
  }

  /** A reference with k digits stands at the head of s: 5 or 6 hexadecimal digits, or 5 to 7 decimal ones. */
  ghost predicate IsReference(s: string, hex: bool, k: nat) {
    var start := if hex then "&#x" else "&#";
    && 5 <= k <= (if hex then 6 else 7) && |start| + k < |s| && s[..|start|] == start && s[|start| + k] == ';'
    && forall i :: |start| <= i < |start| + k ==> IsDigit(s[i], hex)
  }

  lemma {:induction false} RunIs(s: string, hex: bool, k: nat)
    requires k < |s| && (forall i :: 0 <= i < k ==> IsDigit(s[i], hex)) && !IsDigit(s[k], hex)
    ensures Run(s, hex) == k
  {
    if k > 0 { RunIs(s[1..], hex, k - 1); }
  }

  lemma Starts(s: string)
    ensures |s| >= 2 ==> (s[..2] == "&#" <==> s[0] == '&' && s[1] == '#')
    ensures |s| >= 3 ==> (s[..3] == "&#x" <==> s[0] == '&' && s[1] == '#' && s[2] == 'x')
  {
    if |s| >= 3 && s[0] == '&' && s[1] == '#' && s[2] == 'x' { assert s[..3] == ['&', '#', 'x']; }
    if |s| >= 3 { assert s[..3][0] == s[0] && s[..3][1] == s[1] && s[..3][2] == s[2]; }
    if |s| >= 2 { assert s[..2][0] == s[0] && s[..2][1] == s[1]; }
  }

  lemma ReferenceHead(s: string, hex: bool, k: nat)
    requires IsReference(s, hex, k)
    ensures HeadOf(s) == Some(Head(hex, k))
  {
    Starts(s);
    var skip := if hex then 3 else 2;
    forall i | 0 <= i < k ensures IsDigit(s[skip..][i], hex) { assert s[skip + i] == s[skip..][i]; }
    RunIs(s[skip..], hex, k);
    assert !hex ==> IsDigit(s[2], false);
    hide Run;
  }

  lemma HeadReference(s: string, hex: bool, k: nat)
    requires HeadOf(s) == Some(Head(hex, k))
    ensures IsReference(s, hex, k)
  {
    Starts(s);
    var skip := if hex then 3 else 2;
    assert k == Run(s[skip..], hex);
    forall i | skip <= i < skip + k ensures IsDigit(s[i], hex) { assert s[i] == s[skip..][i - skip]; }
    hide Run;
  }

  /** The parser finds exactly the references. */
  lemma HeadIs(s: string, hex: bool, k: nat)
    ensures HeadOf(s) == Some(Head(hex, k)) <==> IsReference(s, hex, k)
  {
    hide *;
    if IsReference(s, hex, k) { ReferenceHead(s, hex, k); }
    if HeadOf(s) == Some(Head(hex, k)) { HeadReference(s, hex, k); }
  }

  function EntityLength(h: Head): nat {
    (if h.hex then 4 else 3) + h.digits
  }

  function CodePoint(s: string): nat
    requires HeadOf(s).Some?
  {
    var h := HeadOf(s).value;
    if h.hex then Number(s[3..][..h.digits], 16) else Number(s[2..][..h.digits], 10)
  }

  predicate IsScalar(n: nat) {
    n < 0xD800 || 0xE000 <= n < 0x11_0000
  }

  /** None is the RangeError that chr raises. */
  function Decode(s: string): Option<string>
    decreases |s|
  {
    if s == "" then Some("")
    else
      var h := HeadOf(s);
      if h.Some? then
        var n := CodePoint(s);
        var rest := Decode(s[EntityLength(h.value)..]);
        if !IsScalar(n) || rest.None? then None else Some([n as char] + rest.value)
      else
        var rest := Decode(s[1..]);
        if rest.None? then None else Some([s[0]] + rest.value)
  }

  /** Every literal reference in s names a character. */
  ghost predicate NamesCharacters(s: string) {
    forall i :: 0 <= i < |s| && HeadOf(s[i..]).Some? ==> IsScalar(CodePoint(s[i..]))
  }

  ghost function Parsed(s: string): string
    requires NamesCharacters(s)
  {
    DecodesIff(s);
    Decode(s).value
  }

  /** And so does every reference in what parsing makes of s. */
  ghost predicate NamesCharactersTwice(s: string) {
    NamesCharacters(s) && NamesCharacters(Parsed(s))
  }

  /** Some literal character reference occurs in s. */
  predicate HasEntity(s: string) {
    s != "" && (HeadOf(s).Some? || HasEntity(s[1..]))
  }

  // ----- Printing -----

  lemma {:induction false} HexParses(n: nat)
    ensures forall i :: 0 <= i < |Hex(n)| ==> IsDigit(Hex(n)[i], true)
    ensures Number(Hex(n), 16) == n
  {
    if n >= 16 {
      HexParses(n / 16);
      assert Hex(n)[..|Hex(n)| - 1] == Hex(n / 16);
    } else {
      assert Hex(n)[..0] == "";
    }
  }

  /** Upper case of a hexadecimal digit. */
  function UpperDigit(c: char): char {
    if 'a' <= c <= 'f' then 'A' + (c - 'a') else c
  }

  lemma DigitIs(c: char)
    requires IsDigit(c, true)
    ensures DigitValue(c) < 16 && HexDigit(DigitValue(c)) == UpperDigit(c)
  {
  }

  predicate IsCode(c: char, n: nat) {
    c as int == n
  }

  /** The digits of a reference, and the numbers that are those of characters. */
  lemma DigitsAre(c: char, n: nat)
    ensures IsDigit(c, false) <==> c in "0123456789"
    ensures IsDigit(c, true) <==> c in "0123456789abcdefABCDEF"
    ensures IsScalar(n) <==> exists x: char :: IsCode(x, n)
  {
    var d, h := "0123456789", "0123456789abcdefABCDEF";
    assert d[0] == '0' && d[1] == '1' && d[2] == '2' && d[3] == '3' && d[4] == '4' && d[5] == '5' && d[6] == '6';
    assert d[7] == '7' && d[8] == '8' && d[9] == '9' && h[..10] == d;
    assert h[10] == 'a' && h[11] == 'b' && h[12] == 'c' && h[13] == 'd' && h[14] == 'e' && h[15] == 'f';
    assert h[16] == 'A' && h[17] == 'B' && h[18] == 'C' && h[19] == 'D' && h[20] == 'E' && h[21] == 'F';
    if '0' <= c <= '9' { assert d[c as int - '0' as int] == c; }
    if IsScalar(n) { assert IsCode(n as char, n); }
  }

  /** Letter case does not matter in a hexadecimal reference. */
  lemma {:induction false} HexCase(s: string, t: string)
    requires |s| == |t| && forall i :: 0 <= i < |s| ==>
      IsDigit(s[i], true) && IsDigit(t[i], true) && UpperDigit(s[i]) == UpperDigit(t[i])
    ensures Number(s, 16) == Number(t, 16)
  {
    if s != "" {
      var n := |s| - 1;
      HexCase(s[..n], t[..n]);
      DigitIs(s[n]);
      DigitIs(t[n]);
    }
  }

  function Pow16(k: nat): nat {
    if k == 0 then 1 else 16 * Pow16(k - 1)
  }

  lemma {:induction false} HexLength(n: nat, k: nat)
    requires k > 0 && Pow16(k - 1) <= n < Pow16(k)
    ensures |Hex(n)| == k
  {
    if k > 1 {
      assert Pow16(k - 1) == 16 * Pow16(k - 2);
      HexLength(n / 16, k - 1);
    }
  }

  lemma AstralDigits(c: char)
    requires Astral(c)
    ensures 5 <= |Hex(c as int)| <= 6
  {
    assert Pow16(4) == 0x1_0000 && Pow16(5) == 0x10_0000 && Pow16(6) == 0x100_0000;
    HexLength(c as int, if c as int < 0x10_0000 then 5 else 6);
  }

  lemma EntityIsPlain(c: char)
    ensures forall i :: 0 <= i < |Entity(c)| ==> !Astral(Entity(c)[i])
  {
    HexParses(c as int);
  }

  // ----- Printing keeps every head in place -----

  lemma {:induction false} RunAppend(p: string, s: string, hex: bool)
    requires forall i :: 0 <= i < |p| ==> IsDigit(p[i], hex)
    requires s != "" && !IsDigit(s[0], hex)
    ensures Run(p + s, hex) == |p|
  {
    if p != "" {
      assert (p + s)[1..] == p[1..] + s;
      RunAppend(p[1..], s, hex);
    }
  }

  /** A printed character parses back to itself. */
  lemma EntityHead(c: char, s: string)
    requires Astral(c)
    ensures HeadOf(Entity(c) + s) == Some(Head(true, |Hex(c as int)|))
    ensures CodePoint(Entity(c) + s) == c as int
    ensures EntityLength(Head(true, |Hex(c as int)|)) == |Entity(c)|
  {
    var t, h := Entity(c) + s, Hex(c as int);
    AstralDigits(c);
    HexParses(c as int);
    hide Hex; hide Number; hide Run; hide Astral; hide HeadOf;
    assert t[..3] == "&#x" && t[3 + |h|] == ';' && t[3..][..|h|] == h;
    forall i | 3 <= i < 3 + |h| ensures IsDigit(t[i], true) { assert t[i] == h[i - 3]; }
    ReferenceHead(t, true, |h|);
  }

  lemma {:induction false} EncodePrefix(p: string, s: string)
    requires forall i :: 0 <= i < |p| ==> !Astral(p[i])
    ensures Encode(p + s) == p + Encode(s)
  {
    if p == "" {
      assert p + s == s;
    } else {
      assert (p + s)[1..] == p[1..] + s;
      EncodePrefix(p[1..], s);
    }
  }

  lemma {:induction false} RunAll(p: string, hex: bool)
    requires forall i :: 0 <= i < |p| ==> IsDigit(p[i], hex)
    ensures Run(p, hex) == |p|
  {
    if p != "" { RunAll(p[1..], hex); }
  }

  lemma EncodeHeadChar(s: string)
    ensures Encode(s) == "" <==> s == ""
    ensures s != "" ==> Encode(s)[0] == if Astral(s[0]) then '&' else s[0]
  {
  }

  /** Printing neither lengthens nor shortens a leading run of digits. */
  lemma RunEncode(s: string, hex: bool)
    ensures var k := Run(s, hex);
      && Run(Encode(s), hex) == k
      && Encode(s) == s[..k] + Encode(s[k..])
  {
    var k := Run(s, hex);
    assert s == s[..k] + s[k..];
    EncodePrefix(s[..k], s[k..]);
    EncodeHeadChar(s[k..]);
    hide Encode; hide Run;
    if s[k..] == "" {
      RunAll(s[..k], hex);
      assert Encode(s) == s[..k];
    } else {
      RunAppend(s[..k], Encode(s[k..]), hex);
    }
  }

  /** The digits after a reference's opening, and the character that ends them, survive printing. */
  lemma DigitsEncode(s: string, hex: bool)
    ensures var k := Run(s, hex);
      && Run(Encode(s), hex) == k && k <= |Encode(s)| && Encode(s)[..k] == s[..k]
      && (k < |Encode(s)| && Encode(s)[k] == ';' <==> k < |s| && s[k] == ';')
  {
    RunEncode(s, hex);
    EncodeHeadChar(s[Run(s, hex)..]);
  }

  lemma EncodeDrop(s: string, n: nat)
    requires n <= |s| && forall i :: 0 <= i < n ==> !Astral(s[i])
    ensures n <= |Encode(s)| && Encode(s)[..n] == s[..n] && Encode(s)[n..] == Encode(s[n..])
  {
    assert s == s[..n] + s[n..];
    EncodePrefix(s[..n], s[n..]);
  }

  /** A string starting with a plain character prints with the same reference, or none, at its head. */
  lemma HexHeadEncode(s: string)
    requires |s| > 2 && s[0] == '&' && s[1] == '#' && s[2] == 'x'
    ensures HeadOf(Encode(s)) == HeadOf(s)
    ensures HeadOf(s).Some? ==> CodePoint(Encode(s)) == CodePoint(s)
  {
    hide Encode; hide Run; hide Number;
    EncodeDrop(s, 3);
    DigitsEncode(s[3..], true);
    assert Encode(s)[..3][0] == '&' && Encode(s)[..3][1] == '#' && Encode(s)[..3][2] == 'x';
  }

  lemma DecimalHeadEncode(s: string)
    requires |s| > 1 && s[0] == '&' && s[1] == '#' && (|s| > 2 ==> s[2] != 'x')
    ensures HeadOf(Encode(s)) == HeadOf(s)
    ensures HeadOf(s).Some? ==> CodePoint(Encode(s)) == CodePoint(s)
  {
    hide Encode; hide Run; hide Number;
    EncodeDrop(s, 2);
    EncodeHeadChar(s[2..]);
    DigitsEncode(s[2..], false);
    assert Encode(s)[..2][0] == '&' && Encode(s)[..2][1] == '#';
  }

  lemma HeadEncode(s: string)
    requires s != "" && !Astral(s[0])
    ensures HeadOf(Encode(s)) == HeadOf(s)
    ensures HeadOf(s).Some? ==> CodePoint(Encode(s)) == CodePoint(s)
  {
    hide Encode; hide Run; hide Number;
    if s[0] == '&' && |s| > 1 && s[1] == '#' {
      hide *;
      if |s| > 2 && s[2] == 'x' { HexHeadEncode(s); } else { DecimalHeadEncode(s); }
    } else {
      EncodeDrop(s, 1);
      EncodeHeadChar(s[1..]);
    }
  }

  // ----- Round trips -----

  /** The text of a reference is plain ASCII. */
  lemma HeadIsPlain(s: string)
    requires HeadOf(s).Some?
    ensures var n := EntityLength(HeadOf(s).value);
      8 <= n <= |s| && forall i :: 0 <= i < n ==> !Astral(s[i])
  {
    var h := HeadOf(s).value;
    var skip := if h.hex then 3 else 2;
    assert h.digits == Run(s[skip..], h.hex);
    forall i | 0 <= i < EntityLength(h) ensures !Astral(s[i]) {
      if skip <= i < skip + h.digits { assert IsDigit(s[skip..][i - skip], h.hex); }
    }
  }

  /** No reference starts inside another one. */
  lemma HeadsApart(s: string, i: nat)
    requires HeadOf(s).Some? && 0 < i < EntityLength(HeadOf(s).value)
    ensures HeadOf(s[i..]).None?
  {
    NoOtherAmpersand(s, i);
    hide Run; hide CodePoint;
  }

  lemma NoOtherAmpersand(s: string, i: nat)
    requires HeadOf(s).Some? && 0 < i < EntityLength(HeadOf(s).value)
    ensures i < |s| && s[i] != '&'
  {
    var h := HeadOf(s).value;
    var skip := if h.hex then 3 else 2;
    assert h.digits == Run(s[skip..], h.hex);
    if skip <= i < skip + h.digits { assert IsDigit(s[skip..][i - skip], h.hex); }
  }

  lemma LaterReferences(s: string, n: nat)
    requires 0 < n <= |s| && forall i :: 0 < i < n ==> HeadOf(s[i..]).None?
    ensures NamesCharacters(s) <==> (HeadOf(s).Some? ==> IsScalar(CodePoint(s))) && NamesCharacters(s[n..])
  {
    hide HeadOf; hide CodePoint;
    assert s[0..] == s;
    forall i | n <= i < |s| ensures s[i..] == s[n..][i - n..] {}
    if NamesCharacters(s) {
      forall j | 0 <= j < |s[n..]| && HeadOf(s[n..][j..]).Some? ensures IsScalar(CodePoint(s[n..][j..])) {
        assert s[n + j..] == s[n..][j..];
      }
    }
  }

  /** Parsing raises exactly when some literal reference names no character: a surrogate, or a number
      above 0x10FFFF. */
  lemma {:induction false} DecodesIff(s: string)
    ensures Decode(s).Some? <==> NamesCharacters(s)
    decreases |s|
  {
    if s != "" {
      var n := if HeadOf(s).Some? then EntityLength(HeadOf(s).value) else 1;
      if HeadOf(s).Some? {
        forall i | 0 < i < n ensures HeadOf(s[i..]).None? { HeadsApart(s, i); }
      }
      LaterReferences(s, n);
      DecodesIff(s[n..]);
    }
  }

  /** Parsing does not see whether the text was printed first. */
  lemma {:induction false} DecodeEncode(s: string)
    ensures Decode(Encode(s)) == Decode(s)
    decreases |s|
  {
    if s == "" {
    } else if Astral(s[0]) {
      DecodeEncode(s[1..]);
      var e := Entity(s[0]);
      EntityHead(s[0], Encode(s[1..]));
      assert (e + Encode(s[1..]))[|e|..] == Encode(s[1..]);
    } else {
      HeadEncode(s);
      if HeadOf(s).Some? {
        var n := EntityLength(HeadOf(s).value);
        HeadIsPlain(s);
        EncodeDrop(s, n);
        DecodeEncode(s[n..]);
      } else {
        EncodeDrop(s, 1);
        DecodeEncode(s[1..]);
      }
    }
  }

  lemma {:induction false} DecodePlain(s: string)
    requires !HasEntity(s)
    ensures Decode(s) == Some(s)
  {
    if s != "" {
      DecodePlain(s[1..]);
      assert s == [s[0]] + s[1..];
    }
  }

  lemma {:induction false} DecodeShrinks(s: string)
    requires Decode(s).Some?
    ensures |Decode(s).value| <= |s| && (HasEntity(s) ==> |Decode(s).value| < |s|)
    decreases |s|
  {
    if s != "" {
      if HeadOf(s).Some? {
        HeadIsPlain(s);
        DecodeShrinks(s[EntityLength(HeadOf(s).value)..]);
      } else {
        DecodeShrinks(s[1..]);
      }
    }
  }

  /** Printing then parsing is the identity exactly on texts without a literal reference. */
  lemma RoundTrip(s: string)
    ensures Decode(Encode(s)) == Some(s) <==> !HasEntity(s)
  {
    DecodeEncode(s);
    if HasEntity(s) {
      if Decode(s).Some? { DecodeShrinks(s); }
    } else {
      DecodePlain(s);
    }
  }

  // ----- A cached column: parsed when the record is built, printed when it is stored, parsed when read -----

  function Present(s: string, f: string -> Option<string>): Option<string> {
    if Blank(s) then Some(s) else f(s)
  }

  function WriteColumn(v: string): Option<string> {
    var built := Present(v, Decode);
    if built.None? then None else Present(built.value, x => Some(Encode(x)))
  }

  function ReadColumn(c: string): Option<string> {
    Present(c, Decode)
  }

  lemma {:induction false} BlankIsPlain(s: string)
    requires Blank(s)
    ensures Encode(s) == s && Decode(s) == Some(s) && !HasEntity(s)
  {
    if s != "" {
      assert IsSpace(s[0]);
      assert Blank(s[1..]);
      BlankIsPlain(s[1..]);
    }
  }

  /** What is read back is the value parsed twice. */
  lemma ColumnIsDecodedTwice(v: string)
    ensures WriteColumn(v).Some? <==> Decode(v).Some?
    ensures WriteColumn(v).Some? ==>
      && (forall i :: 0 <= i < |WriteColumn(v).value| ==> WriteColumn(v).value[i] as int <= 0xFFFF)
      && ReadColumn(WriteColumn(v).value) == Decode(Decode(v).value)
  {
    if Blank(v) { BlankIsPlain(v); }
    if Decode(v).Some? {
      var b := Decode(v).value;
      if Blank(b) { BlankIsPlain(b); }
      DecodeEncode(b);
      var c := WriteColumn(v).value;
      assert c == Encode(b);
      if Blank(c) { BlankIsPlain(c); }
    }
  }

  /** Storing a column raises exactly when a reference in it names no character, and reading it back
      exactly when one in the parsed text does. */
  lemma ColumnRaises(v: string)
    ensures WriteColumn(v).Some? <==> NamesCharacters(v)
    ensures WriteColumn(v).Some? && ReadColumn(WriteColumn(v).value).Some? <==> NamesCharactersTwice(v)
  {
    hide WriteColumn; hide ReadColumn; hide Decode; hide NamesCharacters;
    ColumnIsDecodedTwice(v);
    DecodesIff(v);
    if Decode(v).Some? { DecodesIff(Decode(v).value); }
  }

  /** A column survives the cache if and only if it holds no literal reference; otherwise it comes
      back shorter, or storing or reading it raises. */
  lemma ColumnRoundTrip(v: string)
    ensures WriteColumn(v).Some? && ReadColumn(WriteColumn(v).value) == Some(v) <==> !HasEntity(v)
    ensures WriteColumn(v).Some? && ReadColumn(WriteColumn(v).value).Some? && HasEntity(v) ==>
      |ReadColumn(WriteColumn(v).value).value| < |v|
  {
    ColumnIsDecodedTwice(v);
    if !HasEntity(v) { DecodePlain(v); }
    if Decode(v).Some? {
      DecodeShrinks(v);
      if Decode(Decode(v).value).Some? { DecodeShrinks(Decode(v).value); }
    }
  }

  // ----- A reference at the head of a text -----

  lemma DecimalHead(digits: string, s: string)
    requires 5 <= |digits| <= 7
    requires forall i :: 0 <= i < |digits| ==> IsDigit(digits[i], false) && IsDigit(digits[i], true)
    ensures HeadOf("&#" + digits + ";" + s) == Some(Head(false, |digits|))
    ensures CodePoint("&#" + digits + ";" + s) == Number(digits, 10)
  {
    var t := "&#" + digits + ";" + s;
    assert t[2..] == digits + (";" + s);
    RunAppend(digits, ";" + s, false);
    assert t[2..][..|digits|] == digits;
  }

  lemma NumberIs55296()
    ensures Number("55296", 10) == 55296
  {
    assert "55296"[..4] == "5529" && "5529"[..3] == "552" && "552"[..2] == "55" && "55"[..1] == "5" && "5"[..0] == "";
  }

  /** A subject spelling a reference for a surrogate raises on every store. */
  lemma SurrogateReferenceRaises()
    ensures WriteColumn("&#55296;").None?
  {
    var s := "&#55296;";
    NumberIs55296();
    DecimalHead("55296", "");
    hide HeadOf; hide CodePoint; hide Number; hide WriteColumn;
    assert "&#" + "55296" + ";" + "" == s == s[0..];
    ColumnRaises(s);
  }

  lemma NumberIs128512()
    ensures Number("128512", 10) == 128512
  {
    assert "128512"[..5] == "12851" && "12851"[..4] == "1285" && "1285"[..3] == "128";
    assert "128"[..2] == "12" && "12"[..1] == "1" && "1"[..0] == "";
  }

  lemma PlainText(s: string)
    requires |s| == 1
    ensures Decode(s) == Some(s)
  {
    assert HeadOf(s).None? && s[1..] == "" && s == [s[0]] + "";
    assert Decode(s[1..]) == Some("");
  }

  lemma OnlyReference(s: string)
    requires HeadOf(s).Some? && EntityLength(HeadOf(s).value) == |s| && IsScalar(CodePoint(s))
    ensures Decode(s) == Some([CodePoint(s) as char])
  {
    hide HeadOf; hide CodePoint;
    var n := EntityLength(HeadOf(s).value);
    assert s != "" && s[n..] == "";
    assert Decode(s[n..]) == Some("");
    assert [CodePoint(s) as char] + "" == [CodePoint(s) as char];
  }

  /** A text spelling the reference of an emoji is stored, and read back as the emoji. */
  lemma SpelledEmoji()
    ensures WriteColumn("&#128512;").Some?
    ensures ReadColumn(WriteColumn("&#128512;").value) == Some([128512 as char])
  {
    var s := "&#128512;";
    NumberIs128512();
    assert forall i :: 0 <= i < 6 ==> IsDigit("128512"[i], false) && IsDigit("128512"[i], true);
    DecimalHead("128512", "");
    assert "&#" + "128512" + ";" + "" == s;
    hide *;
    OnlyHead(s);
    OnlyReference(s);
    PlainText([128512 as char]);
    ColumnIsDecodedTwice(s);
  }

  lemma OnlyHead(s: string)
    requires |s| == 9 && HeadOf(s) == Some(Head(false, 6)) && CodePoint(s) == 128512
    ensures EntityLength(HeadOf(s).value) == |s| && IsScalar(CodePoint(s))
  {
    hide HeadOf; hide CodePoint;
  }
}
