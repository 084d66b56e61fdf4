/** Character classes and the order of strings, used by several models. */
module Text {
  import opened Wrappers

  predicate IsSpace(c: char) {
    var n := c as int;
    9 <= n <= 13 || n in {0x20, 0x85, 0xA0, 0x1680, 0x2028, 0x2029, 0x202F, 0x205F, 0x3000} || 0x2000 <= n <= 0x200A
  }

  /** blank?: empty or white space only. */
  predicate Blank(s: string) {
    forall i :: 0 <= i < |s| ==> IsSpace(s[i])
  }

  /** White space as Unicode lists it. */
  const SPACES := "\U{0009}\U{000A}\U{000B}\U{000C}\U{000D}\U{0020}\U{0085}\U{00A0}\U{1680}"
    + "\U{2000}\U{2001}\U{2002}\U{2003}\U{2004}\U{2005}\U{2006}\U{2007}\U{2008}"
    + "\U{2009}\U{200A}\U{2028}\U{2029}\U{202F}\U{205F}\U{3000}"

  lemma SpaceIs(c: char)
    ensures IsSpace(c) <==> c in SPACES
  {
    var s := SPACES;
    assert s[0] == '\U{0009}' && s[1] == '\U{000A}' && s[2] == '\U{000B}' && s[3] == '\U{000C}';
    assert s[4] == '\U{000D}' && s[5] == '\U{0020}' && s[6] == '\U{0085}' && s[7] == '\U{00A0}';
    assert s[8] == '\U{1680}' && s[9] == '\U{2000}' && s[10] == '\U{2001}' && s[11] == '\U{2002}';
    assert s[12] == '\U{2003}' && s[13] == '\U{2004}' && s[14] == '\U{2005}' && s[15] == '\U{2006}';
    assert s[16] == '\U{2007}' && s[17] == '\U{2008}' && s[18] == '\U{2009}' && s[19] == '\U{200A}';
    assert s[20] == '\U{2028}' && s[21] == '\U{2029}' && s[22] == '\U{202F}' && s[23] == '\U{205F}';
    assert s[24] == '\U{3000}';
    assert |s| == 25;
  }

  /** Some character is not white space. */
  ghost predicate HasText(s: string) {
    exists i :: 0 <= i < |s| && !IsSpace(s[i])
  }

  /** present? */
  predicate Given(s: Option<string>) {
    s.Some? && !Blank(s.value)
  }

  /** Every character folded, as downcase does with the right `low`. */
  function Lower(s: string, low: char -> char): (r: string)
    ensures |r| == |s| && forall i :: 0 <= i < |s| ==> r[i] == low(s[i])
  {
    if s == "" then "" else [low(s[0])] + Lower(s[1..], low)
  }

  /** String comparison, character by character. */
  predicate Less(a: string, b: string) {
    b != "" && (a == "" || a[0] < b[0] || (a[0] == b[0] && Less(a[1..], b[1..])))
  }

  /** a and b agree on their first k characters; then a ends, or has the smaller character. */
  ghost predicate SmallerAt(a: string, b: string, k: nat) {
    k <= |a| && k < |b| && a[..k] == b[..k] && (k == |a| || a[k] < b[k])
  }

  lemma {:induction false} LessIs(a: string, b: string)
    ensures Less(a, b) <==> exists k: nat :: SmallerAt(a, b, k)
  {
    forall k: nat | SmallerAt(a, b, k) && k > 0 ensures a[0] == b[0] { assert a[..k][0] == b[..k][0]; }
    if a != "" && b != "" && a[0] == b[0] {
      var x, y := a[1..], b[1..];
      LessIs(x, y);
      if k: nat :| SmallerAt(x, y, k) {
        assert a[..k + 1] == [a[0]] + x[..k] && b[..k + 1] == [b[0]] + y[..k];
        assert SmallerAt(a, b, k + 1);
      }
      if k: nat :| SmallerAt(a, b, k) {
        assert k > 0;
        assert x[..k - 1] == a[..k][1..] && y[..k - 1] == b[..k][1..];
        assert SmallerAt(x, y, k - 1);
      }
    } else if Less(a, b) {
      assert SmallerAt(a, b, 0);
    }
  }

  /** Of two strings exactly one is less, or they are equal. */
  lemma {:induction false} LessTotal(a: string, b: string)
    ensures Less(a, b) <==> a != b && !Less(b, a)
  {
    if a != "" && b != "" && a[0] == b[0] {
      LessTotal(a[1..], b[1..]);
      assert a == [a[0]] + a[1..] && b == [b[0]] + b[1..];
    }
  }

  lemma {:induction false} LessTransitive(a: string, b: string, c: string)
    requires Less(a, b) && Less(b, c)
    ensures Less(a, c)
  {
    if a != "" && a[0] == b[0] == c[0] { LessTransitive(a[1..], b[1..], c[1..]); }
  }
}
