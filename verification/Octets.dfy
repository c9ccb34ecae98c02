/** Bytes as numbers, and NUL-terminated text in fixed-width fields. */
module Octets {

  type octet = x: int | 0 <= x < 256

  function PadText(s: seq<octet>, w: nat): (p: seq<octet>)
    ensures |p| == w
  {
    if |s| >= w then s[..w] else s + seq(w - |s|, _ => 0)
  }

  /** Text up to its first NUL. */
  function CString(s: seq<octet>): seq<octet>
  {
    if s == [] || s[0] == 0 then [] else [s[0]] + CString(s[1..])
  }

  lemma {:induction false} CStringOfPadded(s: seq<octet>, w: nat)
    requires |s| <= w
    ensures CString(PadText(s, w)) == CString(s)
    decreases |s|
  {
    var p := PadText(s, w);
    if s == [] {
      assert w > 0 ==> p[0] == 0;
    } else {
      assert p[0] == s[0];
      assert p[1..] == PadText(s[1..], w - 1);
      CStringOfPadded(s[1..], w - 1);
    }
  }

  lemma {:induction false} CStringIsPrefix(s: seq<octet>)
    ensures CString(s) <= s
    ensures CString(s) == s <==> 0 !in s
  {
    if s == [] {
    } else {
      CStringIsPrefix(s[1..]);
      assert s == [s[0]] + s[1..];
    }
  }

  /** Text reads back as it was given if and only if it fits its field and holds no NUL. */
  lemma TextSurvivesIff(s: seq<octet>, w: nat)
    ensures CString(PadText(s, w)) == s <==> |s| <= w && 0 !in s
  {
    CStringIsPrefix(PadText(s, w));
    CStringIsPrefix(s);
    if |s| <= w {
      CStringOfPadded(s, w);
    }
  }

  /** What is read is what stands before the first NUL. */
  lemma {:induction false} CStringStopsAtNul(a: seq<octet>, b: seq<octet>)
    requires 0 !in a
    ensures CString(a + [0] + b) == a
    decreases |a|
  {
    var s := a + [0] + b;
    if a == [] {
      assert s[0] == 0;
    } else {
      assert a[0] in a && s[0] == a[0] && s[1..] == a[1..] + [0] + b;
      CStringStopsAtNul(a[1..], b);
    }
  }
}
