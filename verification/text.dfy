/** The string primitives the store relies on: ASCII case mapping (standing in for
    `toLowerCase`/`toUpperCase`), `trim` and `slice(-n)`. */
module Text {

  predicate IsUpperAscii(c: char) { 'A' <= c <= 'Z' }

  predicate IsLowerAscii(c: char) { 'a' <= c <= 'z' }

  function LowerChar(c: char): char
  {
    if IsUpperAscii(c) then (c as int + 32) as char else c
  }

  function UpperChar(c: char): char
  {
    if IsLowerAscii(c) then (c as int - 32) as char else c
  }

  /** Lower-cases every ASCII letter and leaves every other character alone. */
  function Lower(s: string): (r: string)
    ensures |r| == |s|
    ensures forall i :: 0 <= i < |r| ==> !IsUpperAscii(r[i])
    ensures forall i :: 0 <= i < |s| && !IsUpperAscii(s[i]) ==> r[i] == s[i]
  {
    seq(|s|, i requires 0 <= i < |s| => LowerChar(s[i]))
  }

  /** Upper-cases every ASCII letter and leaves every other character alone. */
  function Upper(s: string): (r: string)
    ensures |r| == |s|
    ensures forall i :: 0 <= i < |r| ==> !IsLowerAscii(r[i])
    ensures forall i :: 0 <= i < |s| && !IsLowerAscii(s[i]) ==> r[i] == s[i]
  {
    seq(|s|, i requires 0 <= i < |s| => UpperChar(s[i]))
  }

  /** Two characters that are the same letter in either case, or the same character. */
  predicate EqualIgnoringCase(a: char, b: char)
  {
    || a == b
    || (IsUpperAscii(a) && b as int == a as int + 32)
    || (IsUpperAscii(b) && a as int == b as int + 32)
  }

  /** Lower-casing turns each capital into its own lower-case letter. */
  lemma LowerMapsCapitals(s: string)
    ensures forall i :: 0 <= i < |s| && IsUpperAscii(s[i]) ==> Lower(s)[i] as int == s[i] as int + 32
  {
  }

  /** Upper-casing turns each lower-case letter into its own capital. */
  lemma UpperMapsSmallLetters(s: string)
    ensures forall i :: 0 <= i < |s| && IsLowerAscii(s[i]) ==> Upper(s)[i] as int == s[i] as int - 32
  {
  }

  /** Two strings lower-case to the same string exactly when they have the same
      length and agree position by position up to ASCII letter case. */
  lemma LowerEqualIffEqualIgnoringCase(a: string, b: string)
    ensures Lower(a) == Lower(b) <==> |a| == |b| && forall i :: 0 <= i < |a| ==> EqualIgnoringCase(a[i], b[i])
  {
    if |a| == |b| && forall i :: 0 <= i < |a| ==> EqualIgnoringCase(a[i], b[i]) {
      assert forall i :: 0 <= i < |a| ==> Lower(a)[i] == Lower(b)[i];
    }
    if Lower(a) == Lower(b) {
      forall i | 0 <= i < |a|
        ensures EqualIgnoringCase(a[i], b[i])
      {
        assert Lower(a)[i] == Lower(b)[i];
      }
    }
  }

  /** Lower-casing twice is lower-casing once, so lower-cased keys compare stably. */
  lemma LowerIdempotent(s: string)
    ensures Lower(Lower(s)) == Lower(s)
  {
  }

  /** The characters `String.prototype.trim` removes: the ECMAScript WhiteSpace
      and LineTerminator code points. */
  predicate IsWhitespace(c: char)
  {
    || c == '\t' || c == '\n' || c == '\U{000B}' || c == '\U{000C}' || c == '\r'
    || c == ' ' || c == '\U{00A0}' || c == '\U{1680}'
    || ('\U{2000}' <= c <= '\U{200A}')
    || c == '\U{2028}' || c == '\U{2029}' || c == '\U{202F}' || c == '\U{205F}'
    || c == '\U{3000}' || c == '\U{FEFF}'
  }

  /** A form field that `trim` empties: it holds nothing but whitespace. */
  predicate Blank(s: string)
  {
    forall i :: 0 <= i < |s| ==> IsWhitespace(s[i])
  }

  /** Drops the leading whitespace: the result is the suffix of `s` that starts
      at its first non-whitespace character. */
  function TrimStart(s: string): (r: string)
    ensures |r| <= |s| && r == s[|s| - |r|..]
    ensures forall i :: 0 <= i < |s| - |r| ==> IsWhitespace(s[i])
    ensures r == [] || !IsWhitespace(r[0])
  {
    if |s| > 0 && IsWhitespace(s[0]) then TrimStart(s[1..]) else s
  }

  /** Drops the trailing whitespace: the result is the prefix of `s` that ends
      at its last non-whitespace character. */
  function TrimEnd(s: string): (r: string)
    ensures |r| <= |s| && r == s[..|r|]
    ensures forall i :: |r| <= i < |s| ==> IsWhitespace(s[i])
    ensures r == [] || !IsWhitespace(r[|r| - 1])
  {
    if |s| > 0 && IsWhitespace(s[|s| - 1]) then TrimEnd(s[..|s| - 1]) else s
  }

  /** `String.prototype.trim`: the middle of `s` left once whitespace is removed
      from both ends. It is empty exactly when `s` is blank. */
  function Trim(s: string): (r: string)
    ensures |r| <= |s|
    ensures r == [] || (!IsWhitespace(r[0]) && !IsWhitespace(r[|r| - 1]))
    ensures r == [] <==> Blank(s)
    ensures exists a, b :: 0 <= a <= b <= |s| && r == s[a..b] && Blank(s[..a]) && Blank(s[b..])
  {
    var t := TrimStart(s);
    var r := TrimEnd(t);
    var a := |s| - |t|;
    assert r == s[a..a + |r|] && Blank(s[..a]) && Blank(s[a + |r|..]);
    assert r == [] ==> Blank(s) by {
      if r == [] {
        assert t == [];
      }
    }
    r
  }

  /** Trimming an already trimmed string changes nothing. */
  lemma TrimIdempotent(s: string)
    ensures Trim(Trim(s)) == Trim(s)
  {
    var r := Trim(s);
    if r != [] {
      assert TrimStart(r) == r;
      assert TrimEnd(r) == r;
    }
  }

  function Min(a: int, b: int): int { if a <= b then a else b }

  /** `s.slice(-n)`: the last `n` characters of `s`, or all of `s` when it is shorter. */
  function SliceLast(s: string, n: nat): (r: string)
    ensures |r| == Min(n, |s|)
    ensures forall i :: 0 <= i < |r| ==> r[i] == s[|s| - |r| + i]
  {
    s[|s| - Min(n, |s|)..]
  }

  /** The referral code derived from an account id: `"REF-"` followed by the
      id's last six characters, upper-cased. */
  function ReferralCode(id: string): (r: string)
    ensures |r| == 4 + Min(6, |id|)
    ensures r[..4] == "REF-"
    ensures forall i :: 4 <= i < |r| ==> !IsLowerAscii(r[i])
    ensures forall i :: 4 <= i < |r| ==> r[i] == UpperChar(id[|id| - |r| + i])
  {
    var tail := SliceLast(id, 6);
    var up := Upper(tail);
    var r := "REF-" + up;
    forall i | 4 <= i < |r|
      ensures r[i] == up[i - 4] == UpperChar(id[|id| - |r| + i])
    {
      assert tail[i - 4] == id[|id| - |tail| + (i - 4)];
    }
    r
  }

  /** An id as generated for a new account and the code derived from it. */
  lemma ReferralCodeExample()
    ensures ReferralCode("u3k9x2ab") == "REF-K9X2AB"
    ensures ReferralCode("u7z") == "REF-U7Z"
  {
    assert SliceLast("u3k9x2ab", 6) == "k9x2ab";
    assert Upper("k9x2ab") == "K9X2AB";
    assert SliceLast("u7z", 6) == "u7z";
    assert Upper("u7z") == "U7Z";
  }
}
