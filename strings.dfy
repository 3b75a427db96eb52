/** Text normalisation used by the employee register: Python's str.strip(),
    str.upper() and str.title() on the characters the model covers (ASCII and
    Latin-1), and Python's ordering of str values. */
module Strings {

  /** Python's str.isspace() for one character: the whitespace that
      str.strip() with no argument removes. */
  predicate IsSpace(c: char) {
    || ('\t' <= c <= '\r')
    || ('\U{1c}' <= c <= ' ')
    || c == '\U{85}' || c == '\U{a0}' || c == '\U{1680}'
    || ('\U{2000}' <= c <= '\U{200a}')
    || c == '\U{2028}' || c == '\U{2029}' || c == '\U{202f}' || c == '\U{205f}' || c == '\U{3000}'
  }

  predicate AllSpace(s: string) {
    forall k :: 0 <= k < |s| ==> IsSpace(s[k])
  }

  /** s[lo..hi] is all whitespace, stated on the indices of s. */
  predicate SpaceBetween(s: string, lo: int, hi: int) {
    forall k :: lo <= k < hi && 0 <= k < |s| ==> IsSpace(s[k])
  }

  /** Neither the first nor the last character is whitespace. */
  predicate NoOuterSpace(s: string) {
    s == [] || (!IsSpace(s[0]) && !IsSpace(s[|s| - 1]))
  }

  /** The scan from the left in str.strip(): the first index at or after
      i that does not hold whitespace (|s| if there is none). */
  function SkipLeft(s: string, i: nat): (r: nat)
    requires i <= |s|
    ensures i <= r <= |s|
    ensures SpaceBetween(s, i, r)
    ensures r == |s| || !IsSpace(s[r])
    decreases |s| - i
  {
    if i < |s| && IsSpace(s[i]) then SkipLeft(s, i + 1) else i
  }

  /** The scan from the right in str.strip(), which stops at lo: the end of
      s[lo..j] once its trailing whitespace is dropped. */
  function SkipRight(s: string, lo: nat, j: nat): (r: nat)
    requires lo <= j <= |s|
    ensures lo <= r <= j
    ensures SpaceBetween(s, r, j)
    ensures r == lo || !IsSpace(s[r - 1])
  {
    if lo < j && IsSpace(s[j - 1]) then SkipRight(s, lo, j - 1) else j
  }

  /** str.strip(): the result has no whitespace at either end, and a string
      without outer whitespace is left as it is. */
  function Strip(s: string): (r: string)
    ensures NoOuterSpace(r)
    ensures NoOuterSpace(s) ==> r == s
  {
    var i := SkipLeft(s, 0);
    s[i..SkipRight(s, i, |s|)]
  }

  /** str.strip() removes only whitespace, and only at the two ends: the
      result is a slice s[i..j] and everything outside it is whitespace. */
  lemma StripSlice(s: string) returns (i: nat, j: nat)
    ensures i <= j <= |s| && Strip(s) == s[i..j]
    ensures SpaceBetween(s, 0, i) && SpaceBetween(s, j, |s|)
  {
    i := SkipLeft(s, 0);
    j := SkipRight(s, i, |s|);
  }

  /** A string made only of whitespace strips to the empty string. */
  lemma StripAllSpace(s: string)
    requires AllSpace(s)
    ensures Strip(s) == ""
  {
    var i := SkipLeft(s, 0);
    assert i == |s|;
  }

  // ---------------------------------------------------------------------
  // Case mapping.  The model covers ASCII and Latin-1 (U+0000..U+00FF).

  /** Lower-case letters whose upper-case form is one Latin-1 letter. */
  predicate IsLowerLetter(c: char) {
    ('a' <= c <= 'z') || ('\U{e0}' <= c <= '\U{fe}' && c != '\U{f7}')
  }

  /** Upper-case letters whose lower-case form is one Latin-1 letter. */
  predicate IsUpperLetter(c: char) {
    ('A' <= c <= 'Z') || ('\U{c0}' <= c <= '\U{de}' && c != '\U{d7}')
  }

  /** Unicode's "cased" property on Latin-1: the letters, plus the
      feminine and masculine ordinals and the micro sign. */
  predicate IsCased(c: char) {
    || IsLowerLetter(c) || IsUpperLetter(c)
    || c == '\U{aa}' || c == '\U{b5}' || c == '\U{ba}' || c == '\U{df}' || c == '\U{ff}'
  }

  function UpperChar(c: char): char {
    if IsLowerLetter(c) then (c as int - 32) as char else c
  }

  function LowerChar(c: char): char {
    if IsUpperLetter(c) then (c as int + 32) as char else c
  }

  /** The case mappings keep whitespace, cased-ness, and are idempotent. */
  lemma CaseMappingFacts(c: char)
    ensures IsSpace(UpperChar(c)) == IsSpace(c) && IsSpace(LowerChar(c)) == IsSpace(c)
    ensures IsCased(UpperChar(c)) == IsCased(c) && IsCased(LowerChar(c)) == IsCased(c)
    ensures UpperChar(UpperChar(c)) == UpperChar(c) && LowerChar(LowerChar(c)) == LowerChar(c)
  {
  }

  /** str.upper(). */
  function Upper(s: string): string {
    seq(|s|, i requires 0 <= i < |s| => UpperChar(s[i]))
  }

  /** The loop of str.title(): each character is title-cased (upper-cased)
      when the character before it is not cased, and lower-cased otherwise;
      prevCased says whether the character before s[0] was cased. */
  function TitleFrom(s: string, prevCased: bool): (r: string)
    ensures |r| == |s|
    ensures forall i :: 0 <= i < |s| ==>
      r[i] == if (if i == 0 then prevCased else IsCased(s[i - 1])) then LowerChar(s[i]) else UpperChar(s[i])
  {
    if s == [] then []
    else [if prevCased then LowerChar(s[0]) else UpperChar(s[0])] + TitleFrom(s[1..], IsCased(s[0]))
  }

  /** str.title(): every word starts upper-case and continues lower-case,
      a word being a run of cased characters. */
  function Title(s: string): string {
    TitleFrom(s, false)
  }

  /** The key the filters and the counts compare: .str.strip().str.upper(). */
  function NormKey(s: string): string {
    Upper(Strip(s))
  }

  /** Upper-casing keeps the text free of outer whitespace. */
  lemma UpperKeepsOuterSpace(s: string)
    requires NoOuterSpace(s)
    ensures NoOuterSpace(Upper(s))
  {
  }

  /** Normalising an already normalised key changes nothing: strip removes
      nothing from an upper-cased stripped string and upper is idempotent. */
  lemma NormKeyIdempotent(s: string)
    ensures NormKey(NormKey(s)) == NormKey(s)
  {
    var u := Strip(s);
    var k := Upper(u);
    UpperKeepsOuterSpace(u);
    assert Strip(k) == k;
    forall i | 0 <= i < |k|
      ensures Upper(k)[i] == k[i]
    {
      CaseMappingFacts(u[i]);
    }
  }

  /** A normalised key holds no ASCII lower-case letter. */
  lemma NormKeyHasNoAsciiLower(s: string)
    ensures forall i :: 0 <= i < |NormKey(s)| ==> !('a' <= NormKey(s)[i] <= 'z')
  {
  }

  /** str.title() is idempotent: a title-cased name is its own title case. */
  lemma TitleIdempotent(s: string)
    ensures Title(Title(s)) == Title(s)
  {
    var t := Title(s);
    forall i | 0 <= i < |s|
      ensures Title(t)[i] == t[i]
    {
      CaseMappingFacts(s[i]);
      assert t[i] == if i > 0 && IsCased(s[i - 1]) then LowerChar(s[i]) else UpperChar(s[i]);
      if i > 0 {
        CaseMappingFacts(s[i - 1]);
        assert t[i - 1] == if i > 1 && IsCased(s[i - 2]) then LowerChar(s[i - 1]) else UpperChar(s[i - 1]);
        assert IsCased(t[i - 1]) == IsCased(s[i - 1]);
      }
    }
  }

  /** The stored name (strip, then title) has no outer whitespace. */
  lemma TitleOfStrippedIsStripped(s: string)
    ensures Strip(Title(Strip(s))) == Title(Strip(s))
  {
    var r := Strip(s);
    var t := Title(r);
    if r != [] {
      CaseMappingFacts(r[0]);
      CaseMappingFacts(r[|r| - 1]);
      assert t[0] == UpperChar(r[0]);
      var n := |r| - 1;
      assert t[n] == if n > 0 && IsCased(r[n - 1]) then LowerChar(r[n]) else UpperChar(r[n]);
      assert NoOuterSpace(t);
    }
  }

  // ---------------------------------------------------------------------
  // Python's ordering of str values: lexicographic by code point, a proper
  // prefix coming first.

  predicate Less(a: string, b: string) {
    if a == [] then b != []
    else if b == [] then false
    else if a[0] != b[0] then a[0] < b[0]
    else Less(a[1..], b[1..])
  }

  lemma {:induction false} LessIrreflexive(a: string)
    ensures !Less(a, a)
  {
    if a != [] {
      LessIrreflexive(a[1..]);
    }
  }

  lemma {:induction false} LessTransitive(a: string, b: string, c: string)
    requires Less(a, b) && Less(b, c)
    ensures Less(a, c)
  {
    if a != [] && b != [] && c != [] && a[0] == b[0] && b[0] == c[0] {
      LessTransitive(a[1..], b[1..], c[1..]);
    }
  }

  lemma {:induction false} LessTotal(a: string, b: string)
    requires a != b
    ensures Less(a, b) || Less(b, a)
  {
    if a != [] && b != [] && a[0] == b[0] {
      assert a == [a[0]] + a[1..] && b == [b[0]] + b[1..];
      LessTotal(a[1..], b[1..]);
    }
  }

  /** Less is a strict total order, so sorted() of distinct keys is unique. */
  lemma LessIsStrictTotalOrder()
    ensures forall a :: !Less(a, a)
    ensures forall a, b, c :: Less(a, b) && Less(b, c) ==> Less(a, c)
    ensures forall a, b :: a != b ==> Less(a, b) || Less(b, a)
  {
    forall a { LessIrreflexive(a); }
    forall a, b, c | Less(a, b) && Less(b, c) { LessTransitive(a, b, c); }
    forall a, b | a != b { LessTotal(a, b); }
  }
}
