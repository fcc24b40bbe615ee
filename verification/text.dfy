/**
 * The three string operations the solution filter relies on, `ToLower`,
 * `Trim` and `Contains`, restricted to ASCII. Culture rules and the full
 * Unicode white-space class are not modelled.
 */
module Text {

  /** `Char.IsWhiteSpace` on ASCII: space, tab, line feed, vertical tab, form feed, carriage return. */
  predicate IsWhiteSpace(c: char) {
    c == ' ' || ('\t' <= c <= '\r')
  }

  predicate IsUpper(c: char) {
    'A' <= c <= 'Z'
  }

  /** `Char.ToLower` on ASCII: an upper-case letter becomes its lower-case letter, anything else is kept. */
  function LowerChar(c: char): (d: char)
    ensures !IsUpper(d)
    ensures IsUpper(c) ==> 'a' <= d <= 'z' && d as int - 'a' as int == c as int - 'A' as int
    ensures !IsUpper(c) ==> d == c
    ensures IsWhiteSpace(d) <==> IsWhiteSpace(c)
  {
    if IsUpper(c) then (c as int - 'A' as int + 'a' as int) as char else c
  }

  /** `String.ToLower`: the same string with every upper-case letter lowered. */
  function ToLower(s: string): (r: string)
    ensures |r| == |s|
    ensures forall i :: 0 <= i < |s| ==> r[i] == LowerChar(s[i])
  {
    seq(|s|, i requires 0 <= i < |s| => LowerChar(s[i]))
  }

  /** Lowering twice is lowering once. */
  lemma ToLowerIdempotent(s: string)
    ensures ToLower(ToLower(s)) == ToLower(s)
  {
  }

  /** Lowering a slice is slicing the lowered string. */
  lemma ToLowerSlice(s: string, a: nat, b: nat)
    requires a <= b <= |s|
    ensures ToLower(s[a..b]) == ToLower(s)[a..b]
  {
  }

  /** The first index at or after `i` that does not hold white space, or `|s|` if there is none. */
  function SkipWhiteForward(s: string, i: nat): (j: nat)
    requires i <= |s|
    ensures i <= j <= |s|
    ensures forall k :: i <= k < j ==> IsWhiteSpace(s[k])
    ensures j < |s| ==> !IsWhiteSpace(s[j])
    decreases |s| - i
  {
    if i < |s| && IsWhiteSpace(s[i]) then SkipWhiteForward(s, i + 1) else i
  }

  /** The end left once the white space just before `j`, down to `lo`, is dropped. */
  function SkipWhiteBackward(s: string, lo: nat, j: nat): (e: nat)
    requires lo <= j <= |s|
    ensures lo <= e <= j
    ensures forall k :: e <= k < j ==> IsWhiteSpace(s[k])
    ensures e > lo ==> !IsWhiteSpace(s[e - 1])
    decreases j
  {
    if j > lo && IsWhiteSpace(s[j - 1]) then SkipWhiteBackward(s, lo, j - 1) else j
  }

  /**
   * `r` is what is left of `s` at offset `a` once the white space on both
   * ends is removed: everything before and after is white space, and `r`
   * neither starts nor ends with white space.
   */
  ghost predicate TrimmedAt(s: string, a: int, r: string) {
    && 0 <= a && a + |r| <= |s| && r == s[a..a + |r|]
    && (forall i :: 0 <= i < a ==> IsWhiteSpace(s[i]))
    && (forall i :: a + |r| <= i < |s| ==> IsWhiteSpace(s[i]))
    && (r == [] || (!IsWhiteSpace(r[0]) && !IsWhiteSpace(r[|r| - 1])))
  }

  /** Where the trimmed string starts: the length of the leading white space. */
  function TrimOffset(s: string): (a: nat)
    ensures a <= |s|
  {
    SkipWhiteForward(s, 0)
  }

  /** `String.Trim`: white space removed from both ends. */
  function Trim(s: string): (r: string)
    ensures TrimmedAt(s, TrimOffset(s), r)
  {
    s[TrimOffset(s)..SkipWhiteBackward(s, TrimOffset(s), |s|)]
  }

  /** There is only one way to trim a string: `TrimmedAt` fixes the result. */
  lemma TrimmedAtUnique(s: string, a: int, r: string, b: int, t: string)
    requires TrimmedAt(s, a, r) && TrimmedAt(s, b, t)
    ensures r == t
  {
    if r != [] && t != [] {
      assert s[a] == r[0] && s[b] == t[0];
      assert a == b;
      assert s[a + |r| - 1] == r[|r| - 1] && s[b + |t| - 1] == t[|t| - 1];
      assert |r| == |t|;
    }
  }

  /** A string without white space at its ends is its own trim. */
  lemma TrimOfTrimmed(s: string)
    requires s == [] || (!IsWhiteSpace(s[0]) && !IsWhiteSpace(s[|s| - 1]))
    ensures Trim(s) == s
  {
    assert TrimOffset(s) == 0;
    assert SkipWhiteBackward(s, 0, |s|) == |s|;
  }

  /** Trimming twice is trimming once. */
  lemma TrimIdempotent(s: string)
    ensures Trim(Trim(s)) == Trim(s)
  {
    TrimOfTrimmed(Trim(s));
  }

  /**
   * Lowering keeps white space where it is, so the forward scan stops at the
   * same place (the scan's contract fixes where it stops).
   */
  lemma SkipForwardLower(s: string, i: nat)
    requires i <= |s|
    ensures SkipWhiteForward(ToLower(s), i) == SkipWhiteForward(s, i)
  {
  }

  /** Lowering keeps white space where it is, so the backward scan stops at the same place. */
  lemma SkipBackwardLower(s: string, lo: nat, j: nat)
    requires lo <= j <= |s|
    ensures SkipWhiteBackward(ToLower(s), lo, j) == SkipWhiteBackward(s, lo, j)
  {
  }

  /** Lowering and trimming commute. */
  lemma TrimToLowerCommute(s: string)
    ensures Trim(ToLower(s)) == ToLower(Trim(s))
  {
    var a := TrimOffset(s);
    SkipForwardLower(s, 0);
    SkipBackwardLower(s, a, |s|);
    ToLowerSlice(s, a, SkipWhiteBackward(s, a, |s|));
  }

  /** Characters outside the Basic Multilingual Plane take two UTF-16 code units. */
  predicate IsSupplementary(c: char) {
    c as int >= 0x1_0000
  }

  /**
   * `String.Length`: the number of UTF-16 code units, one per character of
   * the Basic Multilingual Plane and two (a surrogate pair) per other character.
   */
  function Utf16Length(s: string): (n: nat)
    ensures |s| <= n <= 2 * |s|
    ensures (forall i :: 0 <= i < |s| ==> !IsSupplementary(s[i])) ==> n == |s|
    ensures (exists i :: 0 <= i < |s| && IsSupplementary(s[i])) ==> n > |s|
  {
    if s == [] then 0
    else
      assert forall i :: 0 <= i < |s| - 1 ==> s[1..][i] == s[i + 1];
      (if IsSupplementary(s[0]) then 2 else 1) + Utf16Length(s[1..])
  }

  /** An emoji followed by a letter is two characters but three UTF-16 code units. */
  lemma SurrogatePairCountsTwice()
    ensures |"\U{1F600}a"| == 2 && Utf16Length("\U{1F600}a") == 3
  {
    assert "\U{1F600}a"[1..] == "a";
  }

  /** `t` occurs in `s` starting at index `i`. */
  ghost predicate OccursAt(t: string, s: string, i: int) {
    0 <= i && i + |t| <= |s| && s[i..i + |t|] == t
  }

  /** `t` is a substring of `s`, the meaning of `s.Contains(t)`. */
  ghost predicate IsSubstring(t: string, s: string) {
    exists i :: OccursAt(t, s, i)
  }

  /** When `t` does not start `s`, an occurrence of `t` in `s` is an occurrence in `s[1..]`. */
  lemma SubstringOfTail(s: string, t: string)
    requires |t| <= |s| && s[..|t|] != t
    ensures IsSubstring(t, s) <==> IsSubstring(t, s[1..])
  {
    if IsSubstring(t, s) {
      var i :| OccursAt(t, s, i);
      assert i != 0;
      assert s[1..][i - 1..i - 1 + |t|] == s[i..i + |t|];
      assert OccursAt(t, s[1..], i - 1);
    }
    if IsSubstring(t, s[1..]) {
      var j :| OccursAt(t, s[1..], j);
      assert s[1..][j..j + |t|] == s[j + 1..j + 1 + |t|];
      assert OccursAt(t, s, j + 1);
    }
  }

  /** `String.Contains` with ordinal comparison: true exactly when `t` is a substring of `s`. */
  function Contains(s: string, t: string): (b: bool)
    ensures b <==> IsSubstring(t, s)
    decreases |s|
  {
    if |s| < |t| then
      assert forall i :: !OccursAt(t, s, i);
      false
    else if s[..|t|] == t then
      assert OccursAt(t, s, 0);
      true
    else
      SubstringOfTail(s, t);
      Contains(s[1..], t)
  }
}
