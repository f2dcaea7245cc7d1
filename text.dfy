/**
  The string operations of Python that the core relies on: `str.strip()`,
  `str.lower()` and the substring test `needle in haystack`.
 */
module Text {

  /** Python's `str.isspace()` for one character. */
  predicate IsSpace(c: char) {
    ('\U{9}' <= c <= '\U{D}') || ('\U{1C}' <= c <= '\U{1F}') || c == ' '
    || c == '\U{85}' || c == '\U{A0}' || c == '\U{1680}'
    || ('\U{2000}' <= c <= '\U{200A}') || c == '\U{2028}' || c == '\U{2029}'
    || c == '\U{202F}' || c == '\U{205F}' || c == '\U{3000}'
  }

  /** Every character of `s` is whitespace. */
  ghost predicate AllSpace(s: string) {
    forall k :: 0 <= k < |s| ==> IsSpace(s[k])
  }

  /** Drops the leading whitespace. */
  function StripLeading(s: string): string {
    if s != [] && IsSpace(s[0]) then StripLeading(s[1..]) else s
  }

  /** Drops the trailing whitespace. */
  function StripTrailing(s: string): string {
    if s != [] && IsSpace(s[|s| - 1]) then StripTrailing(s[..|s| - 1]) else s
  }

  /** `StripLeading` gives a suffix, empty exactly when `s` is all whitespace. */
  lemma {:induction false} StripLeadingFacts(s: string)
    ensures var r := StripLeading(s);
      && |r| <= |s| && r == s[|s| - |r|..]
      && (r == [] <==> AllSpace(s))
      && (r != [] ==> !IsSpace(r[0]))
      && AllSpace(s[..|s| - |r|])
  {
    if s != [] && IsSpace(s[0]) {
      var tail := s[1..];
      StripLeadingFacts(tail);
      var r := StripLeading(tail);
      var pre := s[..|s| - |r|];
      forall k | 0 <= k < |pre| ensures IsSpace(pre[k]) {
        if k > 0 { assert pre[k] == tail[..|tail| - |r|][k - 1]; }
      }
      if AllSpace(tail) {
        forall k | 0 <= k < |s| ensures IsSpace(s[k]) {
          if k > 0 { assert s[k] == tail[k - 1]; }
        }
      } else {
        var k :| 0 <= k < |tail| && !IsSpace(tail[k]);
        assert s[k + 1] == tail[k];
      }
    }
  }

  /** `StripTrailing` gives a prefix, empty exactly when `s` is all whitespace. */
  lemma {:induction false} StripTrailingFacts(s: string)
    ensures var r := StripTrailing(s);
      && |r| <= |s| && r == s[..|r|]
      && (r == [] <==> AllSpace(s))
      && (r != [] ==> !IsSpace(r[|r| - 1]))
      && AllSpace(s[|r|..])
  {
    if s != [] && IsSpace(s[|s| - 1]) {
      var front := s[..|s| - 1];
      StripTrailingFacts(front);
      var r := StripTrailing(front);
      forall k | |r| <= k < |s| ensures IsSpace(s[k]) {
        if k < |s| - 1 { assert s[k] == front[|r|..][k - |r|]; }
      }
      assert forall k :: 0 <= k < |s[|r|..]| ==> s[|r|..][k] == s[k + |r|];
      if AllSpace(front) {
        forall k | 0 <= k < |s| ensures IsSpace(s[k]) {
          if k < |s| - 1 { assert s[k] == front[k]; }
        }
      } else {
        var k :| 0 <= k < |front| && !IsSpace(front[k]);
        assert s[k] == front[k];
      }
    }
  }

  /**
    Python's `s.strip()`: `s` without its leading and trailing whitespace.
    It is empty exactly when every character of `s` is whitespace.
   */
  function Strip(s: string): (r: string)
    ensures r == [] <==> AllSpace(s)
    ensures r != [] ==> !IsSpace(r[0]) && !IsSpace(r[|r| - 1])
  {
    var l := StripLeading(s);
    StripLeadingFacts(s);
    StripTrailingFacts(l);
    var t := StripTrailing(l);
    assert t != [] ==> t[0] == l[0];
    t
  }

  /**
    The stripped string is the slice of `s` between its leading and trailing
    whitespace: what comes before it and what comes after it are all whitespace.
   */
  lemma StripIsSlice(s: string)
    ensures exists i :: OccursAt(s, Strip(s), i) && AllSpace(s[..i]) && AllSpace(s[i + |Strip(s)|..])
  {
    var l := StripLeading(s);
    var t := StripTrailing(l);
    StripLeadingFacts(s);
    StripTrailingFacts(l);
    assert Strip(s) == t;
    var i := |s| - |l|;
    assert s[i..i + |t|] == l[..|t|];
    assert OccursAt(s, t, i);
    assert s[i + |t|..] == l[|t|..];
  }

  /** Python's `str.lower()` on ASCII letters; every other character is kept. */
  function LowerChar(c: char): char {
    if 'A' <= c <= 'Z' then (c as int - 'A' as int + 'a' as int) as char else c
  }

  predicate IsUpper(c: char) {
    'A' <= c <= 'Z'
  }

  /**
    `lower()`: no upper-case ASCII letter remains; each upper-case letter
    becomes the letter of the same place in the lower-case alphabet, and
    every other character is kept where it stands.
   */
  function Lower(s: string): (r: string)
    ensures |r| == |s|
    ensures forall i :: 0 <= i < |s| ==> !IsUpper(r[i])
    ensures forall i :: 0 <= i < |s| && !IsUpper(s[i]) ==> r[i] == s[i]
    ensures forall i :: 0 <= i < |s| && IsUpper(s[i]) ==>
              'a' <= r[i] <= 'z' && r[i] as int - 'a' as int == s[i] as int - 'A' as int
  {
    seq(|s|, i requires 0 <= i < |s| => LowerChar(s[i]))
  }

  /** Lower-casing twice is lower-casing once. */
  lemma LowerIdempotent(s: string)
    ensures Lower(Lower(s)) == Lower(s)
  {
  }

  /** `needle` occurs in `haystack` starting at index `i`. */
  predicate OccursAt(haystack: string, needle: string, i: int) {
    0 <= i && i + |needle| <= |haystack| && haystack[i..i + |needle|] == needle
  }

  predicate StartsWith(s: string, prefix: string) {
    |prefix| <= |s| && s[..|prefix|] == prefix
  }

  /** Python's `needle in haystack`, computed by trying every start position. */
  function Contains(haystack: string, needle: string): bool
    decreases |haystack|
  {
    StartsWith(haystack, needle) || (haystack != [] && Contains(haystack[1..], needle))
  }

  /** `Contains` holds exactly when the needle occurs at some position. */
  lemma {:induction false} ContainsIff(haystack: string, needle: string)
    ensures Contains(haystack, needle) <==> exists i :: OccursAt(haystack, needle, i)
  {
    if StartsWith(haystack, needle) {
      assert OccursAt(haystack, needle, 0);
    } else if haystack == [] {
      assert forall i :: !OccursAt(haystack, needle, i);
    } else {
      var tail := haystack[1..];
      ContainsIff(tail, needle);
      if i :| OccursAt(haystack, needle, i) {
        assert i != 0;
        assert tail[i - 1..i - 1 + |needle|] == haystack[i..i + |needle|];
        assert OccursAt(tail, needle, i - 1);
      }
      if j :| OccursAt(tail, needle, j) {
        assert haystack[j + 1..j + 1 + |needle|] == tail[j..j + |needle|];
        assert OccursAt(haystack, needle, j + 1);
      }
    }
  }

  /** The empty string is a substring of every string. */
  lemma EmptyIsContained(haystack: string)
    ensures Contains(haystack, [])
  {
    assert StartsWith(haystack, []);
  }
}
