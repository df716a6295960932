/** The few Python `str` operations the application relies on, with the
    meaning CPython gives them: `strip()`, clamped slicing `s[lo:hi]`,
    `startswith`, `endswith` and `lower()`. */
module PyText {

  /** The characters for which Python's `str.isspace()` holds; these are
      the characters `str.strip()` with no argument removes. */
  predicate IsSpace(c: char) {
    || ('\t' <= c <= '\r')
    || ('\U{1C}' <= c <= '\U{1F}')
    || c == ' '
    || c == '\U{85}'
    || c == '\U{A0}'
    || c == '\U{1680}'
    || ('\U{2000}' <= c <= '\U{200A}')
    || c == '\U{2028}'
    || c == '\U{2029}'
    || c == '\U{202F}'
    || c == '\U{205F}'
    || c == '\U{3000}'
  }

  /** `s.lstrip()` */
  function StripLeft(s: string): string {
    if s != [] && IsSpace(s[0]) then StripLeft(s[1..]) else s
  }

  /** `s.rstrip()` */
  function StripRight(s: string): string {
    if s != [] && IsSpace(s[|s| - 1]) then StripRight(s[..|s| - 1]) else s
  }

  /** `s.strip()` */
  function Strip(s: string): string {
    StripRight(StripLeft(s))
  }

  /** `s` is `r` placed at offset `lo` with only whitespace before and after it. */
  predicate PaddedBy(s: string, lo: int, r: string) {
    && 0 <= lo <= |s| - |r| && r == s[lo..lo + |r|]
    && (forall k :: 0 <= k < lo ==> IsSpace(s[k]))
    && (forall k :: lo + |r| <= k < |s| ==> IsSpace(s[k]))
  }

  /** `lstrip` leaves the suffix of `s` after its leading whitespace. */
  lemma {:induction false} StripLeftSpec(s: string)
    ensures |StripLeft(s)| <= |s| && StripLeft(s) == s[|s| - |StripLeft(s)|..]
    ensures forall k :: 0 <= k < |s| - |StripLeft(s)| ==> IsSpace(s[k])
    ensures StripLeft(s) != [] ==> !IsSpace(StripLeft(s)[0])
  {
    if s != [] && IsSpace(s[0]) {
      var tail := s[1..];
      StripLeftSpec(tail);
      var r := StripLeft(tail);
      assert StripLeft(s) == r;
      assert r == s[|s| - |r|..];
      forall k | 0 <= k < |s| - |r| ensures IsSpace(s[k]) {
        if k > 0 { assert s[k] == tail[k - 1]; }
      }
    }
  }

  /** `rstrip` leaves the prefix of `s` before its trailing whitespace. */
  lemma {:induction false} StripRightSpec(s: string)
    ensures |StripRight(s)| <= |s| && StripRight(s) == s[..|StripRight(s)|]
    ensures forall k :: |StripRight(s)| <= k < |s| ==> IsSpace(s[k])
    ensures StripRight(s) != [] ==> !IsSpace(StripRight(s)[|StripRight(s)| - 1])
  {
    if s != [] && IsSpace(s[|s| - 1]) {
      var init := s[..|s| - 1];
      StripRightSpec(init);
      var r := StripRight(init);
      assert StripRight(s) == r;
      assert r == s[..|r|];
      forall k | |r| <= k < |s| ensures IsSpace(s[k]) {
        if k < |s| - 1 { assert s[k] == init[k]; }
      }
    }
  }

  /** `strip` leaves an infix of `s` that has only whitespace around it and
      neither starts nor ends with whitespace. */
  lemma StripSpec(s: string)
    ensures exists lo :: PaddedBy(s, lo, Strip(s))
    ensures Strip(s) != [] ==> !IsSpace(Strip(s)[0]) && !IsSpace(Strip(s)[|Strip(s)| - 1])
  {
    var left := StripLeft(s);
    var r := StripRight(left);
    StripLeftSpec(s);
    StripRightSpec(left);
    var lo := |s| - |left|;
    assert r == s[lo..lo + |r|];
    assert forall k :: lo + |r| <= k < |s| ==> s[k] == left[k - lo];
    assert PaddedBy(s, lo, r) && Strip(s) == r;
  }

  /** Strip removes exactly the whitespace padding around a string that
      neither starts nor ends with whitespace. */
  lemma {:induction false} StripPadded(before: string, s: string, after: string)
    requires forall k :: 0 <= k < |before| ==> IsSpace(before[k])
    requires forall k :: 0 <= k < |after| ==> IsSpace(after[k])
    requires s != [] ==> !IsSpace(s[0]) && !IsSpace(s[|s| - 1])
    ensures Strip(before + s + after) == s
  {
    if s == [] {
      assert before + s + after == (before + after) + [];
      StripLeftPadded(before + after, []);
    } else {
      assert before + s + after == before + (s + after);
      StripLeftPadded(before, s + after);
      StripRightPadded(s, after);
    }
  }

  lemma {:induction false} StripLeftPadded(before: string, s: string)
    requires forall k :: 0 <= k < |before| ==> IsSpace(before[k])
    requires s != [] ==> !IsSpace(s[0])
    ensures StripLeft(before + s) == s
  {
    if before != [] {
      assert (before + s)[1..] == before[1..] + s;
      StripLeftPadded(before[1..], s);
    } else {
      assert before + s == s;
    }
  }

  lemma {:induction false} StripRightPadded(s: string, after: string)
    requires forall k :: 0 <= k < |after| ==> IsSpace(after[k])
    requires s != [] ==> !IsSpace(s[|s| - 1])
    ensures StripRight(s + after) == s
  {
    if after != [] {
      assert (s + after)[..|s + after| - 1] == s + after[..|after| - 1];
      StripRightPadded(s, after[..|after| - 1]);
    } else {
      assert s + after == s;
    }
  }

  /** Python's slice `s[lo:hi]` for `0 <= lo <= hi`: the bounds are clamped
      to the length of `s`, so the slice never fails. */
  function Slice(s: string, lo: nat, hi: nat): (r: string)
    requires lo <= hi
    ensures |r| == (if hi <= |s| then hi - lo else if lo <= |s| then |s| - lo else 0)
    ensures forall k :: 0 <= k < |r| ==> r[k] == s[lo + k]
  {
    if hi <= |s| then s[lo..hi] else if lo <= |s| then s[lo..] else []
  }

  predicate StartsWith(s: string, prefix: string) {
    |prefix| <= |s| && s[..|prefix|] == prefix
  }

  predicate EndsWith(s: string, suffix: string) {
    |suffix| <= |s| && s[|s| - |suffix|..] == suffix
  }

  /** `c.lower()` on ASCII letters; every other character is kept. */
  function LowerChar(c: char): (d: char)
    ensures 'A' <= c <= 'Z' ==> 'a' <= d <= 'z' && d as int - c as int == 32
    ensures !('A' <= c <= 'Z') ==> d == c
  {
    if 'A' <= c <= 'Z' then (c as int + 32) as char else c
  }

  /** `s.lower()`, character by character. */
  function Lower(s: string): (r: string)
    ensures |r| == |s|
    ensures forall k :: 0 <= k < |s| ==> r[k] == LowerChar(s[k])
  {
    if s == [] then [] else [LowerChar(s[0])] + Lower(s[1..])
  }
}
