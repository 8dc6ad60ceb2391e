/**
 The three Python string operations the block loop of extracao-v1.py relies on,
 over `string` (a sequence of Unicode scalar values):
 - `s.strip()`          -> Strip
 - `pat in s`           -> Contains
 - `s.replace(pat, "")` -> RemoveAll
 */
module PyStr {

  /** Python's `str.isspace` for a single character: the characters whose
      bidirectional class is WS, B or S, or whose category is Zs. */
  predicate IsSpace(c: char) {
    c == ' ' || c == '\t' || c == '\n' || c == '\r' || c == '\U{0B}' || c == '\U{0C}'
    || ('\U{1C}' <= c <= '\U{1F}') || c == '\U{85}' || c == '\U{A0}' || c == '\U{1680}'
    || ('\U{2000}' <= c <= '\U{200A}') || c == '\U{2028}' || c == '\U{2029}'
    || c == '\U{202F}' || c == '\U{205F}' || c == '\U{3000}'
  }

  predicate AllSpace(s: string) {
    forall k | 0 <= k < |s| :: IsSpace(s[k])
  }

  /** Length of the longest all-whitespace prefix of `s`. */
  function LeadingSpace(s: string): (n: nat)
    ensures n <= |s|
    ensures forall k | 0 <= k < n :: IsSpace(s[k])
    ensures n < |s| ==> !IsSpace(s[n])
  {
    if |s| > 0 && IsSpace(s[0]) then 1 + LeadingSpace(s[1..]) else 0
  }

  /** Length of the longest all-whitespace suffix of `s`. */
  function TrailingSpace(s: string): (n: nat)
    ensures n <= |s|
    ensures forall k | |s| - n <= k < |s| :: IsSpace(s[k])
    ensures n < |s| ==> !IsSpace(s[|s| - n - 1])
  {
    if |s| > 0 && IsSpace(s[|s| - 1]) then 1 + TrailingSpace(s[..|s| - 1]) else 0
  }

  /** `r` is what is left of `s` once the whitespace before position `i` and
      after position `i + |r|` is cut away, and `r` itself neither starts nor
      ends with whitespace. */
  predicate IsStripOf(s: string, r: string, i: nat) {
    i + |r| <= |s| && s[i..i + |r|] == r
    && (forall k | 0 <= k < i :: IsSpace(s[k]))
    && (forall k | i + |r| <= k < |s| :: IsSpace(s[k]))
    && (|r| > 0 ==> !IsSpace(r[0]) && !IsSpace(r[|r| - 1]))
  }

  /** Python's `s.strip()` with no argument. */
  function Strip(s: string): (r: string)
    ensures IsStripOf(s, r, LeadingSpace(s))
  {
    var i := LeadingSpace(s);
    var rest := s[i..];
    rest[..|rest| - TrailingSpace(rest)]
  }

  /** Strip is the only string that `IsStripOf` allows: cutting whitespace off
      both ends has one outcome, whatever position it is found at. */
  lemma StripUnique(s: string, r: string, i: nat)
    requires IsStripOf(s, r, i)
    ensures r == Strip(s)
  {
    var n := LeadingSpace(s);
    var r' := Strip(s);
    assert |r| > 0 ==> s[i] == r[0] && s[i + |r| - 1] == r[|r| - 1];
    assert |r'| > 0 ==> s[n] == r'[0] && s[n + |r'| - 1] == r'[|r'| - 1];
  }

  /** Stripping twice is the same as stripping once. */
  lemma StripIdempotent(s: string)
    ensures Strip(Strip(s)) == Strip(s)
  {
    var r := Strip(s);
    assert r[0..|r|] == r;
    StripUnique(r, r, 0);
  }

  /** Strip yields the empty string exactly when `s` is all whitespace. */
  lemma StripEmptyIff(s: string)
    ensures Strip(s) == [] <==> AllSpace(s)
  {
    var n := LeadingSpace(s);
    assert |Strip(s)| > 0 ==> Strip(s)[0] == s[n];
    if AllSpace(s) {
      StripUnique(s, [], |s|);
    }
  }

  /** A string with no whitespace at either end is left as it is. */
  lemma StripKeepsTrimmed(s: string)
    requires |s| > 0 && !IsSpace(s[0]) && !IsSpace(s[|s| - 1])
    ensures Strip(s) == s
  {
    assert s[0..|s|] == s;
    StripUnique(s, s, 0);
  }

  /** `pat` occurs in `s` starting at index `i`. */
  predicate OccursAt(s: string, pat: string, i: nat) {
    i + |pat| <= |s| && s[i..i + |pat|] == pat
  }

  /** A string contains its own prefix. */
  lemma ContainsAtStart(pat: string, t: string)
    ensures Contains(pat + t, pat)
  {
    assert (pat + t)[0..|pat|] == pat;
    assert OccursAt(pat + t, pat, 0);
  }

  /** Python's `pat in s`: substring containment anywhere in `s`. */
  predicate Contains(s: string, pat: string) {
    exists i: nat | i <= |s| :: OccursAt(s, pat, i)
  }

  /** Python's `s.replace(pat, "")`: every non-overlapping occurrence of
      `pat`, found left to right, is deleted in a single pass. */
  function RemoveAll(s: string, pat: string): (r: string)
    requires |pat| > 0
    ensures |r| <= |s|
    decreases |s|
  {
    if |s| < |pat| then s
    else if s[..|pat|] == pat then RemoveAll(s[|pat|..], pat)
    else [s[0]] + RemoveAll(s[1..], pat)
  }

  /** Removing a pattern that does not occur changes nothing. */
  lemma {:induction false} RemoveAllAbsent(s: string, pat: string)
    requires |pat| > 0 && !Contains(s, pat)
    ensures RemoveAll(s, pat) == s
    decreases |s|
  {
    if |s| >= |pat| {
      assert !OccursAt(s, pat, 0);
      assert s[..|pat|] != pat;
      if Contains(s[1..], pat) {
        var i: nat :| i <= |s[1..]| && OccursAt(s[1..], pat, i);
        assert s[1..][i..i + |pat|] == s[i + 1..i + 1 + |pat|];
        assert OccursAt(s, pat, i + 1);
        assert false;
      }
      RemoveAllAbsent(s[1..], pat);
      assert [s[0]] + s[1..] == s;
    }
  }

  /** A leading occurrence is removed and the rest, if it holds no further
      occurrence, is kept whole. */
  lemma RemoveAllLeading(pat: string, t: string)
    requires |pat| > 0 && !Contains(t, pat)
    ensures RemoveAll(pat + t, pat) == t
  {
    var s := pat + t;
    assert s[..|pat|] == pat && s[|pat|..] == t;
    RemoveAllAbsent(t, pat);
  }

  /** One step of the left-to-right scan when no occurrence starts at the
      first character. */
  lemma RemoveAllSkip(s: string, pat: string, k: nat)
    requires 0 < |pat| <= |s| && k < |pat| && s[k] != pat[k]
    ensures RemoveAll(s, pat) == [s[0]] + RemoveAll(s[1..], pat)
  {
    assert s[..|pat|][k] == s[k];
  }

  /** The general step of `replace(pat, "")`: everything before the first
      occurrence is kept, that occurrence is dropped, and the scan goes on
      after it. With RemoveAllAbsent this fixes the result for every input. */
  lemma {:induction false} RemoveAllFirst(a: string, pat: string, b: string)
    requires |pat| > 0
    requires forall i: nat | i < |a| :: !OccursAt(a + pat + b, pat, i)
    ensures RemoveAll(a + pat + b, pat) == a + RemoveAll(b, pat)
    decreases |a|
  {
    var s := a + pat + b;
    if a == [] {
      assert s[..|pat|] == pat && s[|pat|..] == b by {
        assert s == pat + b;
      }
    } else {
      var t := a[1..];
      var s1 := t + pat + b;
      assert s1 == s[1..];
      assert RemoveAll(s, pat) == [a[0]] + RemoveAll(s1, pat) by {
        assert !OccursAt(s, pat, 0);
      }
      assert forall i: nat | i < |t| :: !OccursAt(s1, pat, i) by {
        forall i: nat | i < |t|
          ensures !OccursAt(s1, pat, i)
        {
          assert !OccursAt(s, pat, i + 1);
          assert s1[i..i + |pat|] == s[i + 1..i + 1 + |pat|];
        }
      }
      RemoveAllFirst(t, pat, b);
      assert [a[0]] + t == a;
    }
  }

  /** Deleting is one pass: in `s` = `pat[..2] + pat + pat[2..]`, where no
      occurrence starts at either of the first two characters, deleting the
      middle occurrence stitches a new one together, and it survives. */
  lemma RemoveAllSinglePass(pat: string, s: string)
    requires |pat| >= 3 && pat[1] != pat[0] && pat[2] != pat[0]
    requires s == pat[..2] + pat + pat[2..]
    ensures RemoveAll(s, pat) == pat
    ensures Contains(RemoveAll(s, pat), pat)
  {
    var rest := pat[2..];
    var s1 := s[1..];
    assert RemoveAll(s, pat) == [pat[0]] + RemoveAll(s1, pat) by {
      assert s[0] == pat[0] && s[2] == pat[0];
      RemoveAllSkip(s, pat, 2);
    }
    assert RemoveAll(s1, pat) == [pat[1]] + rest by {
      assert s1[0] == pat[1];
      RemoveAllSkip(s1, pat, 0);
      assert s1[1..] == pat + rest;
      assert |rest| < |pat|;
      RemoveAllLeading(pat, rest);
    }
    assert [pat[0]] + ([pat[1]] + rest) == pat;
    assert pat[0..|pat|] == pat;
    assert OccursAt(pat, pat, 0);
  }
}
