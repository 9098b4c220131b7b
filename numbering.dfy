/** The numbering prefixes project/run_pipeline.py tests with `re.match`:
      `^\d+\.\d+\.\d+\s` (H3), `^\d+\.\d+\s` (H2) and `^\d+\.\s` (H1) in classify_heading, and
      `^\d+(\.\d+)*\s` in extract_text_under_heading.
    In every one of them a `\d+` is followed by '.' or whitespace, neither of which is a digit,
    so a match must give each `\d+` the maximal run of digits: the matchers below parse
    greedily, and the lemmas prove them equal to the regex semantics, which lets each `\d+`
    take any non-empty run. */
module Numbering {
  import opened Wrappers
  import opened Text

  /** Where the run of ASCII digits that starts at index `a` ends. */
  function DigitsEnd(s: string, a: nat): (b: nat)
    requires a <= |s|
    ensures a <= b <= |s|
    ensures b == |s| || !IsDigit(s[b])
    decreases |s| - a
  {
    if a < |s| && IsDigit(s[a]) then DigitsEnd(s, a + 1) else a
  }

  /** Where `n` dot-separated digit groups starting at index `a` end, each group its maximal
      run of digits; None when the text at `a` does not start that way. */
  function GroupsEnd(s: string, a: nat, n: nat): (r: Option<nat>)
    requires a <= |s| && n >= 1
    ensures r.Some? ==> a < r.value <= |s|
    decreases n
  {
    var b := DigitsEnd(s, a);
    if b == a then None
    else if n == 1 then Some(b)
    else if b < |s| && s[b] == '.' then GroupsEnd(s, b + 1, n - 1)
    else None
  }

  /** Where the longest sequence of dot-separated digit groups starting at `a` ends. */
  function AllGroupsEnd(s: string, a: nat): (r: Option<nat>)
    requires a <= |s|
    ensures r.Some? ==> a < r.value <= |s|
    decreases |s| - a
  {
    var b := DigitsEnd(s, a);
    if b == a then None
    else if b + 1 < |s| && s[b] == '.' && IsDigit(s[b + 1]) then AllGroupsEnd(s, b + 1)
    else Some(b)
  }

  predicate SpaceAt(s: string, i: nat) {
    i < |s| && IsSpace(s[i])
  }

  /** `re.match(r"^\d+(\.\d+){n-1}\s", s)`: n = 3 is the H3 pattern, n = 2 the H2 pattern. */
  predicate NumberedWith(s: string, n: nat)
    requires n >= 1
  {
    var r := GroupsEnd(s, 0, n);
    r.Some? && SpaceAt(s, r.value)
  }

  /** `re.match(r"^\d+\.\s", s)`: the H1 pattern. */
  predicate NumberedH1(s: string) {
    var r := GroupsEnd(s, 0, 1);
    r.Some? && r.value < |s| && s[r.value] == '.' && SpaceAt(s, r.value + 1)
  }

  /** `re.match(r"^\d+(\.\d+)*\s", s)`: the "next heading" test of the section scan. */
  predicate StartsWithNumbering(s: string) {
    var r := AllGroupsEnd(s, 0);
    r.Some? && SpaceAt(s, r.value)
  }

  // ---------------------------------------------------------------------------------------------
  // The regex semantics.

  /** `s[a..b]` is a non-empty run of digits: what one `\d+` can match. */
  ghost predicate DigitsBetween(s: string, a: nat, b: nat) {
    a < b <= |s| && forall j :: a <= j < b ==> IsDigit(s[j])
  }

  /** `s[a..e]` is `n` dot-separated non-empty digit groups: what `\d+(\.\d+){n-1}` can match. */
  ghost predicate DigitGroups(s: string, a: nat, n: nat, e: nat)
    decreases n
  {
    if n == 0 then false
    else if n == 1 then DigitsBetween(s, a, e)
    else exists i: nat :: a < i < |s| && i + 1 < e && DigitsBetween(s, a, i) && s[i] == '.'
                          && DigitGroups(s, i + 1, n - 1, e)
  }

  /** The regex `^\d+(\.\d+){n-1}\s` matches `s`. */
  ghost predicate RegexNumbered(s: string, n: nat) {
    exists e: nat :: DigitGroups(s, 0, n, e) && SpaceAt(s, e)
  }

  /** The regex `^\d+\.\s` matches `s`. */
  ghost predicate RegexNumberedH1(s: string) {
    exists e: nat :: DigitGroups(s, 0, 1, e) && e < |s| && s[e] == '.' && SpaceAt(s, e + 1)
  }

  /** The regex `^\d+(\.\d+)*\s` matches `s`. */
  ghost predicate RegexSectionNumber(s: string) {
    exists n: nat, e: nat :: n >= 1 && DigitGroups(s, 0, n, e) && SpaceAt(s, e)
  }

  // ---------------------------------------------------------------------------------------------
  // Lemmas: the greedy matchers are the regexes.

  lemma {:induction false} DigitsEndIsRun(s: string, a: nat)
    requires a <= |s|
    ensures forall j :: a <= j < DigitsEnd(s, a) ==> IsDigit(s[j])
    decreases |s| - a
  {
    if a < |s| && IsDigit(s[a]) {
      DigitsEndIsRun(s, a + 1);
    }
  }

  /** A run of digits followed by a non-digit (or the end) is the maximal run. */
  lemma {:induction false} DigitsEndExact(s: string, a: nat, b: nat)
    requires DigitsBetween(s, a, b) && (b == |s| || !IsDigit(s[b]))
    ensures DigitsEnd(s, a) == b
    decreases b - a
  {
    if a + 1 < b {
      DigitsEndExact(s, a + 1, b);
    }
  }

  /** The greedy parse finds groups the regex can match. */
  lemma {:induction false} GroupsEndSound(s: string, a: nat, n: nat)
    requires a <= |s| && n >= 1 && GroupsEnd(s, a, n).Some?
    ensures DigitGroups(s, a, n, GroupsEnd(s, a, n).value)
    decreases n, 1
  {
    if n == 1 {
      DigitsEndIsRun(s, a);
    } else {
      GroupsEndSoundMore(s, a, n);
    }
  }

  lemma {:induction false} GroupsEndSoundMore(s: string, a: nat, n: nat)
    requires a <= |s| && n > 1 && GroupsEnd(s, a, n).Some?
    ensures DigitGroups(s, a, n, GroupsEnd(s, a, n).value)
    decreases n, 0
  {
    var b := DigitsEnd(s, a);
    GroupsEndFirst(s, a, n);
    var e := GroupsEnd(s, b + 1, n - 1).value;
    GroupsEndSound(s, b + 1, n - 1);
    DigitGroupsStart(s, b + 1, n - 1, e);
    FirstGroup(s, a);
    DigitGroupsCons(s, a, b, n, e);
  }

  /** The digit run at `a`, when non-empty, is what one `\d+` matches. */
  lemma FirstGroup(s: string, a: nat)
    requires a <= |s| && DigitsEnd(s, a) > a
    ensures DigitsBetween(s, a, DigitsEnd(s, a))
  {
    DigitsEndIsRun(s, a);
  }

  /** A parse of several groups is a first group, a dot and the parse of the rest. */
  lemma GroupsEndFirst(s: string, a: nat, n: nat)
    requires a <= |s| && n > 1 && GroupsEnd(s, a, n).Some?
    ensures var b := DigitsEnd(s, a);
      a < b < |s| && s[b] == '.' && GroupsEnd(s, a, n) == GroupsEnd(s, b + 1, n - 1)
  {
  }

  /** A group, a dot and `n - 1` more groups are `n` groups. */
  lemma DigitGroupsCons(s: string, a: nat, i: nat, n: nat, e: nat)
    requires n > 1 && DigitsBetween(s, a, i) && i < |s| && s[i] == '.' && i + 1 < e
    requires DigitGroups(s, i + 1, n - 1, e)
    ensures DigitGroups(s, a, n, e)
  {
  }

  lemma {:induction false} DigitGroupsStart(s: string, a: nat, n: nat, e: nat)
    requires DigitGroups(s, a, n, e)
    ensures a < e <= |s| && IsDigit(s[a])
    decreases n
  {
    if n > 1 {
      var i: nat :| a < i < |s| && i + 1 < e && DigitsBetween(s, a, i) && s[i] == '.'
                    && DigitGroups(s, i + 1, n - 1, e);
      DigitGroupsStart(s, i + 1, n - 1, e);
    }
  }

  /** The first group of several and the dot after it. */
  lemma DigitGroupsSplit(s: string, a: nat, n: nat, e: nat) returns (i: nat)
    requires n > 1 && DigitGroups(s, a, n, e)
    ensures a < i < |s| && i + 1 < e && DigitsBetween(s, a, i) && s[i] == '.'
    ensures DigitGroups(s, i + 1, n - 1, e)
  {
    i :| a < i < |s| && i + 1 < e && DigitsBetween(s, a, i) && s[i] == '.' && DigitGroups(s, i + 1, n - 1, e);
  }

  /** Groups the regex matches that are followed by a non-digit are the greedy parse. */
  lemma {:induction false} GroupsEndComplete(s: string, a: nat, n: nat, e: nat)
    requires n >= 1 && DigitGroups(s, a, n, e) && (e < |s| ==> !IsDigit(s[e]))
    ensures a <= |s| && GroupsEnd(s, a, n) == Some(e)
    decreases n, 1
  {
    if n == 1 {
      DigitsEndExact(s, a, e);
    } else {
      GroupsEndCompleteMore(s, a, n, e);
    }
  }

  lemma {:induction false} GroupsEndCompleteMore(s: string, a: nat, n: nat, e: nat)
    requires n > 1 && DigitGroups(s, a, n, e) && (e < |s| ==> !IsDigit(s[e]))
    ensures a <= |s| && GroupsEnd(s, a, n) == Some(e)
    decreases n, 0
  {
    var i := DigitGroupsSplit(s, a, n, e);
    GroupsEndComplete(s, i + 1, n - 1, e);
    GroupsEndPastDot(s, a, n, i);
  }

  /** After a first group ending in a dot, the parse continues right after the dot. */
  lemma GroupsEndPastDot(s: string, a: nat, n: nat, i: nat)
    requires n > 1 && DigitsBetween(s, a, i) && i < |s| && s[i] == '.'
    ensures GroupsEnd(s, a, n) == GroupsEnd(s, i + 1, n - 1)
  {
    DigitsEndExact(s, a, i);
  }

  /** The H3 and H2 patterns as computed are the regexes. */
  lemma NumberedIsRegex(s: string, n: nat)
    requires n >= 1
    ensures NumberedWith(s, n) <==> RegexNumbered(s, n)
  {
    if NumberedWith(s, n) {
      GroupsEndSound(s, 0, n);
    }
    if RegexNumbered(s, n) {
      var e: nat :| DigitGroups(s, 0, n, e) && SpaceAt(s, e);
      GroupsEndComplete(s, 0, n, e);
    }
  }

  /** The H1 pattern as computed is the regex. */
  lemma NumberedH1IsRegex(s: string)
    ensures NumberedH1(s) <==> RegexNumberedH1(s)
  {
    if NumberedH1(s) {
      GroupsEndSound(s, 0, 1);
    }
    if RegexNumberedH1(s) {
      var e: nat :| DigitGroups(s, 0, 1, e) && e < |s| && s[e] == '.' && SpaceAt(s, e + 1);
      GroupsEndComplete(s, 0, 1, e);
    }
  }

  lemma {:induction false} AllGroupsSound(s: string, a: nat)
    requires a <= |s| && AllGroupsEnd(s, a).Some?
    ensures exists n: nat :: n >= 1 && DigitGroups(s, a, n, AllGroupsEnd(s, a).value)
    decreases |s| - a
  {
    var b := DigitsEnd(s, a);
    DigitsEndIsRun(s, a);
    assert DigitsBetween(s, a, b);
    var e := AllGroupsEnd(s, a).value;
    if b + 1 < |s| && s[b] == '.' && IsDigit(s[b + 1]) {
      AllGroupsSound(s, b + 1);
      var n: nat :| n >= 1 && DigitGroups(s, b + 1, n, e);
      assert DigitGroups(s, a, n + 1, e);
    } else {
      assert DigitGroups(s, a, 1, e);
    }
  }

  lemma {:induction false} AllGroupsComplete(s: string, a: nat, n: nat, e: nat)
    requires n >= 1 && DigitGroups(s, a, n, e) && SpaceAt(s, e)
    ensures a <= |s| && AllGroupsEnd(s, a) == Some(e)
    decreases n
  {
    DigitGroupsStart(s, a, n, e);
    if n == 1 {
      DigitsEndExact(s, a, e);
    } else {
      var i := DigitGroupsSplit(s, a, n, e);
      DigitGroupsStart(s, i + 1, n - 1, e);
      AllGroupsComplete(s, i + 1, n - 1, e);
      AllGroupsPastDot(s, a, i);
    }
  }

  /** After a first group ending in a dot and a digit, the parse continues right after the dot. */
  lemma AllGroupsPastDot(s: string, a: nat, i: nat)
    requires DigitsBetween(s, a, i) && i + 1 < |s| && s[i] == '.' && IsDigit(s[i + 1])
    ensures AllGroupsEnd(s, a) == AllGroupsEnd(s, i + 1)
  {
    DigitsEndExact(s, a, i);
  }

  /** The section scan's pattern as computed is the regex. */
  lemma StartsWithNumberingIsRegex(s: string)
    ensures StartsWithNumbering(s) <==> RegexSectionNumber(s)
  {
    if StartsWithNumbering(s) {
      AllGroupsSound(s, 0);
    }
    if RegexSectionNumber(s) {
      var n: nat, e: nat :| n >= 1 && DigitGroups(s, 0, n, e) && SpaceAt(s, e);
      AllGroupsComplete(s, 0, n, e);
    }
  }

  // ---------------------------------------------------------------------------------------------
  // Lemmas: how the patterns relate to each other.

  /** Parsing one more group only continues past a dot. */
  lemma {:induction false} GroupsEndNext(s: string, a: nat, n: nat)
    requires a <= |s| && n >= 1 && GroupsEnd(s, a, n).Some? && GroupsEnd(s, a, n + 1).Some?
    ensures var e := GroupsEnd(s, a, n).value;
      e + 1 < GroupsEnd(s, a, n + 1).value && s[e] == '.' && IsDigit(s[e + 1])
    decreases n
  {
    var b := DigitsEnd(s, a);
    if n > 1 {
      GroupsEndNext(s, b + 1, n - 1);
    } else {
      assert DigitsEnd(s, b + 1) > b + 1;
    }
  }

  /** At most one of the three numbering patterns of classify_heading matches a text, so the
      order in which it tries them does not matter. */
  lemma NumberingPatternsExclusive(s: string)
    ensures !(NumberedWith(s, 3) && NumberedWith(s, 2))
    ensures !(NumberedWith(s, 3) && NumberedH1(s))
    ensures !(NumberedWith(s, 2) && NumberedH1(s))
  {
    if GroupsEnd(s, 0, 2).Some? {
      GroupsEndNext(s, 0, 1);
      if GroupsEnd(s, 0, 3).Some? {
        GroupsEndNext(s, 0, 2);
      }
    }
  }

  /** Every text classify_heading numbers also starts a new section for the section scan. */
  lemma HeadingNumberEndsSection(s: string)
    ensures NumberedWith(s, 3) || NumberedWith(s, 2) ==> StartsWithNumbering(s)
  {
    if NumberedWith(s, 3) {
      NumberedIsRegex(s, 3);
      StartsWithNumberingIsRegex(s);
    }
    if NumberedWith(s, 2) {
      NumberedIsRegex(s, 2);
      StartsWithNumberingIsRegex(s);
    }
  }

  /** A heading numbered like "1. Title" does NOT match the section scan's pattern: after the
      digits, the dot is not followed by a digit, and the dot itself is not whitespace. */
  lemma H1NumberDoesNotEndSection(s: string)
    ensures NumberedH1(s) ==> !StartsWithNumbering(s)
  {
    if NumberedH1(s) {
      var b := DigitsEnd(s, 0);
      assert !IsDigit(s[b + 1]);
      assert AllGroupsEnd(s, 0) == Some(b);
    }
  }
}
