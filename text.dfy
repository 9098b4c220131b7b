/** Python's string primitives as the pipeline uses them: whitespace (str.isspace, the `\s`
    class of `re` on str patterns), str.strip(), str.split(), " ".join(...), re.sub(r"\s+", " ", ...),
    str.lower() and the `in` substring test. */
module Text {

  /** Python's str.isspace(): the characters str.split(), str.strip() and `\s` treat as whitespace. */
  predicate IsSpace(c: char) {
    var n := c as int;
    (9 <= n <= 13) || (28 <= n <= 32) || n == 0x85 || n == 0xA0 || n == 0x1680
    || (0x2000 <= n <= 0x200A) || n == 0x2028 || n == 0x2029 || n == 0x202F
    || n == 0x205F || n == 0x3000
  }

  /** The `\d` class, restricted to the ASCII digits. */
  predicate IsDigit(c: char) {
    '0' <= c <= '9'
  }

  predicate NoSpace(s: string) {
    forall i :: 0 <= i < |s| ==> !IsSpace(s[i])
  }

  predicate AllDigits(s: string) {
    forall i :: 0 <= i < |s| ==> IsDigit(s[i])
  }

  /** str.lstrip(): what is left of `s` after its leading whitespace (characterised by
      DropSpacesIsLstrip). */
  function DropSpaces(s: string): (r: string)
    ensures |r| <= |s|
    ensures r == [] || !IsSpace(r[0])
  {
    if s != [] && IsSpace(s[0]) then DropSpaces(s[1..]) else s
  }

  /** str.rstrip(): what is left of `s` after its trailing whitespace (characterised by
      DropTrailingSpacesIsRstrip). */
  function DropTrailingSpaces(s: string): (r: string)
    ensures |r| <= |s|
    ensures r == [] || !IsSpace(r[|r| - 1])
  {
    if s != [] && IsSpace(s[|s| - 1]) then DropTrailingSpaces(s[..|s| - 1]) else s
  }

  /** str.strip() */
  function Strip(s: string): string {
    DropTrailingSpaces(DropSpaces(s))
  }

  /** Length of the run of non-whitespace characters that starts `s`. */
  function WordLen(s: string): (k: nat)
    ensures k <= |s|
    ensures k == |s| || IsSpace(s[k])
  {
    if s != [] && !IsSpace(s[0]) then 1 + WordLen(s[1..]) else 0
  }

  /** str.split() with no separator: the maximal runs of non-whitespace characters, in order. */
  function Words(s: string): seq<string>
    decreases |s|
  {
    var t := DropSpaces(s);
    if t == [] then []
    else
      var k := WordLen(t);
      [t[..k]] + Words(t[k..])
  }

  /** sep.join(ws) */
  function Join(sep: string, ws: seq<string>): string {
    if ws == [] then []
    else if |ws| == 1 then ws[0]
    else ws[0] + sep + Join(sep, ws[1..])
  }

  /** re.sub(r"\s+", " ", s): every maximal run of whitespace becomes one space. */
  function Collapse(s: string): string
    decreases |s|
  {
    if s == [] then []
    else if IsSpace(s[0]) then [' '] + Collapse(DropSpaces(s[1..]))
    else [s[0]] + Collapse(s[1..])
  }

  /** The canonical form `" ".join(s.split())`: the words of `s` separated by single spaces. */
  function JoinWords(s: string): string {
    Join(" ", Words(s))
  }

  /** str.lower(), restricted to the ASCII letters. */
  function LowerChar(c: char): char {
    if 'A' <= c <= 'Z' then (c as int + 32) as char else c
  }

  function Lower(s: string): string {
    seq(|s|, i requires 0 <= i < |s| => LowerChar(s[i]))
  }

  /** Python's `needle in haystack` on strings. */
  predicate Contains(haystack: string, needle: string) {
    exists i :: 0 <= i <= |haystack| && OccursAt(haystack, needle, i)
  }

  /** `needle` occurs in `haystack` starting at index `i`. */
  predicate OccursAt(haystack: string, needle: string, i: nat) {
    i + |needle| <= |haystack| && haystack[i..i + |needle|] == needle
  }

  // ---------------------------------------------------------------------------------------------
  // Lemmas: the regex-and-strip normalisation equals the words joined by single spaces.

  /** DropSpaces removes exactly the leading whitespace: the result is a suffix of `s`, everything
      cut off is whitespace, and the result does not start with whitespace. */
  lemma {:induction false} DropSpacesIsLstrip(s: string)
    ensures var r := DropSpaces(s);
      r == s[|s| - |r|..] && forall i :: 0 <= i < |s| - |r| ==> IsSpace(s[i])
  {
    if s != [] && IsSpace(s[0]) {
      DropSpacesIsLstrip(s[1..]);
    }
  }

  /** DropTrailingSpaces removes exactly the trailing whitespace. */
  lemma {:induction false} DropTrailingSpacesIsRstrip(s: string)
    ensures var r := DropTrailingSpaces(s);
      r == s[..|r|] && forall i :: |r| <= i < |s| ==> IsSpace(s[i])
  {
    if s != [] && IsSpace(s[|s| - 1]) {
      DropTrailingSpacesIsRstrip(s[..|s| - 1]);
    }
  }

  /** str.strip() leaves no whitespace at either end. */
  lemma StripShape(s: string)
    ensures var r := Strip(s); r == [] || (!IsSpace(r[0]) && !IsSpace(r[|r| - 1]))
  {
    var t := DropSpaces(s);
    DropTrailingSpacesIsRstrip(t);
    var r := DropTrailingSpaces(t);
    if r != [] {
      assert r[0] == t[0];
    }
  }

  /** WordLen is the length of the maximal non-whitespace prefix. */
  lemma {:induction false} WordLenIsRun(s: string)
    ensures forall i :: 0 <= i < WordLen(s) ==> !IsSpace(s[i])
  {
    if s != [] && !IsSpace(s[0]) {
      WordLenIsRun(s[1..]);
    }
  }

  /** Every word str.split() returns is non-empty and free of whitespace. */
  lemma {:induction false} WordsWellFormed(s: string)
    ensures WellFormedWords(Words(s))
    decreases |s|
  {
    var t := DropSpaces(s);
    if t != [] {
      var k := WordLen(t);
      WordLenIsRun(t);
      WordsWellFormed(t[k..]);
      assert NoSpace(t[..k]);
    }
  }

  /** Collapse passes a run of non-whitespace characters through unchanged. */
  lemma {:induction false} CollapseKeepsWord(s: string, k: nat)
    requires k <= |s| && forall i :: 0 <= i < k ==> !IsSpace(s[i])
    ensures Collapse(s) == s[..k] + Collapse(s[k..])
    decreases k
  {
    if k > 0 {
      CollapseKeepsWord(s[1..], k - 1);
      assert s[1..][k - 1..] == s[k..];
      assert s[..k] == [s[0]] + s[1..][..k - 1];
    }
  }

  /** A string that starts with a non-whitespace character splits into its first word and the
      words of what follows it. */
  lemma {:induction false} WordsOfWordStart(s: string)
    requires s != [] && !IsSpace(s[0])
    ensures Words(s) == [s[..WordLen(s)]] + Words(s[WordLen(s)..])
  {
    assert DropSpaces(s) == s;
  }

  /** Leading whitespace does not change str.split(). */
  lemma {:induction false} WordsOfDropSpaces(s: string)
    ensures Words(DropSpaces(s)) == Words(s)
  {
    var t := DropSpaces(s);
    if t != [] {
      assert DropSpaces(t) == t;
    }
  }

  /** What follows the first word of a string that does not end in whitespace: a separator run,
      then a string with no leading or trailing whitespace that has the same words. */
  lemma AfterFirstWord(s: string, k: nat)
    requires k < |s| && !IsSpace(s[|s| - 1]) && IsSpace(s[k])
    ensures var t := DropSpaces(s[k + 1..]);
      t != [] && !IsSpace(t[0]) && !IsSpace(t[|t| - 1]) &&
      Collapse(s[k..]) == [' '] + Collapse(t) && Words(s[k..]) == Words(t)
  {
    var rest := s[k..];
    var t := DropSpaces(rest[1..]);
    DropSpacesIsLstrip(rest[1..]);
    assert DropSpaces(rest) == t;
    assert rest[|rest| - 1] == s[|s| - 1];
    assert !IsSpace(rest[1..][|rest| - 2]);
    assert t[|t| - 1] == s[|s| - 1];
    WordsOfDropSpaces(rest);
  }

  /** On a string with no leading or trailing whitespace, collapsing the whitespace runs gives
      the words joined by single spaces. */
  lemma {:induction false} CollapseIsJoinWords(s: string)
    requires s == [] || (!IsSpace(s[0]) && !IsSpace(s[|s| - 1]))
    ensures Collapse(s) == JoinWords(s)
    decreases |s|
  {
    if s != [] {
      var k := WordLen(s);
      WordLenIsRun(s);
      if k == |s| {
        CollapseKeepsWord(s, k);
        WordsOfWordStart(s);
        assert s[k..] == [];
      } else {
        var t := DropSpaces(s[k + 1..]);
        AfterFirstWord(s, k);
        calc {
          Collapse(s);
        == { CollapseKeepsWord(s, k); }
          s[..k] + Collapse(s[k..]);
        ==
          s[..k] + ([' '] + Collapse(t));
        == { CollapseIsJoinWords(t); }
          s[..k] + ([' '] + Join(" ", Words(t)));
        == { JoinCons(" ", s[..k], Words(t)); }
          Join(" ", [s[..k]] + Words(t));
        == { WordsOfWordStart(s); }
          Join(" ", Words(s));
        }
      }
    }
  }

  /** Joining a first part onto a non-empty list puts the separator between them. */
  lemma JoinCons(sep: string, w: string, ws: seq<string>)
    requires ws != []
    ensures w + (sep + Join(sep, ws)) == Join(sep, [w] + ws)
  {
    assert ([w] + ws)[1..] == ws;
  }

  /** With `c` a whitespace character, lstrip of `s + [c]` keeps `c` unless `s` is all whitespace. */
  lemma {:induction false} DropSpacesAppendSpace(s: string, c: char)
    requires IsSpace(c)
    ensures DropSpaces(s + [c]) == if DropSpaces(s) == [] then [] else DropSpaces(s) + [c]
  {
    if s != [] {
      assert (s + [c])[1..] == s[1..] + [c];
      if IsSpace(s[0]) {
        DropSpacesAppendSpace(s[1..], c);
      }
    }
  }

  lemma {:induction false} WordLenAppendSpace(s: string, c: char)
    requires IsSpace(c)
    ensures WordLen(s + [c]) == WordLen(s)
  {
    if s != [] {
      assert (s + [c])[1..] == s[1..] + [c];
      if !IsSpace(s[0]) {
        WordLenAppendSpace(s[1..], c);
      }
    }
  }

  /** Trailing whitespace does not change str.split(). */
  lemma {:induction false} WordsAppendSpace(s: string, c: char)
    requires IsSpace(c)
    ensures Words(s + [c]) == Words(s)
    decreases |s|
  {
    DropSpacesAppendSpace(s, c);
    var t := DropSpaces(s);
    if t != [] {
      var k := WordLen(t);
      WordLenAppendSpace(t, c);
      assert (t + [c])[..k] == t[..k];
      assert (t + [c])[k..] == t[k..] + [c];
      WordsAppendSpace(t[k..], c);
    }
  }

  lemma {:induction false} WordsDropTrailingSpaces(s: string)
    ensures Words(DropTrailingSpaces(s)) == Words(s)
    decreases |s|
  {
    if s != [] && IsSpace(s[|s| - 1]) {
      WordsDropTrailingSpaces(s[..|s| - 1]);
      assert s == s[..|s| - 1] + [s[|s| - 1]];
      WordsAppendSpace(s[..|s| - 1], s[|s| - 1]);
    }
  }

  /** str.strip() does not change str.split(). */
  lemma {:induction false} WordsOfStrip(s: string)
    ensures Words(Strip(s)) == Words(s)
  {
    WordsDropTrailingSpaces(DropSpaces(s));
    assert DropSpaces(DropSpaces(s)) == DropSpaces(s);
  }

  /** `re.sub(r"\s+", " ", s.strip())` is `" ".join(s.split())`. */
  lemma {:induction false} NormaliseIsJoinWords(s: string)
    ensures Collapse(Strip(s)) == JoinWords(s)
  {
    StripShape(s);
    CollapseIsJoinWords(Strip(s));
    WordsOfStrip(s);
  }

  // ---------------------------------------------------------------------------------------------
  // Lemmas: the shape of words joined by single spaces.

  predicate WellFormedWords(ws: seq<string>) {
    forall i :: 0 <= i < |ws| ==> ws[i] != [] && NoSpace(ws[i])
  }

  /** Words joined by single spaces: empty exactly when there are no words, no whitespace at either
      end, and every whitespace character is a single space between two non-whitespace ones. */
  lemma {:induction false} JoinShape(ws: seq<string>)
    requires WellFormedWords(ws)
    ensures var r := Join(" ", ws);
      (r == [] <==> ws == []) &&
      (r != [] ==> !IsSpace(r[0]) && !IsSpace(r[|r| - 1])) &&
      forall i :: 0 <= i < |r| && IsSpace(r[i]) ==>
        r[i] == ' ' && 0 < i < |r| - 1 && !IsSpace(r[i - 1]) && !IsSpace(r[i + 1])
  {
    if |ws| > 1 {
      JoinShape(ws[1..]);
      var w, rest := ws[0], Join(" ", ws[1..]);
      var r := w + " " + rest;
      assert Join(" ", ws) == r;
      forall i | 0 <= i < |r| && IsSpace(r[i])
        ensures r[i] == ' ' && 0 < i < |r| - 1 && !IsSpace(r[i - 1]) && !IsSpace(r[i + 1])
      {
        if i > |w| {
          assert r[i] == rest[i - |w| - 1];
          if i - 1 > |w| {
            assert r[i - 1] == rest[i - 1 - |w| - 1];
          }
        }
      }
    } else if |ws| == 1 {
      assert Join(" ", ws) == ws[0];
    }
  }

  lemma {:induction false} WordLenOfWordThenSpace(w: string, rest: string)
    requires NoSpace(w) && rest != [] && IsSpace(rest[0])
    ensures WordLen(w + rest) == |w|
    decreases |w|
  {
    if w != [] {
      assert (w + rest)[1..] == w[1..] + rest;
      WordLenOfWordThenSpace(w[1..], rest);
    } else {
      assert w + rest == rest;
    }
  }

  lemma {:induction false} WordsOfWord(w: string)
    requires w != [] && NoSpace(w)
    ensures Words(w) == [w]
  {
    assert WordLen(w) == |w|;
    WordsOfWordStart(w);
    assert w[..|w|] == w;
    assert w[|w|..] == [];
    assert Words([]) == [];
  }

  /** A word, one space and a string that starts with a non-whitespace character split into
      that word followed by the words of the string. */
  lemma WordsOfWordSpaceRest(w: string, rest: string)
    requires w != [] && NoSpace(w) && rest != [] && !IsSpace(rest[0])
    ensures Words(w + " " + rest) == [w] + Words(rest)
  {
    var r := w + " " + rest;
    var tail := r[|w|..];
    assert tail == " " + rest;
    assert r[0] == w[0];
    WordLenOfWordThenSpace(w, tail);
    assert r == w + tail;
    WordsOfWordStart(r);
    assert r[..|w|] == w;
    assert DropSpaces(tail) == rest;
    WordsOfDropSpaces(tail);
  }

  /** Splitting words joined by single spaces gives the words back. */
  lemma {:induction false} WordsOfJoin(ws: seq<string>)
    requires WellFormedWords(ws)
    ensures Words(Join(" ", ws)) == ws
  {
    if |ws| == 1 {
      WordsOfWord(ws[0]);
    } else if |ws| > 1 {
      var rest := Join(" ", ws[1..]);
      JoinShape(ws[1..]);
      WordsOfJoin(ws[1..]);
      WordsOfWordSpaceRest(ws[0], rest);
      assert ws == [ws[0]] + ws[1..];
    }
  }

  /** Normalising whitespace twice is the same as normalising it once. */
  lemma {:induction false} JoinWordsIdempotent(s: string)
    ensures JoinWords(JoinWords(s)) == JoinWords(s)
  {
    WordsWellFormed(s);
    WordsOfJoin(Words(s));
  }

  // ---------------------------------------------------------------------------------------------
  // Lemmas: lower-casing does not move whitespace.

  /** Lower-casing maps whitespace to whitespace and nothing else to whitespace. */
  lemma LowerCharIsSpace(c: char)
    ensures IsSpace(LowerChar(c)) == IsSpace(c)
  {
  }

  lemma LowerTail(s: string)
    requires s != []
    ensures Lower(s)[0] == LowerChar(s[0]) && Lower(s)[1..] == Lower(s[1..])
  {
  }

  lemma {:induction false} LowerDropSpaces(s: string)
    ensures DropSpaces(Lower(s)) == Lower(DropSpaces(s))
    decreases |s|
  {
    if s != [] {
      LowerTail(s);
      LowerCharIsSpace(s[0]);
      if IsSpace(s[0]) {
        LowerDropSpaces(s[1..]);
      }
    }
  }

  lemma {:induction false} LowerWordLen(s: string)
    ensures WordLen(Lower(s)) == WordLen(s)
  {
    if s != [] {
      LowerTail(s);
      LowerCharIsSpace(s[0]);
      LowerWordLen(s[1..]);
    }
  }

  /** Lower-casing keeps the number of words. */
  lemma {:induction false} WordCountOfLower(s: string)
    ensures |Words(Lower(s))| == |Words(s)|
    decreases |s|
  {
    LowerDropSpaces(s);
    var t := DropSpaces(s);
    if t != [] {
      var k := WordLen(t);
      LowerWordLen(t);
      assert Lower(t)[k..] == Lower(t[k..]);
      WordCountOfLower(t[k..]);
    }
  }

  /** A lower-cased string that equals a single word has exactly one word. */
  lemma {:induction false} SingleWordLower(s: string, w: string)
    requires w != [] && NoSpace(w) && Lower(s) == w
    ensures |Words(s)| == 1
  {
    WordsOfWord(w);
    WordCountOfLower(s);
  }

  // ---------------------------------------------------------------------------------------------
  // Lemmas: when stripping leaves something.

  /** A string with words has a non-whitespace character. */
  lemma WordsHaveNonSpace(s: string)
    requires Words(s) != []
    ensures exists i :: 0 <= i < |s| && !IsSpace(s[i])
  {
    DropSpacesIsLstrip(s);
    var r := DropSpaces(s);
    assert s[|s| - |r|] == r[0];
  }

  /** str.strip() leaves something exactly when some character is not whitespace. */
  lemma StripNonEmpty(s: string, i: nat)
    requires i < |s| && !IsSpace(s[i])
    ensures Strip(s) != []
  {
    DropSpacesIsLstrip(s);
    var t := DropSpaces(s);
    DropTrailingSpacesIsRstrip(t);
    assert t[i - (|s| - |t|)] == s[i];
  }

  /** A join starts with its first part. */
  lemma JoinHead(sep: string, ws: seq<string>)
    requires ws != []
    ensures |ws[0]| <= |Join(sep, ws)| && Join(sep, ws)[..|ws[0]|] == ws[0]
  {
  }
}
