/** Line normalisation and heading classification: `get_line_text` and `classify_heading` in
    project/run_pipeline.py. A layout line is the list of styled spans PyMuPDF reports for it. */
module Headings {
  import opened Wrappers
  import opened Text
  import opened Numbering

  /** One span of a layout line: its text, its font size and its style flag bits. */
  datatype Span = Span(text: string, size: real, flags: int)

  type Line = seq<Span>

  datatype Level = H1 | H2 | H3

  /** `t.lower() == w`, character by character. */
  predicate LowerEquals(t: string, w: string) {
    if t == [] then w == [] else w != [] && LowerChar(t[0]) == w[0] && LowerEquals(t[1..], w[1..])
  }

  /** A text whose lower-case form is one of the heading stopwords. */
  predicate IsStopword(t: string) {
    LowerEquals(t, "overview") || LowerEquals(t, "acknowledgements") ||
    LowerEquals(t, "introduction") || LowerEquals(t, "conclusion")
  }

  /** Font-size thresholds (points): a heading must be strictly larger. */
  const H1MinSize: real := 18.0
  const H2MinSize: real := 14.0
  const H3MinSize: real := 11.0

  /** The flag value the classifier tests as "bold". */
  const BoldFlag: nat := 2

  function SpanTexts(line: Line): (ts: seq<string>)
    ensures |ts| == |line| && forall i :: 0 <= i < |line| ==> ts[i] == line[i].text
  {
    seq(|line|, i requires 0 <= i < |line| => line[i].text)
  }

  /** get_line_text: the span texts joined by spaces, stripped, whitespace runs collapsed. */
  function LineText(line: Line): string {
    Collapse(Strip(Join(" ", SpanTexts(line))))
  }

  /** The largest span font size, 0 for a line without spans (`max(sizes, default=0)`). */
  function MaxSize(line: Line): (m: real)
    ensures line == [] ==> m == 0.0
    ensures forall i :: 0 <= i < |line| ==> line[i].size <= m
    ensures line != [] ==> exists i :: 0 <= i < |line| && line[i].size == m
  {
    if line == [] then 0.0
    else if |line| == 1 then line[0].size
    else
      var rest := MaxSize(line[1..]);
      if line[0].size >= rest then line[0].size else rest
  }

  /** `flags & bit != 0` for a power of two `bit`, on Python's unbounded two's-complement integers:
      floor division by a positive number is Dafny's Euclidean division. */
  predicate HasFlag(flags: int, bit: nat)
    requires bit > 0
  {
    (flags / bit) % 2 == 1
  }

  predicate HasBoldSpan(line: Line) {
    exists i :: 0 <= i < |line| && HasFlag(line[i].flags, BoldFlag)
  }

  /** The font-size fallback of classify_heading. */
  function FontLevel(line: Line): Option<Level> {
    var m := MaxSize(line);
    if m > H1MinSize && HasBoldSpan(line) then Some(H1)
    else if m > H2MinSize then Some(H2)
    else if m > H3MinSize then Some(H3)
    else None
  }

  /** classify_heading: stoplist, then numbering prefixes, then font size and weight. */
  function Classify(line: Line): Option<Level> {
    var text := LineText(line);
    if text == [] || IsStopword(text) then None
    else if NumberedWith(text, 3) then Some(H3)
    else if NumberedWith(text, 2) then Some(H2)
    else if NumberedH1(text) then Some(H1)
    else FontLevel(line)
  }

  // ---------------------------------------------------------------------------------------------
  // Lemmas: normalised line text.

  /** get_line_text is `" ".join(joined.split())` of the joined span texts. */
  lemma LineTextIsJoinedWords(line: Line)
    ensures LineText(line) == JoinWords(Join(" ", SpanTexts(line)))
  {
    NormaliseIsJoinWords(Join(" ", SpanTexts(line)));
  }

  /** The normalised text keeps the words of the spans, has no whitespace at either end, uses
      only single spaces between words, and is empty for a line without spans. */
  lemma LineTextShape(line: Line)
    ensures var r := LineText(line);
      (line == [] ==> r == []) &&
      Words(r) == Words(Join(" ", SpanTexts(line))) &&
      (r != [] ==> !IsSpace(r[0]) && !IsSpace(r[|r| - 1])) &&
      (forall i :: 0 <= i < |r| - 1 ==> !(IsSpace(r[i]) && IsSpace(r[i + 1]))) &&
      (forall i :: 0 <= i < |r| && IsSpace(r[i]) ==> r[i] == ' ')
  {
    var joined := Join(" ", SpanTexts(line));
    LineTextIsJoinedWords(line);
    WordsWellFormed(joined);
    JoinShape(Words(joined));
    WordsOfJoin(Words(joined));
    var r := LineText(line);
    forall i | 0 <= i < |r| - 1
      ensures !(IsSpace(r[i]) && IsSpace(r[i + 1]))
    {
    }
  }

  /** Normalising an already normalised text changes nothing. */
  lemma LineTextIdempotent(line: Line, size: real, flags: int)
    ensures LineText([Span(LineText(line), size, flags)]) == LineText(line)
  {
    var t := LineText(line);
    assert SpanTexts([Span(t, size, flags)]) == [t];
    LineTextIsJoinedWords(line);
    LineTextIsJoinedWords([Span(t, size, flags)]);
    JoinWordsIdempotent(Join(" ", SpanTexts(line)));
  }

  // ---------------------------------------------------------------------------------------------
  // Lemmas: what classify_heading decides.

  /** A text matching a numbering pattern is never on the stoplist (stopwords start with a
      letter), so numbering decides the level whatever the spans' sizes and flags. */
  lemma NumberingBeatsFonts(line: Line)
    ensures RegexNumbered(LineText(line), 3) ==> Classify(line) == Some(H3)
    ensures RegexNumbered(LineText(line), 2) ==> Classify(line) == Some(H2)
    ensures RegexNumberedH1(LineText(line)) ==> Classify(line) == Some(H1)
  {
    var t := LineText(line);
    NumberedIsRegex(t, 3);
    NumberedIsRegex(t, 2);
    NumberedH1IsRegex(t);
    NumberingPatternsExclusive(t);
    if GroupsEnd(t, 0, 1).Some? {
      NotStopword(t);
    }
  }

  /** A text that starts with a digit is not on the stoplist. */
  lemma NotStopword(t: string)
    requires GroupsEnd(t, 0, 1).Some?
    ensures t != [] && !IsStopword(t)
  {
    assert IsDigit(t[0]);
    assert LowerChar(t[0]) == t[0];
  }

  /** Without a numbering prefix, the fonts decide: H1 exactly for a size above 18 with some
      span flagged, else H2 above 14, else H3 above 11, else no heading. */
  lemma FontFallback(line: Line)
    requires var t := LineText(line);
      t != [] && !IsStopword(t) &&
      !RegexNumbered(t, 3) && !RegexNumbered(t, 2) && !RegexNumberedH1(t)
    ensures Classify(line) == Some(H1) <==> MaxSize(line) > 18.0 && HasBoldSpan(line)
    ensures Classify(line) == Some(H2) <==> !(MaxSize(line) > 18.0 && HasBoldSpan(line)) && MaxSize(line) > 14.0
    ensures Classify(line) == Some(H3) <==> 11.0 < MaxSize(line) <= 14.0
    ensures Classify(line) == None <==> MaxSize(line) <= 11.0
  {
    var t := LineText(line);
    NumberedIsRegex(t, 3);
    NumberedIsRegex(t, 2);
    NumberedH1IsRegex(t);
  }

  lemma {:induction false} LowerEqualsIsLower(t: string, w: string)
    ensures LowerEquals(t, w) <==> Lower(t) == w
  {
    if t != [] && w != [] {
      LowerEqualsIsLower(t[1..], w[1..]);
      LowerTail(t);
      if LowerChar(t[0]) == w[0] && Lower(t[1..]) == w[1..] {
        assert Lower(t) == [w[0]] + w[1..];
      }
    }
  }

  /** The stoplist test is `t.lower() in {"overview", "acknowledgements", "introduction", "conclusion"}`. */
  lemma StopwordIsLowerMember(t: string)
    ensures IsStopword(t) <==> Lower(t) in {"overview", "acknowledgements", "introduction", "conclusion"}
  {
    LowerEqualsIsLower(t, "overview");
    LowerEqualsIsLower(t, "acknowledgements");
    LowerEqualsIsLower(t, "introduction");
    LowerEqualsIsLower(t, "conclusion");
  }

  /** A line without spans is never a heading. */
  lemma EmptyLineIsNoHeading()
    ensures Classify([]) == None
  {
    LineTextShape([]);
  }

  /** A text equal, lower-cased, to a word of lower-case letters is that one word. */
  lemma LowerEqualsWord(t: string, w: string)
    requires w != [] && (forall i :: 0 <= i < |w| ==> 'a' <= w[i] <= 'z') && LowerEquals(t, w)
    ensures |Words(t)| == 1
  {
    LowerEqualsIsLower(t, w);
    SingleWordLower(t, w);
  }

  /** Every stopword is a single word, so a stoplisted text never has more than one word. */
  lemma StopwordIsOneWord(t: string)
    requires IsStopword(t)
    ensures |Words(t)| == 1
  {
    if LowerEquals(t, "overview") {
      LowerEqualsWord(t, "overview");
    } else if LowerEquals(t, "acknowledgements") {
      LowerEqualsWord(t, "acknowledgements");
    } else if LowerEquals(t, "introduction") {
      LowerEqualsWord(t, "introduction");
    } else {
      LowerEqualsWord(t, "conclusion");
    }
  }
}
