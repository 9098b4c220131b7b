/** The section-text scan: `extract_text_under_heading` in project/run_pipeline.py. A page is the
    list of its block texts in reading order (`block[4]` of `page.get_text("blocks")`); a document
    is its pages, or None when it cannot be opened. */
module SectionText {
  import opened Wrappers
  import opened Text
  import opened Numbering

  type PageBlocks = seq<string>

  /** A test on a stripped block text. The scan is defined for any pair of tests (one that starts
      the collection, one that stops it); extract_text_under_heading uses `HeadingTest(heading)`
      and `EndsSection`. */
  type BlockTest = string -> bool

  /** `heading.lower() in text.lower()`, for a stripped block text. */
  predicate HeadingIn(text: string, heading: string) {
    Contains(Lower(text), Lower(heading))
  }

  function HeadingTest(heading: string): BlockTest {
    t => HeadingIn(t, heading)
  }

  /** A stripped block text that stops the collection: fewer than 3 words, or it starts with a
      section number (`^\d+(\.\d+)*\s`). */
  predicate EndsSection(text: string) {
    |Words(text)| < 3 || StartsWithNumbering(text)
  }

  /** The index of the first block whose stripped text passes `start`. */
  function FirstMatch(blocks: PageBlocks, start: BlockTest): (r: Option<nat>)
    ensures r.Some? ==> r.value < |blocks| && start(Strip(blocks[r.value]))
    ensures forall m :: 0 <= m < |blocks| && (r.None? || m < r.value) ==> !start(Strip(blocks[m]))
  {
    if blocks == [] then None
    else if start(Strip(blocks[0])) then Some(0)
    else
      var r := FirstMatch(blocks[1..], start);
      assert forall m :: 1 <= m < |blocks| ==> blocks[m] == blocks[1..][m - 1];
      if r.None? then None else Some(r.value + 1)
  }

  /** The end of the run of blocks from `from` whose stripped texts do not pass `stop`. */
  function RunEnd(blocks: PageBlocks, from: nat, stop: BlockTest): (e: nat)
    requires from <= |blocks|
    ensures from <= e <= |blocks|
    ensures e < |blocks| ==> stop(Strip(blocks[e]))
    ensures forall m :: from <= m < e ==> !stop(Strip(blocks[m]))
    decreases |blocks| - from
  {
    if from == |blocks| || stop(Strip(blocks[from])) then from else RunEnd(blocks, from + 1, stop)
  }

  function StripAll(blocks: seq<string>): (r: seq<string>)
    ensures |r| == |blocks| && forall i :: 0 <= i < |blocks| ==> r[i] == Strip(blocks[i])
  {
    seq(|blocks|, i requires 0 <= i < |blocks| => Strip(blocks[i]))
  }

  lemma StripAllSnoc(blocks: seq<string>, a: nat, i: nat)
    requires a <= i < |blocks|
    ensures StripAll(blocks[a..i + 1]) == StripAll(blocks[a..i]) + [Strip(blocks[i])]
  {
    assert blocks[a..i + 1] == blocks[a..i] + [blocks[i]];
  }

  /** A run of collected blocks, stripped and joined by spaces (`" ".join(content).strip()`). */
  function Collected(run: seq<string>): string {
    Strip(Join(" ", StripAll(run)))
  }

  /** The blocks after the first block passing `start`, up to the first block passing `stop`,
      collected; "" when no block passes `start`. */
  function ScanText(blocks: PageBlocks, start: BlockTest, stop: BlockTest): string {
    match FirstMatch(blocks, start)
    case None => []
    case Some(k) => Collected(blocks[k + 1..RunEnd(blocks, k + 1, stop)])
  }

  /** The text under a heading on one page. */
  function SectionText(blocks: PageBlocks, heading: string): string {
    ScanText(blocks, HeadingTest(heading), EndsSection)
  }

  /** extract_text_under_heading on a document: "" when the document cannot be opened or the
      page does not exist. */
  function TextUnderHeading(doc: Option<seq<PageBlocks>>, heading: string, pageNumber: int): string {
    if doc.None? || !(1 <= pageNumber <= |doc.value|) then []
    else SectionText(doc.value[pageNumber - 1], heading)
  }

  /** extract_text_under_heading: open the page, then scan its blocks for the heading. */
  method ExtractTextUnderHeading(doc: Option<seq<PageBlocks>>, heading: string, pageNumber: int)
    returns (r: string)
    ensures r == TextUnderHeading(doc, heading, pageNumber)
  {
    if doc.None? || !(1 <= pageNumber <= |doc.value|) {
      return [];
    }
    r := ScanBlocks(doc.value[pageNumber - 1], HeadingTest(heading), EndsSection);
  }

  /** The loop of extract_text_under_heading: skip blocks until one passes `start`, then collect
      the following stripped blocks until one passes `stop`, and join them. */
  method ScanBlocks(blocks: PageBlocks, start: BlockTest, stop: BlockTest) returns (r: string)
    ensures r == ScanText(blocks, start, stop)
  {
    var found := false;
    var content: seq<string> := [];
    ghost var k: nat := 0;
    var i := 0;
    while i < |blocks|
      invariant 0 <= i <= |blocks|
      invariant !found ==> content == [] && forall m :: 0 <= m < i ==> !start(Strip(blocks[m]))
      invariant found ==> k < i && start(Strip(blocks[k]))
      invariant found ==> forall m :: 0 <= m < k ==> !start(Strip(blocks[m]))
      invariant found ==> content == StripAll(blocks[k + 1..i])
      invariant found ==> i <= RunEnd(blocks, k + 1, stop)
    {
      var blockText := Strip(blocks[i]);
      if !found {
        if start(blockText) {
          found := true;
          k := i;
          assert StripAll(blocks[k + 1..i + 1]) == [];
        }
      } else {
        if stop(blockText) {
          break;
        }
        StripAllSnoc(blocks, k + 1, i);
        RunContinues(blocks, k + 1, i, stop);
        content := content + [blockText];
      }
      i := i + 1;
    }
    if found {
      FirstMatchIs(blocks, start, k);
      ScanFound(blocks, start, stop, k, i);
    } else {
      NoStartNoText(blocks, start, stop);
    }
    r := Strip(Join(" ", content));
  }

  // ---------------------------------------------------------------------------------------------
  // The scan, for any pair of tests.

  lemma FirstMatchIs(blocks: PageBlocks, start: BlockTest, k: nat)
    requires k < |blocks| && start(Strip(blocks[k]))
    requires forall m :: 0 <= m < k ==> !start(Strip(blocks[m]))
    ensures FirstMatch(blocks, start) == Some(k)
  {
  }

  lemma RunContinues(blocks: PageBlocks, from: nat, i: nat, stop: BlockTest)
    requires from <= i < |blocks| && i <= RunEnd(blocks, from, stop) && !stop(Strip(blocks[i]))
    ensures i + 1 <= RunEnd(blocks, from, stop)
  {
  }

  /** A block at or before the run's end that passes `stop` (or the page's end) is the run's
      end. */
  lemma RunEndAt(blocks: PageBlocks, from: nat, e: nat, stop: BlockTest)
    requires from <= e <= |blocks| && e <= RunEnd(blocks, from, stop)
    requires e == |blocks| || stop(Strip(blocks[e]))
    ensures RunEnd(blocks, from, stop) == e
  {
  }

  lemma ScanFound(blocks: PageBlocks, start: BlockTest, stop: BlockTest, k: nat, e: nat)
    requires FirstMatch(blocks, start) == Some(k) && k + 1 <= e <= RunEnd(blocks, k + 1, stop)
    requires e == |blocks| || stop(Strip(blocks[e]))
    ensures ScanText(blocks, start, stop) == Collected(blocks[k + 1..e])
  {
    RunEndAt(blocks, k + 1, e, stop);
  }

  lemma NoStartNoText(blocks: PageBlocks, start: BlockTest, stop: BlockTest)
    requires forall m :: 0 <= m < |blocks| ==> !start(Strip(blocks[m]))
    ensures ScanText(blocks, start, stop) == []
  {
    assert FirstMatch(blocks, start).None?;
  }

  /** The run after block `k` gives an empty text exactly when it is empty, provided every block
      that does not stop the run has a word. */
  lemma RunTextEmptyExactly(blocks: PageBlocks, k: nat, stop: BlockTest)
    requires k < |blocks|
    requires k + 1 < |blocks| && !stop(Strip(blocks[k + 1])) ==> Words(Strip(blocks[k + 1])) != []
    ensures Collected(blocks[k + 1..RunEnd(blocks, k + 1, stop)]) == [] <==>
      k + 1 == |blocks| || stop(Strip(blocks[k + 1]))
  {
    if k + 1 < |blocks| && !stop(Strip(blocks[k + 1])) {
      var parts := StripAll(blocks[k + 1..RunEnd(blocks, k + 1, stop)]);
      var first := Strip(blocks[k + 1]);
      assert parts[0] == first;
      WordsHaveNonSpace(first);
      var i :| 0 <= i < |first| && !IsSpace(first[i]);
      JoinHead(" ", parts);
      assert Join(" ", parts)[i] == first[i];
      StripNonEmpty(Join(" ", parts), i);
    } else {
      assert RunEnd(blocks, k + 1, stop) == k + 1;
      assert StripAll(blocks[k + 1..k + 1]) == [];
    }
  }

  // ---------------------------------------------------------------------------------------------
  // Lemmas about the text under a heading.

  /** The result, stated without the scanning functions: with `k` the first block containing the
      heading and `e` the first block after it that stops the collection (or the page's end), the
      stripped blocks strictly between them, joined by spaces. */
  lemma SectionTextIsRun(blocks: PageBlocks, heading: string, k: nat, e: nat)
    requires k < e <= |blocks|
    requires HeadingIn(Strip(blocks[k]), heading) && forall m :: 0 <= m < k ==> !HeadingIn(Strip(blocks[m]), heading)
    requires (e == |blocks| || EndsSection(Strip(blocks[e]))) && forall m :: k < m < e ==> !EndsSection(Strip(blocks[m]))
    ensures SectionText(blocks, heading) == Strip(Join(" ", StripAll(blocks[k + 1..e])))
  {
    var start := HeadingTest(heading);
    forall m | 0 <= m < k
      ensures !start(Strip(blocks[m]))
    {
    }
    FirstMatchIs(blocks, start, k);
    RunReaches(blocks, k + 1, e, EndsSection);
    ScanFound(blocks, start, EndsSection, k, e);
  }

  /** A run of blocks that do not pass `stop` lies within the run from its first block. */
  lemma RunReaches(blocks: PageBlocks, from: nat, e: nat, stop: BlockTest)
    requires from <= e <= |blocks|
    requires forall m :: from <= m < e ==> !stop(Strip(blocks[m]))
    ensures e <= RunEnd(blocks, from, stop)
  {
  }

  /** No block containing the heading means no text. */
  lemma NoHeadingNoText(blocks: PageBlocks, heading: string)
    requires forall m :: 0 <= m < |blocks| ==> !HeadingIn(Strip(blocks[m]), heading)
    ensures SectionText(blocks, heading) == []
  {
    var start := HeadingTest(heading);
    forall m | 0 <= m < |blocks|
      ensures !start(Strip(blocks[m]))
    {
    }
    NoStartNoText(blocks, start, EndsSection);
  }

  /** The text is empty exactly when the document or page is missing, no block contains the
      heading, or the block right after the first match is missing or stops the collection. */
  lemma TextEmptyExactly(doc: Option<seq<PageBlocks>>, heading: string, pageNumber: int)
    ensures TextUnderHeading(doc, heading, pageNumber) == [] <==>
      doc.None? || !(1 <= pageNumber <= |doc.value|) ||
      var blocks := doc.value[pageNumber - 1];
      var k := FirstMatch(blocks, HeadingTest(heading));
      k.None? || k.value + 1 == |blocks| || EndsSection(Strip(blocks[k.value + 1]))
  {
    if doc.Some? && 1 <= pageNumber <= |doc.value| {
      SectionTextEmptyExactly(doc.value[pageNumber - 1], heading);
    }
  }

  /** On one page: the text is empty exactly when no block contains the heading, or the block
      right after the first match is missing or stops the collection. */
  lemma SectionTextEmptyExactly(blocks: PageBlocks, heading: string)
    ensures SectionText(blocks, heading) == [] <==>
      var k := FirstMatch(blocks, HeadingTest(heading));
      k.None? || k.value + 1 == |blocks| || EndsSection(Strip(blocks[k.value + 1]))
  {
    var k := FirstMatch(blocks, HeadingTest(heading));
    if k.Some? {
      RunTextEmptyExactly(blocks, k.value, EndsSection);
    }
  }
}
