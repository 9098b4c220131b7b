/** Outline extraction: `extract_outline` in project/run_pipeline.py. The PDF is given as what
    PyMuPDF's `page.get_text("dict")` yields: pages, each a list of blocks, each a list of lines. */
module Outline {
  import opened Wrappers
  import opened Text
  import opened Headings

  type Block = seq<Line>
  type Page = seq<Block>

  /** One outline item: heading level, normalised text, 1-based page number. */
  datatype Entry = Entry(level: Level, text: string, page: int)

  datatype DocOutline = DocOutline(title: string, outline: seq<Entry>)

  // ---------------------------------------------------------------------------------------------
  // Specification: the qualifying lines in document order, then first occurrences only.

  /** A line is kept when it is classified as a heading and its text has more than one word. */
  predicate Qualifies(line: Line) {
    Classify(line).Some? && |Words(LineText(line))| > 1
  }

  /** The entry a line contributes on page `page`, if it qualifies. */
  function LineEntry(line: Line, page: int): seq<Entry> {
    if Qualifies(line) then [Entry(Classify(line).value, LineText(line), page)] else []
  }

  /** How one line, on a given page, turns into zero or more candidate entries. */
  type LineRule = (Line, int) -> seq<Entry>

  function LineCandidates(lines: seq<Line>, page: int, rule: LineRule): seq<Entry> {
    if lines == [] then []
    else LineCandidates(lines[..|lines| - 1], page, rule) + rule(lines[|lines| - 1], page)
  }

  function BlockCandidates(blocks: seq<Block>, page: int, rule: LineRule): seq<Entry> {
    if blocks == [] then []
    else BlockCandidates(blocks[..|blocks| - 1], page, rule) + LineCandidates(blocks[|blocks| - 1], page, rule)
  }

  /** The entries of every line of the document under `rule`, in document order, pages numbered
      from 1; `Candidates(pages, LineEntry)` are the qualifying lines. */
  function Candidates(pages: seq<Page>, rule: LineRule): seq<Entry> {
    if pages == [] then []
    else Candidates(pages[..|pages| - 1], rule) + BlockCandidates(pages[|pages| - 1], |pages|, rule)
  }

  /** The outline list and the `seen` set after a left-to-right pass over candidate entries. */
  datatype Scan = Scan(outline: seq<Entry>, seen: set<string>)

  /** Keep each candidate whose text was not kept before. */
  function Dedup(es: seq<Entry>): Scan {
    if es == [] then Scan([], {})
    else
      var prev := Dedup(es[..|es| - 1]);
      var e := es[|es| - 1];
      if e.text in prev.seen then prev else Scan(prev.outline + [e], prev.seen + {e.text})
  }

  /** The text of the first H1 entry, if any (`next(... if item["level"] == "H1")`). */
  function FirstH1(outline: seq<Entry>): (r: Option<string>)
    ensures r.None? <==> forall j :: 0 <= j < |outline| ==> outline[j].level != H1
    ensures r.Some? ==> exists j :: (0 <= j < |outline| && outline[j].level == H1
      && outline[j].text == r.value && forall m :: 0 <= m < j ==> outline[m].level != H1)
  {
    if outline == [] then None
    else if outline[0].level == H1 then Some(outline[0].text)
    else
      var r := FirstH1(outline[1..]);
      assert r.Some? ==> exists j :: (1 <= j < |outline| && outline[j].level == H1
        && outline[j].text == r.value && forall m :: 1 <= m < j ==> outline[m].level != H1) by {
        if r.Some? {
          var j :| 0 <= j < |outline[1..]| && outline[1..][j].level == H1
            && outline[1..][j].text == r.value && forall m :: 0 <= m < j ==> outline[1..][m].level != H1;
          assert forall m :: 1 <= m < j + 1 ==> outline[m].level != H1 by {
            forall m | 1 <= m < j + 1 ensures outline[m].level != H1 {
              assert outline[m] == outline[1..][m - 1];
            }
          }
        }
      }
      r
  }

  /** `first_h1 or title`: the first H1 text unless it is missing or empty, else the stem. */
  function Title(outline: seq<Entry>, stem: string): string {
    var first := FirstH1(outline);
    if first.Some? && first.value != [] then first.value else stem
  }

  /** What extract_outline returns for a document with the given pages and file-name stem. */
  function OutlineOf(pages: seq<Page>, stem: string): DocOutline {
    var outline := Dedup(Candidates(pages, LineEntry)).outline;
    DocOutline(Title(outline, stem), outline)
  }

  // ---------------------------------------------------------------------------------------------
  // The extraction loop.

  lemma DedupSnoc(es: seq<Entry>, e: Entry)
    ensures Dedup(es + [e]) ==
      if e.text in Dedup(es).seen then Dedup(es)
      else Scan(Dedup(es).outline + [e], Dedup(es).seen + {e.text})
  {
    assert (es + [e])[..|es|] == es;
  }

  lemma LineCandidatesStep(lines: seq<Line>, l: nat, page: int, rule: LineRule)
    requires l < |lines|
    ensures LineCandidates(lines[..l + 1], page, rule) == LineCandidates(lines[..l], page, rule) + rule(lines[l], page)
  {
    assert lines[..l + 1][..l] == lines[..l];
  }

  lemma BlockCandidatesStep(blocks: seq<Block>, b: nat, page: int, rule: LineRule)
    requires b < |blocks|
    ensures BlockCandidates(blocks[..b + 1], page, rule) == BlockCandidates(blocks[..b], page, rule) + LineCandidates(blocks[b], page, rule)
  {
    assert blocks[..b + 1][..b] == blocks[..b];
  }

  lemma CandidatesStep(pages: seq<Page>, i: nat, rule: LineRule)
    requires i < |pages|
    ensures Candidates(pages[..i + 1], rule) == Candidates(pages[..i], rule) + BlockCandidates(pages[i], i + 1, rule)
  {
    assert pages[..i + 1][..i] == pages[..i];
  }

  /** What one iteration of the innermost loop does to the outline and the seen set. */
  function ScanStep(prev: Scan, level: Option<Level>, text: string, page: int): Scan {
    if level.Some? && text !in prev.seen && |Words(text)| > 1
    then Scan(prev.outline + [Entry(level.value, text, page)], prev.seen + {text})
    else prev
  }

  /** Scanning one more line: the pass keeps it exactly when it qualifies and its text is new. */
  lemma ScanLine(prefix: seq<Entry>, line: Line, page: int)
    ensures Dedup(prefix + LineEntry(line, page)) == ScanStep(Dedup(prefix), Classify(line), LineText(line), page)
  {
    if Qualifies(line) {
      DedupSnoc(prefix, Entry(Classify(line).value, LineText(line), page));
    } else {
      assert prefix + LineEntry(line, page) == prefix;
    }
  }

  lemma AppendAssoc(x: seq<Entry>, y: seq<Entry>, z: seq<Entry>)
    ensures (x + y) + z == x + (y + z)
  {
  }

  /** extract_outline: walk every line of every block of every page, keep the classified lines
      of more than one word whose text was not kept before, then pick the title. */
  method ExtractOutline(pages: seq<Page>, stem: string) returns (d: DocOutline)
    ensures d == OutlineOf(pages, stem)
  {
    var outline: seq<Entry> := [];
    var seen: set<string> := {};
    ghost var cands: seq<Entry> := [];
    var i := 0;
    while i < |pages|
      invariant 0 <= i <= |pages|
      invariant cands == Candidates(pages[..i], LineEntry)
      invariant Scan(outline, seen) == Dedup(cands)
    {
      var blocks := pages[i];
      ghost var before := cands;
      var b := 0;
      assert before + BlockCandidates(blocks[..0], i + 1, LineEntry) == before;
      while b < |blocks|
        invariant 0 <= b <= |blocks|
        invariant cands == before + BlockCandidates(blocks[..b], i + 1, LineEntry)
        invariant Scan(outline, seen) == Dedup(cands)
      {
        var lines := blocks[b];
        ghost var upTo := cands;
        var l := 0;
        assert lines[..0] == [];
        assert LineCandidates(lines[..0], i + 1, LineEntry) == [];
        assert cands == upTo + LineCandidates(lines[..0], i + 1, LineEntry);
        while l < |lines|
          invariant 0 <= l <= |lines|
          invariant cands == upTo + LineCandidates(lines[..l], i + 1, LineEntry)
          invariant Scan(outline, seen) == Dedup(cands)
        {
          var line := lines[l];
          var level := Classify(line);
          var text := LineText(line);
          ghost var entry := LineEntry(line, i + 1);
          ghost var prev := Scan(outline, seen);
          ScanLine(cands, line, i + 1);
          LineCandidatesStep(lines, l, i + 1, LineEntry);
          AppendAssoc(upTo, LineCandidates(lines[..l], i + 1, LineEntry), entry);
          assert cands + entry == upTo + LineCandidates(lines[..l + 1], i + 1, LineEntry);
          cands := cands + entry;
          if level.Some? && text !in seen && |Words(text)| > 1 {
            seen := seen + {text};
            outline := outline + [Entry(level.value, text, i + 1)];
          }
          assert Scan(outline, seen) == ScanStep(prev, level, text, i + 1);
          l := l + 1;
        }
        assert lines[..l] == lines;
        BlockCandidatesStep(blocks, b, i + 1, LineEntry);
        AppendAssoc(before, BlockCandidates(blocks[..b], i + 1, LineEntry), LineCandidates(lines, i + 1, LineEntry));
        b := b + 1;
      }
      assert blocks[..b] == blocks;
      CandidatesStep(pages, i, LineEntry);
      i := i + 1;
    }
    assert pages[..i] == pages;
    var first := FirstH1(outline);
    var title := if first.Some? && first.value != [] then first.value else stem;
    d := DocOutline(title, outline);
  }

  // ---------------------------------------------------------------------------------------------
  // Lemmas: the first-occurrence pass.

  /** The texts of a list of entries. */
  function Texts(es: seq<Entry>): set<string> {
    set e | e in es :: e.text
  }

  predicate DistinctTexts(es: seq<Entry>) {
    forall j, k :: 0 <= j < k < |es| ==> es[j].text != es[k].text
  }

  predicate PagesSorted(es: seq<Entry>) {
    forall j, k :: 0 <= j <= k < |es| ==> es[j].page <= es[k].page
  }

  /** `seen` holds exactly the kept texts, which are exactly the texts met; the kept entries are
      candidates with pairwise different texts. */
  lemma {:induction false} DedupTexts(es: seq<Entry>)
    ensures Dedup(es).seen == Texts(Dedup(es).outline) == Texts(es)
    ensures DistinctTexts(Dedup(es).outline)
    ensures forall e :: e in Dedup(es).outline ==> e in es
  {
    if es != [] {
      var init := es[..|es| - 1];
      DedupTexts(init);
      assert es == init + [es[|es| - 1]];
      assert Texts(es) == Texts(init) + {es[|es| - 1].text};
      var prev := Dedup(init);
      var e := es[|es| - 1];
      if e.text !in prev.seen {
        assert Texts(prev.outline + [e]) == Texts(prev.outline) + {e.text};
      }
    }
  }

  /** Every kept entry is the first candidate with its text. */
  lemma {:induction false} DedupFirst(es: seq<Entry>)
    ensures forall j :: 0 <= j < |Dedup(es).outline| ==>
      exists k :: (0 <= k < |es| && es[k] == Dedup(es).outline[j] &&
        forall m :: 0 <= m < k ==> es[m].text != es[k].text)
  {
    if es != [] {
      var init := es[..|es| - 1];
      var e := es[|es| - 1];
      DedupFirst(init);
      DedupTexts(init);
      var prev := Dedup(init).outline;
      var out := Dedup(es).outline;
      forall j | 0 <= j < |out|
        ensures exists k :: (0 <= k < |es| && es[k] == out[j] &&
          forall m :: 0 <= m < k ==> es[m].text != es[k].text)
      {
        if j < |prev| {
          assert out[j] == prev[j];
          var k :| 0 <= k < |init| && init[k] == prev[j] &&
            forall m :: 0 <= m < k ==> init[m].text != init[k].text;
          assert es[k] == init[k];
          assert forall m :: 0 <= m < k ==> es[m] == init[m];
        } else {
          assert e.text !in Texts(init) && out[j] == e;
          var k := |es| - 1;
          forall m | 0 <= m < k ensures es[m].text != es[k].text {
            assert es[m] == init[m] && init[m] in init;
          }
        }
      }
      assert forall j :: 0 <= j < |out| ==>
        exists k :: (0 <= k < |es| && es[k] == out[j] && forall m :: 0 <= m < k ==> es[m].text != es[k].text);
    } else {
      assert Dedup(es).outline == [];
    }
  }

  /** Keeping a sub-list keeps candidates in page order. */
  lemma {:induction false} DedupSorted(es: seq<Entry>)
    requires PagesSorted(es)
    ensures PagesSorted(Dedup(es).outline)
  {
    if es != [] {
      var init := es[..|es| - 1];
      DedupSorted(init);
      DedupTexts(init);
      var e := es[|es| - 1];
      forall f | f in init ensures f.page <= e.page {
      }
    }
  }

  // ---------------------------------------------------------------------------------------------
  // Lemmas: the candidates are exactly the qualifying lines, in page order.

  lemma {:induction false} LineCandidatesMembers(lines: seq<Line>, page: int, rule: LineRule)
    ensures forall e :: e in LineCandidates(lines, page, rule) <==>
      exists l :: 0 <= l < |lines| && e in rule(lines[l], page)
  {
    if lines != [] {
      var init := lines[..|lines| - 1];
      LineCandidatesMembers(init, page, rule);
      forall e | e in LineCandidates(lines, page, rule)
        ensures exists l :: 0 <= l < |lines| && e in rule(lines[l], page)
      {
        if e in LineCandidates(init, page, rule) {
          var l :| 0 <= l < |init| && e in rule(init[l], page);
          assert lines[l] == init[l];
        }
      }
      forall e, l | 0 <= l < |lines| && e in rule(lines[l], page)
        ensures e in LineCandidates(lines, page, rule)
      {
        if l < |init| {
          assert lines[l] == init[l];
        }
      }
    }
  }

  /** The entries of one page are those of its blocks' lines. */
  lemma {:induction false} BlockCandidatesByBlock(blocks: seq<Block>, page: int, rule: LineRule)
    ensures forall e :: e in BlockCandidates(blocks, page, rule) <==>
      exists b :: 0 <= b < |blocks| && e in LineCandidates(blocks[b], page, rule)
  {
    if blocks != [] {
      var init := blocks[..|blocks| - 1];
      BlockCandidatesByBlock(init, page, rule);
      forall e | e in BlockCandidates(blocks, page, rule)
        ensures exists b :: 0 <= b < |blocks| && e in LineCandidates(blocks[b], page, rule)
      {
        if e in BlockCandidates(init, page, rule) {
          var b :| 0 <= b < |init| && e in LineCandidates(init[b], page, rule);
          assert blocks[b] == init[b];
        }
      }
      forall e, b | 0 <= b < |blocks| && e in LineCandidates(blocks[b], page, rule)
        ensures e in BlockCandidates(blocks, page, rule)
      {
        if b < |init| {
          assert blocks[b] == init[b];
        }
      }
    }
  }

  lemma BlockCandidatesMembers(blocks: seq<Block>, page: int, rule: LineRule)
    ensures forall e :: e in BlockCandidates(blocks, page, rule) <==>
      exists b, l :: 0 <= b < |blocks| && 0 <= l < |blocks[b]| && e in rule(blocks[b][l], page)
  {
    BlockCandidatesByBlock(blocks, page, rule);
    forall b | 0 <= b < |blocks| {
      LineCandidatesMembers(blocks[b], page, rule);
    }
  }

  /** Every entry of the document comes from one of its lines, on that line's page. */
  lemma {:induction false} CandidatesSound(pages: seq<Page>, rule: LineRule)
    ensures forall e :: e in Candidates(pages, rule) ==>
      exists i, b, l :: (0 <= i < |pages| && 0 <= b < |pages[i]| && 0 <= l < |pages[i][b]| &&
        e in rule(pages[i][b][l], i + 1))
  {
    if pages != [] {
      var init := pages[..|pages| - 1];
      var n := |pages|;
      CandidatesSound(init, rule);
      BlockCandidatesMembers(pages[n - 1], n, rule);
      forall e | e in Candidates(pages, rule)
        ensures exists i, b, l :: (0 <= i < |pages| && 0 <= b < |pages[i]| && 0 <= l < |pages[i][b]| &&
          e in rule(pages[i][b][l], i + 1))
      {
        if e in Candidates(init, rule) {
          var i, b, l :| 0 <= i < |init| && 0 <= b < |init[i]| && 0 <= l < |init[i][b]| &&
            e in rule(init[i][b][l], i + 1);
          assert pages[i] == init[i];
        }
      }
    }
  }

  /** Every entry of every line is among the document's entries. */
  lemma {:induction false} CandidatesComplete(pages: seq<Page>, rule: LineRule)
    ensures forall e, i, b, l :: (0 <= i < |pages| && 0 <= b < |pages[i]| && 0 <= l < |pages[i][b]| &&
      e in rule(pages[i][b][l], i + 1)) ==> e in Candidates(pages, rule)
  {
    if pages != [] {
      var init := pages[..|pages| - 1];
      var n := |pages|;
      CandidatesComplete(init, rule);
      BlockCandidatesMembers(pages[n - 1], n, rule);
      forall e, i, b, l | 0 <= i < |pages| && 0 <= b < |pages[i]| && 0 <= l < |pages[i][b]| &&
        e in rule(pages[i][b][l], i + 1)
        ensures e in Candidates(pages, rule)
      {
        if i < |init| {
          assert pages[i] == init[i];
        }
      }
    }
  }

  /** A rule that stamps each entry with the page it was given. */
  ghost predicate StampsPage(rule: LineRule) {
    forall line, page, e :: e in rule(line, page) ==> e.page == page
  }

  /** Under such a rule, entries carry page numbers 1 to the page count, in non-decreasing order. */
  lemma {:induction false} CandidatesSorted(pages: seq<Page>, rule: LineRule)
    requires StampsPage(rule)
    ensures forall e :: e in Candidates(pages, rule) ==> 1 <= e.page <= |pages|
    ensures PagesSorted(Candidates(pages, rule))
  {
    if pages != [] {
      var init := pages[..|pages| - 1];
      var n := |pages|;
      CandidatesSorted(init, rule);
      BlockCandidatesMembers(pages[n - 1], n, rule);
      var pc := Candidates(pages, rule);
      var m := |Candidates(init, rule)|;
      forall j, k | 0 <= j <= k < |pc| ensures pc[j].page <= pc[k].page {
        if k >= m {
          assert pc[k] in BlockCandidates(pages[n - 1], n, rule);
          if j < m {
            assert pc[j] in Candidates(init, rule);
          } else {
            assert pc[j] in BlockCandidates(pages[n - 1], n, rule);
          }
        }
      }
    }
  }

  lemma LineEntryStampsPage()
    ensures StampsPage(LineEntry)
  {
  }

  // ---------------------------------------------------------------------------------------------
  // Lemmas: what extract_outline returns.

  /** A line's entry: present exactly when the line qualifies, built from its level and text. */
  lemma LineEntryExact(line: Line, page: int, e: Entry)
    ensures e in LineEntry(line, page) <==>
      Qualifies(line) && e == Entry(Classify(line).value, LineText(line), page)
  {
  }

  /** Each outline entry is the entry of a line of the page it names. */
  lemma OutlineSound(pages: seq<Page>, stem: string)
    ensures forall e :: e in OutlineOf(pages, stem).outline ==>
      exists i, b, l :: (0 <= i < |pages| && 0 <= b < |pages[i]| && 0 <= l < |pages[i][b]| &&
        e in LineEntry(pages[i][b][l], i + 1))
  {
    DedupTexts(Candidates(pages, LineEntry));
    CandidatesSound(pages, LineEntry);
  }

  /** Over page-ordered candidates, each candidate's text is kept on its page or an earlier one. */
  lemma DedupKeepsEarliest(es: seq<Entry>, q: nat)
    requires PagesSorted(es) && q < |es|
    ensures exists j :: (0 <= j < |Dedup(es).outline| && Dedup(es).outline[j].text == es[q].text &&
      Dedup(es).outline[j].page <= es[q].page)
  {
    var out := Dedup(es).outline;
    DedupTexts(es);
    DedupFirst(es);
    assert es[q].text in Texts(out);
    var f :| f in out && f.text == es[q].text;
    var j :| 0 <= j < |out| && out[j] == f;
    var k :| 0 <= k < |es| && es[k] == out[j] && forall m :: 0 <= m < k ==> es[m].text != es[k].text;
    assert k <= q;
  }

  /** Every classified line of more than one word has its text in the outline, on its page or an
      earlier one. */
  lemma OutlineComplete(pages: seq<Page>, stem: string)
    ensures forall i, b, l :: (0 <= i < |pages| && 0 <= b < |pages[i]| && 0 <= l < |pages[i][b]| &&
      Qualifies(pages[i][b][l])) ==>
      exists j :: (0 <= j < |OutlineOf(pages, stem).outline| &&
        OutlineOf(pages, stem).outline[j].text == LineText(pages[i][b][l]) &&
        OutlineOf(pages, stem).outline[j].page <= i + 1)
  {
    var cands := Candidates(pages, LineEntry);
    CandidatesComplete(pages, LineEntry);
    LineEntryStampsPage();
    CandidatesSorted(pages, LineEntry);
    forall i, b, l | 0 <= i < |pages| && 0 <= b < |pages[i]| && 0 <= l < |pages[i][b]| && Qualifies(pages[i][b][l])
      ensures exists j :: (0 <= j < |Dedup(cands).outline| && Dedup(cands).outline[j].text == LineText(pages[i][b][l]) &&
        Dedup(cands).outline[j].page <= i + 1)
    {
      var line := pages[i][b][l];
      var c := Entry(Classify(line).value, LineText(line), i + 1);
      LineEntryExact(line, i + 1, c);
      assert c in cands;
      var q :| 0 <= q < |cands| && cands[q] == c;
      DedupKeepsEarliest(cands, q);
    }
    assert OutlineOf(pages, stem).outline == Dedup(cands).outline;
  }

  /** The outline never repeats a text and lists entries in page order. */
  lemma OutlineDistinctSorted(pages: seq<Page>, stem: string)
    ensures DistinctTexts(OutlineOf(pages, stem).outline)
    ensures PagesSorted(OutlineOf(pages, stem).outline)
  {
    var cands := Candidates(pages, LineEntry);
    DedupTexts(cands);
    LineEntryStampsPage();
    CandidatesSorted(pages, LineEntry);
    DedupSorted(cands);
  }

  /** Every outline text has more than one word, so it is never a stoplisted text. */
  lemma OutlineTextsAreMultiWord(pages: seq<Page>, stem: string)
    ensures forall e :: e in OutlineOf(pages, stem).outline ==> |Words(e.text)| > 1 && !IsStopword(e.text)
  {
    OutlineSound(pages, stem);
    forall e | e in OutlineOf(pages, stem).outline ensures |Words(e.text)| > 1 && !IsStopword(e.text) {
      var i, b, l :| 0 <= i < |pages| && 0 <= b < |pages[i]| && 0 <= l < |pages[i][b]| &&
        e in LineEntry(pages[i][b][l], i + 1);
      LineEntryExact(pages[i][b][l], i + 1, e);
      if IsStopword(e.text) {
        StopwordIsOneWord(e.text);
      }
    }
  }

  /** The title is the text of the first H1 entry when there is one, otherwise the stem. */
  lemma TitleChoice(pages: seq<Page>, stem: string)
    ensures var d := OutlineOf(pages, stem);
      (forall j :: 0 <= j < |d.outline| ==> d.outline[j].level != H1) ==> d.title == stem
    ensures var d := OutlineOf(pages, stem);
      forall j :: (0 <= j < |d.outline| && d.outline[j].level == H1 &&
        forall m :: 0 <= m < j ==> d.outline[m].level != H1) ==> d.title == d.outline[j].text && d.title != []
  {
    var d := OutlineOf(pages, stem);
    OutlineTextsAreMultiWord(pages, stem);
    var first := FirstH1(d.outline);
    if first.Some? {
      var k :| 0 <= k < |d.outline| && d.outline[k].level == H1 &&
        d.outline[k].text == first.value && forall m :: 0 <= m < k ==> d.outline[m].level != H1;
      assert d.outline[k] in d.outline;
      assert Words(d.outline[k].text) != [];
    }
  }
}
