/** Report assembly: `build_final_output` in project/run_pipeline.py. The outlines arrive as a
    list of (filename, outline) pairs in the order of the dictionary that holds them; the PDF
    behind a filename, the similarity score and the timestamp are parameters. */
module Report {
  import opened Wrappers
  import opened Text
  import opened Outline
  import opened SectionText
  import opened Ranking

  /** The fields of the request the report reads: the persona's role, the task and the
      filenames of the requested documents, in request order. */
  datatype Request = Request(persona: string, task: string, documents: seq<string>)

  datatype Metadata = Metadata(inputDocuments: seq<string>, persona: string, jobToBeDone: string,
                               processingTimestamp: string)

  datatype ExtractedSection = ExtractedSection(document: string, sectionTitle: string,
                                               importanceRank: int, pageNumber: int)

  datatype SubsectionAnalysis = SubsectionAnalysis(document: string, refinedText: string, pageNumber: int)

  datatype Report = Report(metadata: Metadata, extractedSections: seq<ExtractedSection>,
                           subsectionAnalysis: seq<SubsectionAnalysis>)

  /** Outlines by document filename, in dictionary order. */
  type OutlineTable = seq<(string, seq<Entry>)>

  /** The page texts of the PDF behind a filename; `None` when it cannot be opened. */
  type PdfStore = string -> Option<seq<PageBlocks>>

  /** How many sections each document contributes at most. */
  const SectionsPerDocument: int := 2

  /** The ranking prompt built from the persona and the task. */
  function Prompt(persona: string, task: string): string {
    "You are a " + persona + ". Your goal is to " + task +
    ". Find sections that help you accomplish this goal."
  }

  /** A chosen section together with the filename of its document. */
  type Pick = (string, Scored)

  function Tagged(name: string, top: seq<Scored>): seq<Pick> {
    seq(|top|, k requires 0 <= k < |top| => (name, top[k]))
  }

  /** The sections the report lists, in report order: each document's top sections in turn. */
  function Picks(docs: OutlineTable, prompt: string, sim: Scorer): seq<Pick> {
    if docs == [] then []
    else
      var last := docs[|docs| - 1];
      Picks(docs[..|docs| - 1], prompt, sim) +
        Tagged(last.0, TopSections(last.1, prompt, sim, SectionsPerDocument))
  }

  /** `refined or sec["text"]`: the extracted text, or the title when nothing was extracted. */
  function OrTitle(refined: string, title: string): string {
    if refined != [] then refined else title
  }

  /** The i-th extracted section: ranks count from 1 in report order. */
  function ExtractedOf(picks: seq<Pick>): seq<ExtractedSection> {
    seq(|picks|, i requires 0 <= i < |picks| =>
      ExtractedSection(picks[i].0, picks[i].1.entry.text, i + 1, picks[i].1.entry.page))
  }

  /** The i-th subsection analysis: the text under the section's heading on its page. */
  function AnalysisOf(picks: seq<Pick>, pdfs: PdfStore): seq<SubsectionAnalysis> {
    seq(|picks|, i requires 0 <= i < |picks| =>
      var e := picks[i].1.entry;
      SubsectionAnalysis(picks[i].0, OrTitle(TextUnderHeading(pdfs(picks[i].0), e.text, e.page), e.text), e.page))
  }

  /** What build_final_output returns. */
  function FinalOutput(request: Request, docs: OutlineTable, sim: Scorer, pdfs: PdfStore,
                       timestamp: string): Report
  {
    var picks := Picks(docs, Prompt(request.persona, request.task), sim);
    Report(Metadata(request.documents, request.persona, request.task, timestamp),
           ExtractedOf(picks), AnalysisOf(picks, pdfs))
  }

  /** build_final_output: rank each document's outline, then append one extracted section and
      one analysis per chosen section, counting ranks up from 1. */
  method BuildFinalOutput(request: Request, docs: OutlineTable, sim: Scorer, pdfs: PdfStore,
                          timestamp: string) returns (report: Report)
    ensures report == FinalOutput(request, docs, sim, pdfs, timestamp)
  {
    var prompt := Prompt(request.persona, request.task);
    var metadata := Metadata(request.documents, request.persona, request.task, timestamp);
    var extracted: seq<ExtractedSection> := [];
    var analysis: seq<SubsectionAnalysis> := [];
    var rank := 1;
    ghost var picks: seq<Pick> := [];
    for d := 0 to |docs|
      invariant picks == Picks(docs[..d], prompt, sim)
      invariant Built(picks, extracted, analysis, rank, pdfs)
    {
      PicksStep(docs, d, prompt, sim);
      var (name, outline) := docs[d];
      var top := RankSections(outline, prompt, sim, SectionsPerDocument);
      extracted, analysis, rank := AppendSections(name, top, pdfs, picks, extracted, analysis, rank);
      picks := picks + Tagged(name, top);
    }
    assert docs[..|docs|] == docs;
    report := Report(metadata, extracted, analysis);
  }

  /** The inner loop of build_final_output: one extracted section and one analysis for each of a
      document's top sections, with the text under its heading or else its title. */
  method AppendSections(name: string, top: seq<Scored>, pdfs: PdfStore, ghost picks: seq<Pick>,
                        extracted: seq<ExtractedSection>, analysis: seq<SubsectionAnalysis>, rank: int)
    returns (extracted': seq<ExtractedSection>, analysis': seq<SubsectionAnalysis>, rank': int)
    requires Built(picks, extracted, analysis, rank, pdfs)
    ensures Built(picks + Tagged(name, top), extracted', analysis', rank', pdfs)
  {
    extracted', analysis', rank' := extracted, analysis, rank;
    ghost var done := picks;
    for j := 0 to |top|
      invariant done == picks + Tagged(name, top[..j])
      invariant Built(done, extracted', analysis', rank', pdfs)
    {
      var sec := top[j];
      extracted' := extracted' + [ExtractedSection(name, sec.entry.text, rank', sec.entry.page)];
      var refined := ExtractTextUnderHeading(pdfs(name), sec.entry.text, sec.entry.page);
      analysis' := analysis' + [SubsectionAnalysis(name, if refined != [] then refined else sec.entry.text, sec.entry.page)];
      BuiltStep(done, (name, sec), pdfs);
      TaggedSnoc(name, top, j);
      done := done + [(name, sec)];
      rank' := rank' + 1;
    }
    assert top[..|top|] == top;
  }

  // ---------------------------------------------------------------------------------------------
  // Helper lemmas for the loops.

  lemma PicksStep(docs: OutlineTable, d: nat, prompt: string, sim: Scorer)
    requires d < |docs|
    ensures Picks(docs[..d + 1], prompt, sim) ==
      Picks(docs[..d], prompt, sim) + Tagged(docs[d].0, TopSections(docs[d].1, prompt, sim, SectionsPerDocument))
  {
    assert docs[..d + 1][..d] == docs[..d];
  }

  lemma TaggedSnoc(name: string, top: seq<Scored>, j: nat)
    requires j < |top|
    ensures Tagged(name, top[..j + 1]) == Tagged(name, top[..j]) + [(name, top[j])]
  {
  }

  /** The lists built so far hold one row per pick, ranks counting on from the last. */
  ghost predicate Built(picks: seq<Pick>, extracted: seq<ExtractedSection>, analysis: seq<SubsectionAnalysis>,
                        rank: int, pdfs: PdfStore)
  {
    extracted == ExtractedOf(picks) && analysis == AnalysisOf(picks, pdfs) && rank == |picks| + 1
  }

  lemma BuiltStep(picks: seq<Pick>, p: Pick, pdfs: PdfStore)
    ensures forall extracted, analysis, rank | Built(picks, extracted, analysis, rank, pdfs) ::
      var e := p.1.entry;
      var refined := TextUnderHeading(pdfs(p.0), e.text, e.page);
      Built(picks + [p], extracted + [ExtractedSection(p.0, e.text, rank, e.page)],
            analysis + [SubsectionAnalysis(p.0, if refined != [] then refined else e.text, e.page)], rank + 1, pdfs)
  {
    RowsSnoc(picks, p, pdfs);
  }

  lemma RowsSnoc(picks: seq<Pick>, p: Pick, pdfs: PdfStore)
    ensures ExtractedOf(picks + [p]) ==
      ExtractedOf(picks) + [ExtractedSection(p.0, p.1.entry.text, |picks| + 1, p.1.entry.page)]
    ensures var e := p.1.entry;
      AnalysisOf(picks + [p], pdfs) ==
        AnalysisOf(picks, pdfs) + [SubsectionAnalysis(p.0, OrTitle(TextUnderHeading(pdfs(p.0), e.text, e.page), e.text), e.page)]
  {
    var q := picks + [p];
    assert forall i :: 0 <= i < |picks| ==> q[i] == picks[i];
  }

  // ---------------------------------------------------------------------------------------------
  // Lemmas: the shape of the report.

  /** The two lists have equal length and agree on document and page at every index, the ranks
      are 1..N in list order, and the metadata lists the requested filenames in request order. */
  lemma ReportAligned(request: Request, docs: OutlineTable, sim: Scorer, pdfs: PdfStore, timestamp: string)
    ensures var r := FinalOutput(request, docs, sim, pdfs, timestamp);
      var es, sa := r.extractedSections, r.subsectionAnalysis;
      |es| == |sa| &&
      (forall i :: 0 <= i < |es| ==>
        es[i].importanceRank == i + 1 && es[i].document == sa[i].document && es[i].pageNumber == sa[i].pageNumber) &&
      r.metadata.inputDocuments == request.documents &&
      r.metadata.persona == request.persona && r.metadata.jobToBeDone == request.task
  {
  }

  /** Every listed section is a top section of a document of that name. */
  lemma {:induction false} PickOrigin(docs: OutlineTable, prompt: string, sim: Scorer, i: nat)
    requires i < |Picks(docs, prompt, sim)|
    ensures var p := Picks(docs, prompt, sim)[i];
      exists d :: 0 <= d < |docs| && docs[d].0 == p.0 && p.1 in TopSections(docs[d].1, prompt, sim, SectionsPerDocument)
  {
    var n := |docs| - 1;
    var before := Picks(docs[..n], prompt, sim);
    var top := TopSections(docs[n].1, prompt, sim, SectionsPerDocument);
    assert Picks(docs, prompt, sim) == before + Tagged(docs[n].0, top);
    if i < |before| {
      PickOrigin(docs[..n], prompt, sim, i);
      var d :| 0 <= d < n && docs[..n][d].0 == before[i].0 &&
        before[i].1 in TopSections(docs[..n][d].1, prompt, sim, SectionsPerDocument);
      assert docs[d] == docs[..n][d];
    } else {
      assert Picks(docs, prompt, sim)[i] == (docs[n].0, top[i - |before|]);
    }
  }

  /** Every extracted section is an entry of its document's outline with at least 3 words, and
      its refined text is never empty: the text under its heading, or else the title itself. */
  lemma ReportSections(request: Request, docs: OutlineTable, sim: Scorer, pdfs: PdfStore, timestamp: string, i: nat)
    requires i < |FinalOutput(request, docs, sim, pdfs, timestamp).extractedSections|
    ensures var r := FinalOutput(request, docs, sim, pdfs, timestamp);
      var es, sa := r.extractedSections[i], r.subsectionAnalysis[i];
      (exists d, e :: 0 <= d < |docs| && docs[d].0 == es.document && e in docs[d].1 &&
        e.text == es.sectionTitle && e.page == es.pageNumber) &&
      |Words(es.sectionTitle)| >= 3 &&
      sa.refinedText != [] &&
      (sa.refinedText == es.sectionTitle ||
       sa.refinedText == TextUnderHeading(pdfs(es.document), es.sectionTitle, es.pageNumber))
  {
    var prompt := Prompt(request.persona, request.task);
    var p := Picks(docs, prompt, sim)[i];
    PickOrigin(docs, prompt, sim, i);
    var d :| 0 <= d < |docs| && docs[d].0 == p.0 && p.1 in TopSections(docs[d].1, prompt, sim, SectionsPerDocument);
    TopSectionsQualify(docs[d].1, prompt, sim, SectionsPerDocument, p.1);
    assert p.1.entry.text != [];
  }

  /** The sections listed for one document name, in report order. */
  function SectionsOf(picks: seq<Pick>, name: string): seq<Scored> {
    if picks == [] then []
    else
      var p := picks[|picks| - 1];
      SectionsOf(picks[..|picks| - 1], name) + if p.0 == name then [p.1] else []
  }

  lemma {:induction false} SectionsOfAppend(a: seq<Pick>, b: seq<Pick>, name: string)
    ensures SectionsOf(a + b, name) == SectionsOf(a, name) + SectionsOf(b, name)
    decreases |b|
  {
    if b == [] {
      assert a + b == a;
    } else {
      assert (a + b)[..|a + b| - 1] == a + b[..|b| - 1];
      SectionsOfAppend(a, b[..|b| - 1], name);
    }
  }

  lemma {:induction false} SectionsOfTagged(n: string, top: seq<Scored>, name: string)
    ensures SectionsOf(Tagged(n, top), name) == if n == name then top else []
  {
    if top != [] {
      var k := |top| - 1;
      assert Tagged(n, top)[..k] == Tagged(n, top[..k]);
      SectionsOfTagged(n, top[..k], name);
      assert top == top[..k] + [top[k]];
    }
  }

  /** Outline tables come from a dictionary: no filename appears twice. */
  predicate DistinctKeys(docs: OutlineTable) {
    forall i, j :: 0 <= i < j < |docs| ==> docs[i].0 != docs[j].0
  }

  lemma {:induction false} NoSectionsFor(docs: OutlineTable, prompt: string, sim: Scorer, name: string)
    requires forall d :: 0 <= d < |docs| ==> docs[d].0 != name
    ensures SectionsOf(Picks(docs, prompt, sim), name) == []
  {
    if docs != [] {
      var n := |docs| - 1;
      NoSectionsFor(docs[..n], prompt, sim, name);
      SectionsOfAppend(Picks(docs[..n], prompt, sim), Tagged(docs[n].0, TopSections(docs[n].1, prompt, sim, SectionsPerDocument)), name);
      SectionsOfTagged(docs[n].0, TopSections(docs[n].1, prompt, sim, SectionsPerDocument), name);
    }
  }

  /** The sections listed for a document are exactly the top sections of its own outline, in
      ranking order. */
  lemma {:induction false} DocumentSections(docs: OutlineTable, prompt: string, sim: Scorer, d: nat)
    requires DistinctKeys(docs) && d < |docs|
    ensures SectionsOf(Picks(docs, prompt, sim), docs[d].0) == TopSections(docs[d].1, prompt, sim, SectionsPerDocument)
  {
    var n := |docs| - 1;
    var name := docs[d].0;
    var last := TopSections(docs[n].1, prompt, sim, SectionsPerDocument);
    SectionsOfAppend(Picks(docs[..n], prompt, sim), Tagged(docs[n].0, last), name);
    SectionsOfTagged(docs[n].0, last, name);
    if d == n {
      NoSectionsFor(docs[..n], prompt, sim, name);
    } else {
      DocumentSections(docs[..n], prompt, sim, d);
    }
  }

  /** The (title, page) of each extracted section of one document, in report order. */
  function DocumentRows(es: seq<ExtractedSection>, name: string): seq<(string, int)> {
    if es == [] then []
    else
      var r := es[|es| - 1];
      DocumentRows(es[..|es| - 1], name) + if r.document == name then [(r.sectionTitle, r.pageNumber)] else []
  }

  function TitlesAndPages(ss: seq<Scored>): seq<(string, int)> {
    seq(|ss|, k requires 0 <= k < |ss| => (ss[k].entry.text, ss[k].entry.page))
  }

  lemma {:induction false} RowsOfPicks(picks: seq<Pick>, name: string)
    ensures DocumentRows(ExtractedOf(picks), name) == TitlesAndPages(SectionsOf(picks, name))
  {
    if picks != [] {
      var n := |picks| - 1;
      RowsOfPicks(picks[..n], name);
      assert picks == picks[..n] + [picks[n]];
      RowsSnoc(picks[..n], picks[n], p => None);
      var es := ExtractedOf(picks);
      assert es[..n] == ExtractedOf(picks[..n]);
    }
  }

  /** The extracted sections of a requested document are, in order, the titles and pages of the
      top sections of its outline, so each document contributes at most 2 of them. */
  lemma PerDocument(request: Request, docs: OutlineTable, sim: Scorer, pdfs: PdfStore, timestamp: string, d: nat)
    requires DistinctKeys(docs) && d < |docs|
    ensures var es := FinalOutput(request, docs, sim, pdfs, timestamp).extractedSections;
      var prompt := Prompt(request.persona, request.task);
      DocumentRows(es, docs[d].0) == TitlesAndPages(TopSections(docs[d].1, prompt, sim, SectionsPerDocument)) &&
      |DocumentRows(es, docs[d].0)| <= SectionsPerDocument
  {
    var prompt := Prompt(request.persona, request.task);
    DocumentSections(docs, prompt, sim, d);
    RowsOfPicks(Picks(docs, prompt, sim), docs[d].0);
    TopSectionsLength(docs[d].1, prompt, sim, SectionsPerDocument);
  }
}
