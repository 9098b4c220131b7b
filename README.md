# Persona-driven section ranking over PDF outlines — a Dafny model

The pipeline in `project/run_pipeline.py` reads a request naming a persona, a task and a list of
PDF documents, and writes a report of the sections most relevant to that persona's task. This
project models the deterministic part of that pipeline and proves what it computes:

- **Line normalisation and heading classification** (`Headings`, with the string helpers of
  `Text` and the numbering-pattern parsers of `Numbering`). A layout line is a list of spans
  (text, font size, flag bits). Its text is the span texts joined by spaces, stripped, with every
  whitespace run collapsed to one space. A line is a heading:
  - never, if its text is empty or one of four stopwords (compared lower-case);
  - H3, H2 or H1 if it starts with a numbering of the form `1.2.3 `, `1.2 ` or `1. `;
  - otherwise by font: H1 if the largest size is above 18 and some span has flag bit 2 set,
    H2 above 14, H3 above 11.

  The regular-expression prefixes are computed by greedy digit-group parsers. Each parser is
  proved equal to a declarative reading of its regular expression.
- **Outline extraction** (`Outline`). A method walks pages, blocks and lines with the `seen`
  set, exactly as the source loops do. It is proved equal to a fold over the document's lines.
  The lemmas show:
  - the outline lists each qualifying text once, at its first occurrence;
  - the pages are 1-based and non-decreasing;
  - every entry has more than one word;
  - the title is the first H1 text, otherwise the file stem.
- **Section-text scan** (`SectionText`). A method runs the two-phase block scan with its
  `found` flag and `break`, and is proved equal to a declarative definition. The text under a
  heading is the run of stripped blocks after the first block that contains the heading
  (case-insensitive). The run stops at the first block that has fewer than 3 words or starts
  with a section number. A missing document or page gives `""`. The scan itself is defined and
  proved for any pair of block tests (the one that starts the collection and the one that stops
  it); the two tests of the source are instances.
- **Ranking** (`Ranking`). The scoring loop is a method. The `sorted(..., reverse=True)` call
  is a stable insertion sort, proved to:
  - permute its input;
  - order scores non-increasingly;
  - keep input order among equal scores.

  The `[:max_sections]` cut follows Python's slice semantics.
- **Report assembly** (`Report`) and **outline collection** (`Pipeline`).
  - The outline dictionary of `run_pipeline` is a list of (filename, outline) pairs. Python's
    assignment semantics apply: an existing key keeps its place and takes the new value.
  - `build_final_output` is a method with one rank counter and two lists it appends to, proved
    equal to a definition that assigns rank `i + 1` to the `i`-th chosen section.

Observations the proofs make precise:
- The heading stoplist never changes an outline. Every stopword is one word, and the outline
  keeps only texts of more than one word (`Headings.StopwordIsOneWord`,
  `Outline.OutlineTextsAreMultiWord`).
- The ranking's `"overview"`/`"conclusion"` test never drops anything the 3-word test keeps
  (`Ranking.RankFilterRedundant`).
- Every heading number `classify_heading` recognises also ends a section in the scan, except
  the H1 form `1. Title`: after `1` comes a dot and no digit, so `^\d+(\.\d+)*\s` does not match
  (`Numbering.H1NumberDoesNotEndSection`).
- The font rule tests flag value 2, as the code does (`Headings.BoldFlag`). In PyMuPDF's span
  flags, value 2 is the italic bit and bold is value 16. The code's value is kept.

Every refined text in the report is non-empty: each listed title has at least 3 words
(`Report.ReportSections`).

## Model

| member | source | states |
|---|---|---|
| Text.DropSpacesIsLstrip | project/run_pipeline.py:32 | lstrip removes exactly the leading whitespace: the result is a suffix, all that is cut is whitespace, and it does not start with whitespace |
| Text.DropTrailingSpacesIsRstrip | project/run_pipeline.py:32 | rstrip removes exactly the trailing whitespace |
| Text.StripShape | project/run_pipeline.py:32 | `strip()` leaves no whitespace at either end |
| Text.WordsWellFormed | project/run_pipeline.py:63 | every word `split()` returns is non-empty and contains no whitespace |
| Text.WordsOfStrip | project/run_pipeline.py:32 | stripping does not change the words of a text |
| Text.CollapseIsJoinWords | project/run_pipeline.py:33 | on a stripped text, `re.sub(r"\s+", " ", ...)` gives the words joined by single spaces |
| Text.NormaliseIsJoinWords | project/run_pipeline.py:32-33 | strip, then collapse whitespace, equals `" ".join(s.split())` |
| Text.JoinShape | project/run_pipeline.py:32-33 | words joined by single spaces: empty exactly when there are no words, no whitespace at either end, every whitespace character a single space between non-whitespace ones |
| Text.WordsOfJoin | project/run_pipeline.py:33 | splitting words joined by single spaces gives back the same words |
| Text.JoinWordsIdempotent | project/run_pipeline.py:31-33 | normalising whitespace twice equals normalising it once |
| Text.WordCountOfLower | project/run_pipeline.py:37 | lower-casing keeps the number of words |
| Text.SingleWordLower | project/run_pipeline.py:37 | a text whose lower-case form is a single word has exactly one word |
| Text.StripNonEmpty | project/run_pipeline.py:99 | `strip()` is non-empty when some character is not whitespace |
| Numbering.DigitsEndIsRun | project/run_pipeline.py:39-41 | the digit parser stops at the end of the maximal run of ASCII digits |
| Numbering.GroupsEndSound | project/run_pipeline.py:39-41 | the greedy group parser finds only groups `\d+(\.\d+)*` can match |
| Numbering.GroupsEndComplete | project/run_pipeline.py:39-41 | any group sequence the regex matches that is followed by a non-digit is the greedy parse |
| Numbering.NumberedIsRegex | project/run_pipeline.py:39-40 | the computed H3 and H2 tests hold exactly when `^\d+\.\d+\.\d+\s` or `^\d+\.\d+\s` matches |
| Numbering.NumberedH1IsRegex | project/run_pipeline.py:41 | the computed H1 test holds exactly when `^\d+\.\s` matches |
| Numbering.AllGroupsSound | project/run_pipeline.py:96 | the longest-group parser finds a match of `\d+(\.\d+)*` |
| Numbering.AllGroupsComplete | project/run_pipeline.py:96 | every match of `\d+(\.\d+)*` followed by whitespace is found by the longest-group parser |
| Numbering.StartsWithNumberingIsRegex | project/run_pipeline.py:96 | the computed section-number test holds exactly when `^\d+(\.\d+)*\s` matches |
| Numbering.NumberingPatternsExclusive | project/run_pipeline.py:39-41 | at most one of the three heading-number patterns matches a text |
| Numbering.HeadingNumberEndsSection | project/run_pipeline.py:96 | a text matching the H3 or H2 pattern also matches the section-scan pattern |
| Numbering.H1NumberDoesNotEndSection | project/run_pipeline.py:96 | a text matching the H1 pattern `^\d+\.\s` never matches the section-scan pattern |
| Headings.MaxSize | project/run_pipeline.py:43-45 | `max(sizes, default=0)`: 0 for no spans, otherwise an upper bound attained by some span |
| Headings.LineTextIsJoinedWords | project/run_pipeline.py:31-33 | the line text equals `" ".join(joined.split())` of the joined span texts |
| Headings.LineTextShape | project/run_pipeline.py:31-33 | the line text keeps the spans' words, has no whitespace at either end, no two consecutive whitespace characters, only plain spaces, and is empty for no spans |
| Headings.LineTextIdempotent | project/run_pipeline.py:31-33 | normalising an already normalised text changes nothing |
| Headings.StopwordIsLowerMember | project/run_pipeline.py:37 | the stopword test holds exactly when the lower-case text is one of the four stopwords |
| Headings.EmptyLineIsNoHeading | project/run_pipeline.py:37-45 | a line without spans is never a heading |
| Headings.NumberingBeatsFonts | project/run_pipeline.py:39-41 | a text matching a numbering regex gets its level whatever the spans' sizes and flags |
| Headings.NotStopword | project/run_pipeline.py:37-41 | a text that starts with a digit is not a stopword |
| Headings.FontFallback | project/run_pipeline.py:42-50 | without a numbering match: H1 exactly when the max size is above 18 and some span has flag 2, H2 above 14 otherwise, H3 for 11 < size <= 14, none at or below 11 |
| Headings.StopwordIsOneWord | project/run_pipeline.py:37 | every stopword text has exactly one word |
| Outline.FirstH1 | project/run_pipeline.py:66 | the first H1 entry's text, or none when no entry is H1 |
| Outline.ExtractOutline | project/run_pipeline.py:52-67 | the nested page/block/line loop with its `seen` set computes the outline and title of the fold definition |
| Outline.DedupTexts | project/run_pipeline.py:63-65 | `seen` holds exactly the kept texts, which are all the texts met; kept texts are pairwise distinct and each kept entry is a candidate |
| Outline.DedupFirst | project/run_pipeline.py:63-65 | each kept entry is the first candidate with its text |
| Outline.DedupSorted | project/run_pipeline.py:63-65 | deduplication keeps page order |
| Outline.CandidatesSound | project/run_pipeline.py:57-62 | every candidate entry comes from a line of the page it was produced on |
| Outline.CandidatesComplete | project/run_pipeline.py:57-62 | every entry of every line is a candidate |
| Outline.CandidatesSorted | project/run_pipeline.py:57-65 | candidate pages lie in 1..number of pages and do not decrease |
| Outline.LineEntryExact | project/run_pipeline.py:61-65 | a line yields an entry exactly when it is classified and has more than one word; the entry holds its level, text and page |
| Outline.OutlineSound | project/run_pipeline.py:57-65 | every outline entry is the entry of a line on the page it names |
| Outline.DedupKeepsEarliest | project/run_pipeline.py:63-65 | each candidate's text is kept on its own page or an earlier one |
| Outline.OutlineComplete | project/run_pipeline.py:57-65 | every classified line of more than one word has its text in the outline, on its page or an earlier one |
| Outline.OutlineDistinctSorted | project/run_pipeline.py:55-65 | outline texts are pairwise distinct and pages non-decreasing |
| Outline.OutlineTextsAreMultiWord | project/run_pipeline.py:63 | every outline text has more than one word and is not a stopword |
| Outline.TitleChoice | project/run_pipeline.py:56-67 | the title is the stem when no entry is H1, otherwise the non-empty text of the first H1 entry |
| SectionText.FirstMatch | project/run_pipeline.py:90-94 | the first block whose stripped text passes the start test (for the scan: contains the heading case-insensitively); none when no block does |
| SectionText.RunEnd | project/run_pipeline.py:95-97 | the first block from a start index whose stripped text passes the stop test (for the scan: fewer than 3 words or a leading section number), or the page's end |
| SectionText.ExtractTextUnderHeading | project/run_pipeline.py:83-102 | a missing document or page gives `""`; otherwise the page's scan gives the text of the declarative definition |
| SectionText.ScanBlocks | project/run_pipeline.py:88-99 | the flag-and-break loop over the blocks computes the collected run after the first block passing the start test |
| SectionText.SectionTextIsRun | project/run_pipeline.py:88-99 | with `k` the first matching block and `e` the first block after it that stops the run, the text is the stripped blocks between them joined by spaces |
| SectionText.NoHeadingNoText | project/run_pipeline.py:92-99 | no block containing the heading gives `""` |
| SectionText.SectionTextEmptyExactly | project/run_pipeline.py:88-99 | on a page, the text is empty exactly when no block contains the heading or the block after the match is missing or stops the run |
| SectionText.TextEmptyExactly | project/run_pipeline.py:83-102 | the text is empty exactly when the document or page is missing, no block contains the heading, or the block after the match is missing or stops the run |
| Ranking.RankSections | project/run_pipeline.py:104-114 | the scoring loop, then sort and cut, returns the top sections of the definition |
| Ranking.InsertMultiset | project/run_pipeline.py:114 | insertion adds exactly the inserted element |
| Ranking.InsertSorted | project/run_pipeline.py:114 | insertion keeps a list sorted by non-increasing score |
| Ranking.InsertWithScore | project/run_pipeline.py:114 | insertion places the element after every element of its score |
| Ranking.SortDescPermutes | project/run_pipeline.py:114 | the sort is a permutation of its input |
| Ranking.SortDescSorted | project/run_pipeline.py:114 | the sorted scores do not increase |
| Ranking.SortDescStable | project/run_pipeline.py:114 | for every score, the elements of that score keep their input order |
| Ranking.RankFilterRedundant | project/run_pipeline.py:109 | an entry is scored exactly when it has at least 3 words: the "overview"/"conclusion" test never decides |
| Ranking.ScoredOfMembers | project/run_pipeline.py:107-113 | the scored list holds exactly the outline entries that pass the filter, each with its similarity to the prompt |
| Ranking.TakeSplit | project/run_pipeline.py:114 | `xs[:n]` is a prefix of `xs` of length min(n, len) for n >= 0 and max(len + n, 0) for n < 0 |
| Ranking.TopSectionsLength | project/run_pipeline.py:114 | the result has min(max_sections, scored entries) entries for a non-negative bound, so at most max_sections |
| Ranking.TopSectionsSorted | project/run_pipeline.py:114 | the returned scores do not increase |
| Ranking.TopSectionsQualify | project/run_pipeline.py:108-113 | every returned entry is from the outline, has at least 3 words, is not "overview"/"conclusion", and carries its similarity to the prompt |
| Ranking.TopSectionsDominate | project/run_pipeline.py:114 | the result is drawn from the scored entries, and every returned entry scores at least as high as every scored entry left out |
| Ranking.TopSectionsTies | project/run_pipeline.py:114 | for every score, the returned entries of that score are the first ones of that score in outline order |
| Report.BuildFinalOutput | project/run_pipeline.py:116-155 | the loop with its rank counter and two appended lists computes the report of the definition |
| Report.AppendSections | project/run_pipeline.py:136-150 | the inner loop appends one extracted section and one analysis per top section, ranks counting on, keeping the lists equal to the definition's for the picks so far |
| Report.ReportAligned | project/run_pipeline.py:124-152 | the two lists have equal length and agree on document and page, ranks are 1..N in list order, and the metadata lists the requested filenames in order |
| Report.PickOrigin | project/run_pipeline.py:134-135 | every listed section is a top section of a document of that name |
| Report.ReportSections | project/run_pipeline.py:135-149 | every extracted section is an outline entry of its document with at least 3 words; its refined text is never empty and is either the text under its heading or the title |
| Report.SectionsOfAppend | project/run_pipeline.py:134-150 | per-document selection distributes over concatenation |
| Report.NoSectionsFor | project/run_pipeline.py:134-150 | a name that is not a key of the outline dictionary gets no sections |
| Report.DocumentSections | project/run_pipeline.py:134-150 | with distinct keys, the sections listed for a document are exactly its own top sections, in order |
| Report.RowsOfPicks | project/run_pipeline.py:136-141 | a document's extracted rows are the titles and pages of its listed sections |
| Report.PerDocument | project/run_pipeline.py:134-141 | a document's extracted sections are the titles and pages of its top sections, so there are at most 2 |
| Pipeline.CollectOutlines | project/run_pipeline.py:168-175 | the loop over requested filenames builds the dictionary of the definition |
| Pipeline.RunPipeline | project/run_pipeline.py:168-177 | the report is built from the collected outlines |
| Pipeline.Lookup | project/run_pipeline.py:174 | the value under a key, none exactly when no pair has that key |
| Pipeline.PutKeys | project/run_pipeline.py:174 | assignment keeps keys distinct and in place, adding a new key last |
| Pipeline.PutLookup | project/run_pipeline.py:174 | after assignment the key holds the new value and every other key keeps its value |
| Pipeline.CollectKeys | project/run_pipeline.py:171-176 | the keys are distinct: each requested document with an outline, once, in order of first request |
| Pipeline.CollectLookup | project/run_pipeline.py:171-176 | a filename holds its stored outline exactly when it was requested and the outline exists |
| Pipeline.RunPerDocument | project/run_pipeline.py:168-177 | a requested document with an outline contributes the titles and pages of its top sections, in order; any other filename contributes nothing |

## Left out

- PDF parsing (`fitz.open`, `page.get_text`, `doc.load_page`) is foreign code. A document is
  given as pages of blocks of lines for the outline, and as pages of block texts for the
  section scan. A document that cannot be opened is `None`.
- A span's missing `size` or `flags` key (read with `.get(..., 0)`) and a block without
  `lines` are not modelled separately. The caller gives 0, or an empty list of lines.
- `sentence_model.encode` and `util.cos_sim` (neural embedding and floating-point cosine) are
  an arbitrary function from (prompt, section text) to a real score. NaN scores are not modelled.
- The UTC timestamp is a parameter. Model loading, argparse, directory creation, JSON
  reading and writing, and console logging are not modelled.
- `generate_all_outlines` (outline caching) is not modelled. The stored outline of a filename
  is a parameter of `Pipeline`. `None` stands for a missing outline file, including one that
  failed to be generated. A cache file written by an earlier run may hold anything.
- The missing-`input.json` early return of `run_pipeline` is not modelled.
- model.py is not part of this model: it only downloads and saves an embedding model.
- SectionText.ExtractTextUnderHeading: a page number below 1 gives `""`. PyMuPDF's
  `load_page` may instead accept a negative index as counting from the end. Pages in the
  pipeline always come from outline entries, which are numbered from 1.
- Text.IsDigit, Text.LowerChar: `\d` and `str.lower()` are modelled on ASCII only. Python also
  treats other Unicode digits as `\d` and lower-cases non-ASCII letters.
- Any exception in the section scan, other than a missing document or page, is not modelled.
  Such exceptions are caught and logged, and give `""`.
