/** The part of `run_pipeline` in project/run_pipeline.py that decides which documents reach the
    report: a requested document enters the outline dictionary only when its outline is
    available, keyed by its filename, in request order. Whether an outline file exists and
    what it holds is a parameter. */
module Pipeline {
  import opened Wrappers
  import opened Outline
  import opened SectionText
  import opened Ranking
  import opened Report

  /** The stored outline for a filename, `None` when no outline file exists. */
  type OutlineStore = string -> Option<seq<Entry>>

  /** Dictionary assignment `table[name] = outline`: an existing key keeps its position and takes
      the new value, a new key goes last. */
  function Put(table: OutlineTable, name: string, outline: seq<Entry>): OutlineTable {
    if table == [] then [(name, outline)]
    else if table[0].0 == name then [(name, outline)] + table[1..]
    else [table[0]] + Put(table[1..], name, outline)
  }

  /** The outline dictionary after walking the requested filenames. */
  function Collect(files: seq<string>, stored: OutlineStore): OutlineTable {
    if files == [] then []
    else
      var table, f := Collect(files[..|files| - 1], stored), files[|files| - 1];
      match stored(f)
      case Some(outline) => Put(table, f, outline)
      case None => table
  }

  method CollectOutlines(files: seq<string>, stored: OutlineStore) returns (table: OutlineTable)
    ensures table == Collect(files, stored)
  {
    table := [];
    for i := 0 to |files|
      invariant table == Collect(files[..i], stored)
    {
      assert files[..i + 1][..i] == files[..i];
      var f := files[i];
      var found := stored(f);
      if found.Some? {
        table := Put(table, f, found.value);
      }
    }
    assert files[..|files|] == files;
  }

  /** The report run_pipeline writes. */
  function RunReport(request: Request, stored: OutlineStore, sim: Scorer, pdfs: PdfStore, timestamp: string): Report {
    FinalOutput(request, Collect(request.documents, stored), sim, pdfs, timestamp)
  }

  method RunPipeline(request: Request, stored: OutlineStore, sim: Scorer, pdfs: PdfStore, timestamp: string)
    returns (report: Report)
    ensures report == RunReport(request, stored, sim, pdfs, timestamp)
  {
    var table := CollectOutlines(request.documents, stored);
    report := BuildFinalOutput(request, table, sim, pdfs, timestamp);
  }

  // ---------------------------------------------------------------------------------------------
  // Lemmas.

  function Keys(table: OutlineTable): seq<string> {
    seq(|table|, i requires 0 <= i < |table| => table[i].0)
  }

  /** The value under a key, `None` when the key is absent. */
  function Lookup(table: OutlineTable, name: string): (r: Option<seq<Entry>>)
    ensures r.None? ==> forall d :: 0 <= d < |table| ==> table[d].0 != name
    ensures r.Some? ==> exists d :: 0 <= d < |table| && table[d] == (name, r.value)
  {
    if table == [] then None
    else if table[0].0 == name then Some(table[0].1)
    else
      var r := Lookup(table[1..], name);
      assert r.Some? ==> exists d :: 0 <= d < |table[1..]| && table[1..][d] == (name, r.value);
      r
  }

  /** Assignment keeps the keys distinct and keeps the old keys in place, adding a new key last. */
  lemma {:induction false} PutKeys(table: OutlineTable, name: string, outline: seq<Entry>)
    requires DistinctKeys(table)
    ensures DistinctKeys(Put(table, name, outline))
    ensures Keys(Put(table, name, outline)) == if name in Keys(table) then Keys(table) else Keys(table) + [name]
  {
    if table != [] && table[0].0 != name {
      var r, r' := Put(table, name, outline), Put(table[1..], name, outline);
      PutKeys(table[1..], name, outline);
      assert Keys(table) == [table[0].0] + Keys(table[1..]);
      assert Keys(r) == [table[0].0] + Keys(r');
      forall i, j | 0 <= i < j < |r| ensures r[i].0 != r[j].0 {
        if i == 0 {
          assert r[j].0 == Keys(r')[j - 1];
          assert table[0].0 !in Keys(table[1..]) by {
            forall m | 0 <= m < |table[1..]| ensures Keys(table[1..])[m] != table[0].0 {
              assert table[1..][m] == table[m + 1];
            }
          }
        } else {
          assert r[i] == r'[i - 1] && r[j] == r'[j - 1];
        }
      }
    } else if table != [] {
      assert Keys(table) == [name] + Keys(table[1..]);
      assert Keys(Put(table, name, outline)) == [name] + Keys(table[1..]);
    }
  }

  /** After assignment the key holds the new value and every other key its old one. */
  lemma {:induction false} PutLookup(table: OutlineTable, name: string, outline: seq<Entry>, k: string)
    ensures Lookup(Put(table, name, outline), k) == if k == name then Some(outline) else Lookup(table, k)
  {
    if table != [] && table[0].0 != name {
      assert Put(table, name, outline)[1..] == Put(table[1..], name, outline);
      PutLookup(table[1..], name, outline, k);
    }
  }

  /** The requested filenames whose outline is available, in request order. */
  function Available(files: seq<string>, stored: OutlineStore): seq<string> {
    if files == [] then []
    else
      var f := files[|files| - 1];
      Available(files[..|files| - 1], stored) + if stored(f).Some? then [f] else []
  }

  /** Each name once, at its first occurrence. */
  function FirstOccurrences(names: seq<string>): seq<string> {
    if names == [] then []
    else
      var init, n := FirstOccurrences(names[..|names| - 1]), names[|names| - 1];
      if n in init then init else init + [n]
  }

  /** The dictionary holds each available requested document once, in order of first request,
      and nothing else. */
  lemma {:induction false} CollectKeys(files: seq<string>, stored: OutlineStore)
    ensures DistinctKeys(Collect(files, stored))
    ensures Keys(Collect(files, stored)) == FirstOccurrences(Available(files, stored))
  {
    if files != [] {
      var init, f := files[..|files| - 1], files[|files| - 1];
      CollectKeys(init, stored);
      var avail := Available(files, stored);
      if stored(f).Some? {
        PutKeys(Collect(init, stored), f, stored(f).value);
        assert avail == Available(init, stored) + [f];
        assert avail[..|avail| - 1] == Available(init, stored);
      } else {
        assert avail == Available(init, stored);
        assert Collect(files, stored) == Collect(init, stored);
      }
    }
  }

  /** A filename maps to its stored outline when it was requested and the outline exists. */
  lemma {:induction false} CollectLookup(files: seq<string>, stored: OutlineStore, k: string)
    ensures Lookup(Collect(files, stored), k) == if k in files then stored(k) else None
  {
    if files != [] {
      var init, f := files[..|files| - 1], files[|files| - 1];
      CollectLookup(init, stored, k);
      assert files == init + [f];
      if stored(f).Some? {
        PutLookup(Collect(init, stored), f, stored(f).value, k);
      }
    }
  }

  /** End to end: the extracted sections of a requested document with an outline are the titles
      and pages of its outline's top sections, in order; a document that was not requested or
      has no outline contributes nothing. */
  lemma RunPerDocument(request: Request, stored: OutlineStore, sim: Scorer, pdfs: PdfStore, timestamp: string, f: string)
    ensures var es := RunReport(request, stored, sim, pdfs, timestamp).extractedSections;
      var prompt := Prompt(request.persona, request.task);
      DocumentRows(es, f) ==
        if f in request.documents && stored(f).Some?
        then TitlesAndPages(TopSections(stored(f).value, prompt, sim, SectionsPerDocument))
        else []
  {
    var prompt := Prompt(request.persona, request.task);
    var table := Collect(request.documents, stored);
    CollectKeys(request.documents, stored);
    CollectLookup(request.documents, stored, f);
    RowsOfPicks(Picks(table, prompt, sim), f);
    match Lookup(table, f)
    case None =>
      NoSectionsFor(table, prompt, sim, f);
    case Some(o) =>
      var d :| 0 <= d < |table| && table[d] == (f, o);
      DocumentSections(table, prompt, sim, d);
  }
}
