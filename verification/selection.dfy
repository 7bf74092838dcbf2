/** Match selection and result shaping: for each scored file, the
    rows above the threshold become records of score, matched title and site, and
    a flag records whether any file had a match.

    The selected positions index the title list with missing cells dropped, but
    the record lookup reads them back as row numbers of the whole sheet. `Reading` keeps
    both: `AsWritten` is the code as it stands, `Corrected` maps a position back
    to the row whose title was scored. */
module Selection {
  import opened Wrappers
  import opened Seqs
  import opened Tables
  import opened Collection
  import opened FileNames
  import opened Loading
  import opened Scoring

  datatype MatchRecord = MatchRecord(score: real, sentence: Cell, site: Cell)

  /** Site shown for a sheet without a site column. */
  const NotAvailable: Cell := Value("N/A")

  datatype Reading = AsWritten | Corrected

  /** The sheet row a selected position is read from. Under either reading it is
      a row of the sheet, so the title and site lookups stay in bounds; under the
      corrected reading it is the row whose title was scored at that position. */
  function SourceRow(t: Table, idx: nat, reading: Reading): (row: nat)
    requires Valid(t) && HasTitle(t) && idx < |PresentRows(t)|
    ensures row < |t.rows|
    ensures reading == Corrected ==> t.rows[row][TitleColumn] == Value(ExtractTitles(t)[idx])
  {
    match reading
    case AsWritten => idx
    case Corrected => PresentRows(t)[idx]
  }

  /** One record per selected position, in selection order. */
  function Records(t: Table, scores: seq<real>, sel: seq<nat>, reading: Reading): (recs: seq<MatchRecord>)
    requires Valid(t) && HasTitle(t) && |scores| == |PresentRows(t)|
    requires forall k :: 0 <= k < |sel| ==> sel[k] < |scores|
    ensures |recs| == |sel|
    ensures forall k :: 0 <= k < |sel| ==> recs[k].score == scores[sel[k]]
  {
    seq(|sel|, k requires 0 <= k < |sel| =>
      var row := SourceRow(t, sel[k], reading);
      MatchRecord(scores[sel[k]], t.rows[row][TitleColumn],
                  if HasSite(t) then t.rows[row][SiteColumn] else NotAvailable))
  }

  /** The site is read from the same row as the title when the sheet has
      more than three columns, and is "N/A" otherwise. */
  lemma RecordSite(t: Table, scores: seq<real>, sel: seq<nat>, reading: Reading, k: nat)
    requires Valid(t) && HasTitle(t) && |scores| == |PresentRows(t)|
    requires forall j :: 0 <= j < |sel| ==> sel[j] < |scores|
    requires k < |sel|
    ensures HasSite(t) ==>
      Records(t, scores, sel, reading)[k].site == t.rows[SourceRow(t, sel[k], reading)][SiteColumn]
    ensures !HasSite(t) ==> Records(t, scores, sel, reading)[k].site == NotAvailable
  {
  }

  /** The results shown under one file's heading. */
  datatype Section = Section(name: string, records: seq<MatchRecord>)

  /** Every record of the section is strictly above the threshold. */
  predicate AboveThreshold(s: Section) {
    forall j :: 0 <= j < |s.records| ==> s.records[j].score > Threshold
  }

  /** One file's section: a record per selected position, all above the threshold. */
  function SectionOf(f: Scored, reading: Reading): (s: Section)
    requires WellScored(f)
    ensures s.name == f.name
    ensures |s.records| == |HighIndices(f.scores)|
    ensures AboveThreshold(s)
  {
    Section(f.name, Records(f.table, f.scores, HighIndices(f.scores), reading))
  }

  function SectionNames(ss: seq<Section>): seq<string> {
    seq(|ss|, i requires 0 <= i < |ss| => ss[i].name)
  }

  /** A scored file has at least one position above the threshold. */
  predicate Selects(f: Scored) {
    |HighIndices(f.scores)| > 0
  }

  /** The positions in the score dictionary of the files with a match, in order. */
  function Selected(fs: seq<Scored>): (ix: seq<nat>)
    ensures forall j :: 0 <= j < |ix| ==> ix[j] < |fs|
    decreases |fs|
  {
    if fs == [] then []
    else
      var n := |fs| - 1;
      Selected(fs[..n]) + if Selects(fs[n]) then [n] else []
  }

  /** The displayed sections: one per file with a match, in score-dictionary order. */
  function Sections(fs: seq<Scored>, reading: Reading): seq<Section>
    requires forall k :: 0 <= k < |fs| ==> WellScored(fs[k])
  {
    var ix := Selected(fs);
    seq(|ix|, j requires 0 <= j < |ix| => SectionOf(fs[ix[j]], reading))
  }

  /** No file of `fs` has a selected position. */
  predicate NoneSelected(fs: seq<Scored>) {
    forall k :: 0 <= k < |fs| ==> !Selects(fs[k])
  }

  /** Every listed file has a match. */
  lemma {:induction false} SelectedSound(fs: seq<Scored>, j: nat)
    requires j < |Selected(fs)|
    ensures Selects(fs[Selected(fs)[j]])
    decreases |fs|
  {
    var n := |fs| - 1;
    var ix := Selected(fs[..n]);
    if j < |ix| {
      SelectedSound(fs[..n], j);
      assert fs[..n][ix[j]] == fs[ix[j]];
    }
  }

  /** Every file with a match is listed, at position `j` of the list. */
  lemma {:induction false} SelectedComplete(fs: seq<Scored>, k: nat) returns (j: nat)
    requires k < |fs| && Selects(fs[k])
    ensures j < |Selected(fs)| && Selected(fs)[j] == k
    decreases |fs|
  {
    var n := |fs| - 1;
    var ix := Selected(fs[..n]);
    assert Selected(fs) == ix + if Selects(fs[n]) then [n] else [];
    if k < n {
      assert fs[..n][k] == fs[k];
      j := SelectedComplete(fs[..n], k);
      assert Selected(fs)[j] == ix[j];
    } else {
      j := |ix|;
    }
  }

  /** The matching files are listed in score-dictionary order. */
  lemma {:induction false} SelectedIncreasing(fs: seq<Scored>)
    ensures StrictlyIncreasing(Selected(fs))
    decreases |fs|
  {
    if fs != [] {
      SelectedIncreasing(fs[..|fs| - 1]);
    }
  }

  /** The display after file `i`: the sections after the files before it, followed
      by its own section when it has a selected position. */
  lemma SectionsSnoc(fs: seq<Scored>, reading: Reading, i: nat)
    requires i < |fs| && forall k :: 0 <= k < |fs| ==> WellScored(fs[k])
    ensures Selects(fs[i]) ==>
      Sections(fs[..i + 1], reading) == Sections(fs[..i], reading) + [SectionOf(fs[i], reading)]
    ensures !Selects(fs[i]) ==> Sections(fs[..i + 1], reading) == Sections(fs[..i], reading)
  {
    var before := fs[..i];
    var after := fs[..i + 1];
    assert after[..i] == before;
    var ix := Selected(before);
    assert Selected(after) == ix + if Selects(fs[i]) then [i] else [];
    var sa := Sections(after, reading);
    var sb := Sections(before, reading);
    forall j | 0 <= j < |ix|
      ensures sa[j] == sb[j]
    {
      assert after[ix[j]] == before[ix[j]];
    }
    if Selects(fs[i]) {
      assert sa[|ix|] == SectionOf(fs[i], reading);
      assert sa == sb + [SectionOf(fs[i], reading)];
    } else {
      assert sa == sb;
    }
  }

  /** There are no sections exactly when no file has a selected position. */
  lemma SectionsEmptyIff(fs: seq<Scored>, reading: Reading)
    requires forall k :: 0 <= k < |fs| ==> WellScored(fs[k])
    ensures |Sections(fs, reading)| == 0 <==> NoneSelected(fs)
  {
    if |Selected(fs)| > 0 {
      SelectedSound(fs, 0);
    }
    if !NoneSelected(fs) {
      var k :| 0 <= k < |fs| && Selects(fs[k]);
      var j := SelectedComplete(fs, k);
    }
  }

  /** Each section shown has at least one record and only above-threshold records. */
  lemma SectionsNonEmptyAbove(fs: seq<Scored>, reading: Reading)
    requires forall k :: 0 <= k < |fs| ==> WellScored(fs[k])
    ensures forall i :: 0 <= i < |Sections(fs, reading)| ==>
      |Sections(fs, reading)[i].records| > 0 && AboveThreshold(Sections(fs, reading)[i])
  {
    forall i | 0 <= i < |Sections(fs, reading)|
      ensures |Sections(fs, reading)[i].records| > 0
    {
      SelectedSound(fs, i);
    }
  }

  /** Sections keep the order of the score dictionary. */
  lemma SectionsInScoreOrder(fs: seq<Scored>, reading: Reading)
    requires forall k :: 0 <= k < |fs| ==> WellScored(fs[k])
    ensures IsSubsequence(SectionNames(Sections(fs, reading)), ScoredNames(fs))
  {
    SelectedIncreasing(fs);
    PickedSubsequence(SectionNames(Sections(fs, reading)), ScoredNames(fs), Selected(fs));
  }

  /** The display loop over the score dictionary, with its found flag. */
  method Report(fs: seq<Scored>, reading: Reading) returns (ss: seq<Section>, found: bool)
    requires forall k :: 0 <= k < |fs| ==> WellScored(fs[k])
    ensures found <==> !NoneSelected(fs)
    ensures ss == Sections(fs, reading)
  {
    ss := [];
    found := false;
    for i := 0 to |fs|
      invariant ss == Sections(fs[..i], reading)
      invariant found <==> |ss| > 0
    {
      var sel := SelectIndices(fs[i].scores);
      SectionsSnoc(fs, reading, i);
      if |sel| > 0 {
        ss := ss + [Section(fs[i].name, Records(fs[i].table, fs[i].scores, sel, reading))];
        found := true;
      }
    }
    assert fs[..|fs|] == fs;
    SectionsEmptyIff(fs, reading);
  }

  /** The outcome of one query: no search at all, or the sections and whether the
      "no similarity above 0.7" warning is shown. */
  datatype QueryOutcome = NotSearched | Searched(sections: seq<Section>, noMatchWarning: bool)

  /** The whole query: the search runs only for a non-empty query and a non-empty
      dictionary; sections follow the dictionary's order and hold only
      above-threshold records. */
  function RunQuery(query: string, c: TableCollection, sim: Similarity, reading: Reading): (out: QueryOutcome)
    requires ValidCollection(c)
    ensures out.NotSearched? <==> query == [] || |c| == 0
    ensures out.Searched? ==> IsSubsequence(SectionNames(out.sections), Names(c))
    ensures out.Searched? ==> forall i :: 0 <= i < |out.sections| ==> AboveThreshold(out.sections[i])
  {
    if query == [] || |c| == 0 then NotSearched
    else
      var fs := ScoreAll(query, c, sim);
      var ss := Sections(fs, reading);
      SectionsNonEmptyAbove(fs, reading);
      SectionsInScoreOrder(fs, reading);
      ScoreAllInOrder(query, c, sim);
      SubsequenceTransitive(SectionNames(ss), ScoredNames(fs), Names(c));
      Searched(ss, |ss| == 0)
  }

  /** A file yields at least one match: it is scorable and some score is above the threshold. */
  predicate FileMatches(query: string, t: Table, sim: Similarity)
    requires Valid(t)
  {
    var r := ScoreFile(query, t, sim);
    r.Some? && |HighIndices(r.value)| > 0
  }

  /** The warning is shown exactly when no file of the dictionary has a match. */
  lemma NoMatchWarningIff(query: string, c: TableCollection, sim: Similarity, reading: Reading)
    requires ValidCollection(c) && query != [] && c != []
    ensures RunQuery(query, c, sim, reading).noMatchWarning <==>
      forall i :: 0 <= i < |c| ==> !FileMatches(query, c[i].table, sim)
  {
    var fs := ScoreAll(query, c, sim);
    SectionsEmptyIff(fs, reading);
    if exists i :: 0 <= i < |c| && FileMatches(query, c[i].table, sim) {
      var i :| 0 <= i < |c| && FileMatches(query, c[i].table, sim);
      var k := ScoreAllComplete(query, c, sim, i);
      assert |HighIndices(fs[k].scores)| > 0;
    }
    if exists k :: 0 <= k < |fs| && |HighIndices(fs[k].scores)| > 0 {
      var k :| 0 <= k < |fs| && |HighIndices(fs[k].scores)| > 0;
      var i := ScoreAllSound(query, c, sim, k);
      assert FileMatches(query, c[i].table, sim);
    }
  }

  /** Every file of the dictionary that has a match is shown, as the section of its scores. */
  lemma RunQueryComplete(query: string, c: TableCollection, sim: Similarity, reading: Reading, i: nat)
    returns (j: nat)
    requires ValidCollection(c) && query != [] && i < |c| && FileMatches(query, c[i].table, sim)
    ensures j < |RunQuery(query, c, sim, reading).sections|
    ensures RunQuery(query, c, sim, reading).sections[j] ==
      SectionOf(Scored(c[i].name, c[i].table, ScoreFile(query, c[i].table, sim).value), reading)
  {
    var fs := ScoreAll(query, c, sim);
    var k := ScoreAllComplete(query, c, sim, i);
    j := SelectedComplete(fs, k);
  }

  /** Every section shown is the section of a file of the dictionary that has a match. */
  lemma RunQuerySound(query: string, c: TableCollection, sim: Similarity, reading: Reading, j: nat)
    returns (i: nat)
    requires ValidCollection(c) && query != [] && |c| > 0
    requires j < |RunQuery(query, c, sim, reading).sections|
    ensures i < |c| && FileMatches(query, c[i].table, sim)
    ensures RunQuery(query, c, sim, reading).sections[j] ==
      SectionOf(Scored(c[i].name, c[i].table, ScoreFile(query, c[i].table, sim).value), reading)
  {
    var fs := ScoreAll(query, c, sim);
    SelectedSound(fs, j);
    i := ScoreAllSound(query, c, sim, Selected(fs)[j]);
  }

  /** Under the corrected reading every record shows the title that was scored. */
  lemma CorrectedShowsScoredTitle(t: Table, scores: seq<real>, sel: seq<nat>, k: nat)
    requires Valid(t) && HasTitle(t) && |scores| == |PresentRows(t)|
    requires forall j :: 0 <= j < |sel| ==> sel[j] < |scores|
    requires k < |sel|
    ensures Records(t, scores, sel, Corrected)[k].sentence == Value(ExtractTitles(t)[sel[k]])
  {
  }

  /** The as-written lookup is harmless for a selected position when no title is
      missing at or before that row: both readings give the same record, which shows
      the scored title. */
  lemma AsWrittenHarmlessWithoutGaps(t: Table, scores: seq<real>, sel: seq<nat>, k: nat)
    requires Valid(t) && HasTitle(t) && |scores| == |PresentRows(t)|
    requires forall j :: 0 <= j < |sel| ==> sel[j] < |scores|
    requires k < |sel|
    requires forall r :: 0 <= r <= sel[k] && r < |t.rows| ==> TitlePresent(t, r)
    ensures Records(t, scores, sel, AsWritten)[k] == Records(t, scores, sel, Corrected)[k]
    ensures Records(t, scores, sel, AsWritten)[k].sentence == Value(ExtractTitles(t)[sel[k]])
  {
    PresentRowsWithoutGaps(t, sel[k]);
  }

  /** The row read as written at filtered position `idx` is the row whose title was
      scored exactly when no title is missing at or before row `idx`. */
  lemma AsWrittenReadsScoredRowIff(t: Table, idx: nat)
    requires Valid(t) && HasTitle(t) && idx < |PresentRows(t)|
    ensures SourceRow(t, idx, AsWritten) == SourceRow(t, idx, Corrected) <==>
      forall r :: 0 <= r <= idx ==> TitlePresent(t, r)
  {
    var p := PresentRows(t);
    PresentRowsIncreasing(t);
    if forall r :: 0 <= r <= idx ==> TitlePresent(t, r) {
      PresentRowsWithoutGaps(t, idx);
    }
    if p[idx] == idx {
      forall r | 0 <= r <= idx
        ensures TitlePresent(t, r)
      {
        IncreasingSpread(p, r, idx);
        assert p[r] == r;
      }
    }
  }

  /** With no missing title anywhere in column 1, the two readings agree on every record. */
  lemma AsWrittenAgreesWhenNoTitleMissing(t: Table, scores: seq<real>, sel: seq<nat>)
    requires Valid(t) && HasTitle(t) && |scores| == |PresentRows(t)|
    requires forall j :: 0 <= j < |sel| ==> sel[j] < |scores|
    requires forall r :: 0 <= r < |t.rows| ==> TitlePresent(t, r)
    ensures Records(t, scores, sel, AsWritten) == Records(t, scores, sel, Corrected)
  {
    forall k | 0 <= k < |sel|
      ensures Records(t, scores, sel, AsWritten)[k] == Records(t, scores, sel, Corrected)[k]
    {
      AsWrittenHarmlessWithoutGaps(t, scores, sel, k);
    }
  }

  /** A sheet whose first title is missing. */
  const GapSheet: Table := Table(4, [
    [Value("1"), Missing, Value("a"), Value("Paris")],
    [Value("2"), Value("Build server"), Value("b"), Value("Lyon")]
  ])

  /** Exact-text similarity, standing in for the embedding model. */
  function ExactMatch(q: string, s: string): real {
    if q == s then 1.0 else 0.0
  }

  /** In the sample sheet only row 1 has a title, so filtered position 0 is row 1. */
  lemma GapSheetTitles()
    ensures Valid(GapSheet) && HasTitle(GapSheet)
    ensures PresentRows(GapSheet) == [1]
    ensures ExtractTitles(GapSheet) == ["Build server"]
  {
    var t := GapSheet;
    assert Valid(t);
    assert PresentRowsFrom(t, 2) == [];
    assert PresentRowsFrom(t, 1) == [1];
    assert TitlesFrom(t, 2) == [];
    assert TitlesFrom(t, 1) == ["Build server"];
  }

  /** Querying the sample sheet for its one title scores that title 1 and selects position 0. */
  lemma GapSheetSelection()
    ensures Valid(GapSheet)
    ensures ScoreFile("Build server", GapSheet, ExactMatch) == Some([1.0])
    ensures HighIndices([1.0]) == [0]
  {
    GapSheetTitles();
    var r := ScoreFile("Build server", GapSheet, ExactMatch);
    assert r.Some? && |r.value| == 1;
    assert r.value[0] == ExactMatch("Build server", "Build server") == 1.0;
    assert r.value == [1.0];
    assert HighIndicesFrom([1.0], 1) == [];
  }

  /** The selected position 0 is shown, as written, with row 0's missing title and
      row 0's site; corrected, with the matched row's title and site. */
  lemma AsWrittenMisreadsRow()
    ensures Valid(GapSheet) && HasTitle(GapSheet) && |PresentRows(GapSheet)| == 1
    ensures Records(GapSheet, [1.0], [0], AsWritten) == [MatchRecord(1.0, Missing, Value("Paris"))]
    ensures Records(GapSheet, [1.0], [0], Corrected) == [MatchRecord(1.0, Value("Build server"), Value("Lyon"))]
  {
    GapSheetTitles();
    assert SourceRow(GapSheet, 0, AsWritten) == 0;
    assert SourceRow(GapSheet, 0, Corrected) == 1;
  }

  /** The whole query on a dictionary holding only the sample sheet: as written, the
      one section shows row 0's missing title and site "Paris"; corrected, it shows
      the matched title "Build server" and its site "Lyon". */
  lemma GapSheetQuery(name: string)
    ensures RunQuery("Build server", [Entry(name, GapSheet)], ExactMatch, AsWritten) ==
      Searched([Section(name, [MatchRecord(1.0, Missing, Value("Paris"))])], false)
    ensures RunQuery("Build server", [Entry(name, GapSheet)], ExactMatch, Corrected) ==
      Searched([Section(name, [MatchRecord(1.0, Value("Build server"), Value("Lyon"))])], false)
  {
    var c := [Entry(name, GapSheet)];
    GapSheetSelection();
    AsWrittenMisreadsRow();
    assert ValidCollection(c);
    assert c[1..] == [];
    var f := Scored(name, GapSheet, [1.0]);
    var fs := ScoreAll("Build server", c, ExactMatch);
    assert ScoreAll("Build server", c[1..], ExactMatch) == [];
    assert ScoreFile("Build server", c[0].table, ExactMatch) == Some([1.0]);
    assert fs == [f] + [];
    assert Selects(f);
    assert fs[..0] == [];
    assert Selected(fs) == [0];
    assert Sections(fs, AsWritten) == [SectionOf(f, AsWritten)];
    assert Sections(fs, Corrected) == [SectionOf(f, Corrected)];
  }

  /** Uploads that are all rejected leave nothing to search, whatever the query. */
  lemma {:induction false} RejectedUploadsMeanNoSearch(us: seq<Upload>, query: string, sim: Similarity, reading: Reading)
    requires forall i :: 0 <= i < |us| ==> !IsExpected(us[i].name)
    ensures Load(us) == []
    ensures RunQuery(query, Load(us), sim, reading) == NotSearched
    decreases |us|
  {
    if us != [] {
      RejectedUploadsMeanNoSearch(us[..|us| - 1], query, sim, reading);
    }
  }
}
