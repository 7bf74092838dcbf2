# Planning search: a Dafny model of the selection pipeline of `Research.py`

`Research.py` is a small Streamlit page for searching "Consultation du planning des af"
spreadsheets. The user uploads yearly planning workbooks and types an affair title. The page
then lists, file by file, the affair titles whose sentence-embedding cosine similarity to the
query is above 0.7. Each listed match shows its score, its title and its site.

This project models the deterministic part of that page. The embedding model, cosine
similarity and the spreadsheet parser are treated as opaque inputs.

- **Expected names** (`file_names.dfy`, module `FileNames`): the ten names
  `"Consultation du planning des af " + year + ".xlsx"`, for the years 2015 to 2024.
- **Upload loop** (`loading.dfy`, `collection.dfy`): each upload is classified as loaded,
  read error or ignored.
  - The name→table dictionary is an insertion-ordered sequence of entries. Assigning to an
    existing key replaces its table in place; a new key is appended.
  - `Load` processes the uploads first to last.
- **Tables** (`tables.dfy`): a sheet is a rectangular grid of cells, each `Missing` or
  `Value(text)`. Column 1 holds the affair title and column 3, when present, the site.
  `ExtractTitles` is column 1 with missing cells dropped.
- **Scoring** (`scoring.dfy`): the similarity of the query to one title is a function
  parameter `sim`.
  - A file is scored when it has a second column and at least one present title. It gets
    one score per present title.
  - `HighIndices` selects the positions whose score is strictly above 0.7.
- **Selection and display** (`selection.dfy`):
  - Each selected position becomes a `MatchRecord` of score, title cell and site cell.
  - Each file with a match becomes a `Section`.
  - `Report` is the display loop with its found flag. `RunQuery` is the whole query.

The selected positions index the title list after missing cells are dropped (line 60). The
record is then read with the same number as a row of the whole sheet (lines 76-77). The model
keeps both readings as the datatype `Reading`:

- `AsWritten` reads row `idx`, as the code does.
- `Corrected` reads the row whose title was scored at position `idx`.

The lemmas say exactly when the two readings agree. A concrete sheet shows them disagreeing
(see Findings).

## Model

| member | source | states |
|---|---|---|
| FileNames.DecimalText | Research.py:13 | the rendering of a year is non-empty and made only of decimal digits |
| FileNames.ParseDecimalText | Research.py:13 | reading the rendering back as a decimal number gives the original number, so distinct years render differently |
| FileNames.ExpectedFiles | Research.py:12-14 | the expected list, one name per year from 2015 to 2024 in year order; it has no contract of its own, and the rows for AcceptedIffYearInRange and TenExpectedNames characterise it |
| FileNames.IsExpected | Research.py:30 | acceptance is exact membership in the expected list; it has no contract of its own, and the rows for AcceptedIffYearInRange, AcceptedShape and PaddedNameRejected characterise it |
| FileNames.AcceptedIffYearInRange | Research.py:12-14 | a name is in the expected list exactly when it is the prefix, the decimal year and ".xlsx" for some year with 2015 <= year < 2025 |
| FileNames.TenExpectedNames | Research.py:12-14 | the expected list has no repeats and exactly ten distinct names are accepted |
| FileNames.YearOfExpectedName | Research.py:13 | the year can be read back from the generated name, so each name stands for one year |
| FileNames.AcceptedShape | Research.py:12-14 | every accepted name is the prefix, four year digits and the suffix, with that exact length |
| FileNames.PaddedNameRejected | Research.py:30 | membership is exact string equality: an accepted name with anything added before or after it is rejected |
| Collection.GetFound | Research.py:33 | a key lookup succeeds exactly when the key is among the dictionary's names, and returns a table stored under that key |
| Collection.Put | Research.py:33 | after assigning a table to a key, looking that key up returns that table |
| Collection.PutNames | Research.py:33 | assignment to an existing key keeps the key order; assignment to a new key appends it last |
| Collection.PutOtherKey | Research.py:33 | assignment to one key leaves the lookup of every other key unchanged |
| Collection.PutKeepsDistinct | Research.py:33 | assignment never creates a duplicate key |
| Loading.Classify | Research.py:30-38 | an upload is ignored exactly when its name is not expected, is loaded exactly when its name is expected and it parsed, and otherwise reports the parser's failure cause |
| Loading.Load | Research.py:27-38 | the loop over the uploads in order, starting from an empty dictionary; it has no contract of its own, and the rows for LoadLookup, LoadKeys and LoadNamesOrder state its result |
| Loading.LoadStep | Research.py:29-38 | a rejected name or a failed parse leaves the dictionary unchanged; a successful parse of an accepted name makes its key map to the parsed table |
| Loading.LoadStepFrame | Research.py:29-38 | one upload changes at most the entry under its own name |
| Loading.LoadLookup | Research.py:28-38 | after the loop, an unexpected name maps to nothing and an expected name maps to its last successfully parsed table, if any |
| Loading.LoadKeepsLastParse | Research.py:33 | when the same accepted name is uploaded several times, the last successful parse wins |
| Loading.LoadKeys | Research.py:30-33 | the keys after the loop are exactly the accepted names with at least one successful parse |
| Loading.LoadNamesOrder | Research.py:29-33 | keys appear once each, in the order of their first successful load |
| Loading.LoadValid | Research.py:32-33 | stored tables only come from successful parses, so when every parsed sheet is rectangular every stored table is too |
| Tables.PresentRows | Research.py:60 | every listed row is a row of the sheet whose title is present, and there are no more listed rows than rows |
| Tables.PresentRowsIncreasing | Research.py:60 | the titles that survive are kept in row order, each row once |
| Tables.PresentRowsExact | Research.py:60 | a row's title survives the dropping of missing cells exactly when it is not missing |
| Tables.ExtractTitles | Research.py:60 | there is one text per present title, at most one per row, and the k-th text is the title of the k-th present row |
| Tables.PresentRowsWithoutGaps | Research.py:60 | with no missing title at or before row idx, filtered position idx is row idx |
| Scoring.ScoreFile | Research.py:59-65 | a file is scored exactly when it has more than one column and some present title, with one score per present title |
| Scoring.ScoreFileEligible | Research.py:59-62 | the eligibility test is stated in terms of the sheet's rows: a second column and a row whose title is not missing |
| Scoring.ScoreFileAligned | Research.py:60-64 | the k-th score is the similarity of the query to the k-th present title, so scores follow the rows in row order |
| Scoring.ScoreAll | Research.py:55-65 | every entry of the score dictionary has a title column and one score per present title |
| Scoring.ScoreAllSound | Research.py:58-65 | every entry of the score dictionary is a loaded file with that file's scores |
| Scoring.ScoreAllComplete | Research.py:58-65 | every scorable loaded file has an entry in the score dictionary |
| Scoring.ScoreAllInOrder | Research.py:58-65 | the score dictionary lists files in the loaded dictionary's order |
| Scoring.HighIndices | Research.py:70 | every selected position is in range and has a score above 0.7 |
| Scoring.HighIndicesIncreasing | Research.py:70 | selected positions are strictly increasing, as `np.where` returns them |
| Scoring.HighIndicesExact | Research.py:70 | a position is selected exactly when its score is strictly above 0.7; a score equal to 0.7 is not selected |
| Scoring.SelectIndices | Research.py:70 | the left-to-right scan selects the same positions as the reference definition |
| Selection.SourceRow | Research.py:60-77 | under either reading the row read is a row of the sheet, so the lookups stay in bounds; under the corrected reading its title is the scored text |
| Selection.Records | Research.py:74-81 | one record per selected position, in selection order, carrying that position's score |
| Selection.RecordSite | Research.py:77 | the site is column 3 of the same row when the sheet has more than three columns, "N/A" otherwise |
| Selection.SectionOf | Research.py:72-81 | a file's section has its name, one record per selected position, and only records above 0.7 |
| Selection.Selected | Research.py:69-72 | every listed file is a position of the score dictionary |
| Selection.Sections | Research.py:68-81 | the sections shown for the files with a match; it has no contract of its own, and the rows for SelectedSound, SelectedComplete, SectionsEmptyIff, SectionsNonEmptyAbove and SectionsInScoreOrder characterise it |
| Selection.SelectedSound | Research.py:72 | every file that gets a heading has a position above 0.7 |
| Selection.SelectedComplete | Research.py:69-72 | every scored file with a position above 0.7 gets a heading |
| Selection.SelectedIncreasing | Research.py:69-72 | headings follow the order of the score dictionary, each file at most once |
| Selection.SectionsSnoc | Research.py:69-84 | one more file adds its section at the end exactly when it has a position above 0.7, and nothing otherwise |
| Selection.SectionsEmptyIff | Research.py:68-72 | there are no sections exactly when no scored file has a selected position |
| Selection.SectionsNonEmptyAbove | Research.py:72-81 | every section shown has at least one record, and every record is above 0.7 |
| Selection.SectionsInScoreOrder | Research.py:69-73 | sections appear in score-dictionary order, skipping files without a match |
| Selection.Report | Research.py:68-84 | the display loop produces exactly the reference sections, and its flag is set exactly when some file has a match |
| Selection.RunQuery | Research.py:49-87 | no search happens exactly when the query or the dictionary is empty; otherwise sections follow the dictionary's order and show only records above 0.7 |
| Selection.RunQueryComplete | Research.py:58-81 | every loaded file with a score above 0.7 is shown, as the section built from that file's own scores |
| Selection.RunQuerySound | Research.py:58-81 | every section shown is built from a loaded file that has a score above 0.7 |
| Selection.NoMatchWarningIff | Research.py:84-87 | the "no similarity above 0.7" warning is shown exactly when no loaded file is scorable with a score above 0.7 |
| Selection.CorrectedShowsScoredTitle | Research.py:74-76 | under the corrected reading each record shows the title that was scored at its position |
| Selection.AsWrittenHarmlessWithoutGaps | Research.py:60-76 | as written, a record shows the scored title and site when no title is missing at or before its row |
| Selection.AsWrittenReadsScoredRowIff | Research.py:60-76 | the row read as written is the scored row exactly when no title is missing at or before it |
| Selection.AsWrittenAgreesWhenNoTitleMissing | Research.py:60-77 | with no missing title in column 1, the two readings give the same records |
| Selection.AsWrittenMisreadsRow | Research.py:60-77 | on a sheet whose first title is missing, the as-written record shows a missing title and the wrong site |
| Selection.GapSheetQuery | Research.py:49-87 | on a one-sheet dictionary whose first title is missing, the whole query shows, as written, a missing title with the wrong site, and, corrected, the matched title with its own site |
| Selection.RejectedUploadsMeanNoSearch | Research.py:30-38 | if every upload has an unexpected name, the dictionary is empty and no search is made |

## Left out

- Streamlit presentation (lines 9, 24, 40-43, 46, 50, 73, 79-82): the title, uploader,
  preview, select box, text input and message texts. The model keeps only which of the three
  per-upload messages is chosen (`Loading.Classify`) and whether the final warning is shown.
- The sentence-embedding model, its caching and `encode` (lines 17-21, 53, 63), together with
  cosine similarity (line 64). These become one parameter `sim`, a function from query and
  title to a real score. Applying the same function to the same text twice gives the same
  score, which the embedder's determinism promises.
- The spreadsheet parser (line 32): an upload carries its parse outcome, either a table or
  the failure message.
- How pandas renders cell values as text (`astype(str)`, line 60): a present cell is taken
  as its text.
- Scoring.HighIndices: compares exact reals with 7/10. The source compares a float32 cosine
  with the float64 literal 0.7, and that rounding is not modelled.
- Tables.Valid: parsed sheets are assumed rectangular. The source reads the column count
  from the whole frame, so the "more than one" and "more than three" column tests are per
  sheet, not per row.

## Findings

| source | as written | input that shows it | evidently intended | confidence | as-written member | corrected member |
|---|---|---|---|---|---|---|
| Research.py:60-77 | a selected position of the title list with missing cells dropped is used as a row number of the whole sheet | a sheet whose row 0 has a missing title and site "Paris", and whose row 1 has title "Build server" and site "Lyon"; the query "Build server" selects position 0, and as written the record shows row 0: a missing title and "Paris" | the record shows the row whose title was scored: "Build server" and "Lyon" | not executed; follows from lines 60 and 76 | Selection.GapSheetQuery | Selection.CorrectedShowsScoredTitle |
