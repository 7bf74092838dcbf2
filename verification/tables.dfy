/** A parsed planning sheet, addressed by column position only: column 1 holds
    the affair title that is searched, column 3 (when there is one) the site. */
module Tables {
  import opened Seqs

  /** A cell after parsing: a missing value, or a value as its text rendering. */
  datatype Cell = Missing | Value(text: string)

  /** The number of columns and the data rows; the header row is not a data row. */
  datatype Table = Table(width: nat, rows: seq<seq<Cell>>)

  /** A parsed sheet is rectangular. */
  predicate Valid(t: Table) {
    forall r :: 0 <= r < |t.rows| ==> |t.rows[r]| == t.width
  }

  const TitleColumn: nat := 1
  const SiteColumn: nat := 3

  /** The sheet has more than one column, so the title column exists. */
  predicate HasTitle(t: Table) {
    t.width > TitleColumn
  }

  /** The sheet has more than three columns, so the site column exists. */
  predicate HasSite(t: Table) {
    t.width > SiteColumn
  }

  predicate TitlePresent(t: Table, r: nat)
    requires Valid(t) && HasTitle(t) && r < |t.rows|
  {
    t.rows[r][TitleColumn].Value?
  }

  /** The rows, from `from` on, whose title cell is not missing. */
  function PresentRowsFrom(t: Table, from: nat): (p: seq<nat>)
    requires Valid(t) && HasTitle(t) && from <= |t.rows|
    ensures |p| <= |t.rows| - from
    ensures forall k :: 0 <= k < |p| ==> from + k <= p[k] < |t.rows| && TitlePresent(t, p[k])
    decreases |t.rows| - from
  {
    if from == |t.rows| then []
    else if TitlePresent(t, from) then [from] + PresentRowsFrom(t, from + 1)
    else PresentRowsFrom(t, from + 1)
  }

  /** The row numbers whose title is not missing, in row order. */
  function PresentRows(t: Table): (p: seq<nat>)
    requires Valid(t) && HasTitle(t)
    ensures |p| <= |t.rows|
    ensures forall k :: 0 <= k < |p| ==> k <= p[k] < |t.rows| && TitlePresent(t, p[k])
  {
    PresentRowsFrom(t, 0)
  }

  /** The present rows from `from` on are listed in row order. */
  lemma {:induction false} PresentRowsFromIncreasing(t: Table, from: nat)
    requires Valid(t) && HasTitle(t) && from <= |t.rows|
    ensures StrictlyIncreasing(PresentRowsFrom(t, from))
    decreases |t.rows| - from
  {
    if from < |t.rows| {
      PresentRowsFromIncreasing(t, from + 1);
    }
  }

  /** The present rows are listed in row order, each once. */
  lemma PresentRowsIncreasing(t: Table)
    requires Valid(t) && HasTitle(t)
    ensures StrictlyIncreasing(PresentRows(t))
  {
    PresentRowsFromIncreasing(t, 0);
  }

  /** No row with a present title is dropped. */
  lemma {:induction false} PresentRowsFromComplete(t: Table, from: nat, r: nat)
    requires Valid(t) && HasTitle(t) && from <= r < |t.rows| && TitlePresent(t, r)
    ensures r in PresentRowsFrom(t, from)
    decreases r - from
  {
    if from < r {
      PresentRowsFromComplete(t, from + 1, r);
    }
  }

  /** A row is among the present rows exactly when its title is not missing. */
  lemma PresentRowsExact(t: Table, r: nat)
    requires Valid(t) && HasTitle(t) && r < |t.rows|
    ensures r in PresentRows(t) <==> TitlePresent(t, r)
  {
    if TitlePresent(t, r) {
      PresentRowsFromComplete(t, 0, r);
    }
  }

  /** Column 1 from row `from` on, missing cells dropped, values kept as text. */
  function TitlesFrom(t: Table, from: nat): (texts: seq<string>)
    requires Valid(t) && HasTitle(t) && from <= |t.rows|
    ensures |texts| == |PresentRowsFrom(t, from)|
    ensures forall k :: 0 <= k < |texts| ==> t.rows[PresentRowsFrom(t, from)[k]][TitleColumn] == Value(texts[k])
    decreases |t.rows| - from
  {
    if from == |t.rows| then []
    else match t.rows[from][TitleColumn]
      case Missing => TitlesFrom(t, from + 1)
      case Value(s) => [s] + TitlesFrom(t, from + 1)
  }

  /** The title column with missing cells dropped, as texts: the k-th text is the title of
      the k-th row whose title is present, which is in general not row k. */
  function ExtractTitles(t: Table): (texts: seq<string>)
    requires Valid(t) && HasTitle(t)
    ensures |texts| == |PresentRows(t)| <= |t.rows|
    ensures forall k :: 0 <= k < |texts| ==> t.rows[PresentRows(t)[k]][TitleColumn] == Value(texts[k])
  {
    TitlesFrom(t, 0)
  }

  /** When no title is missing from row `from` to row `idx`, the filtered position
      of row `idx` is its distance from `from`. */
  lemma {:induction false} PresentRowsWithoutGapsFrom(t: Table, from: nat, idx: nat)
    requires Valid(t) && HasTitle(t) && from <= idx < |t.rows|
    requires forall r :: from <= r <= idx ==> TitlePresent(t, r)
    ensures idx - from < |PresentRowsFrom(t, from)|
    ensures PresentRowsFrom(t, from)[idx - from] == idx
    decreases idx - from
  {
    assert TitlePresent(t, from);
    assert PresentRowsFrom(t, from) == [from] + PresentRowsFrom(t, from + 1);
    if from < idx {
      PresentRowsWithoutGapsFrom(t, from + 1, idx);
    }
  }

  /** With no missing title at or before row `idx`, filtered position `idx` is row `idx`. */
  lemma PresentRowsWithoutGaps(t: Table, idx: nat)
    requires Valid(t) && HasTitle(t) && idx < |t.rows|
    requires forall r :: 0 <= r <= idx ==> TitlePresent(t, r)
    ensures idx < |PresentRows(t)| && PresentRows(t)[idx] == idx
  {
    PresentRowsWithoutGapsFrom(t, 0, idx);
  }
}
