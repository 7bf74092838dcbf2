/** Per-file scoring and threshold selection. The sentence-embedding model and
    cosine similarity are one opaque parameter: the similarity of the query to
    one title text. */
module Scoring {
  import opened Wrappers
  import opened Seqs
  import opened Tables
  import opened Collection

  /** The fixed similarity threshold, exactly seven tenths. */
  const Threshold: real := 0.7

  /** Cosine similarity of the embeddings of the query and of one title. */
  type Similarity = (string, string) -> real

  /** Scoring one table: no scores when the title column is absent or
      every title is missing, otherwise one score per present title. */
  function ScoreFile(query: string, t: Table, sim: Similarity): (r: Option<seq<real>>)
    requires Valid(t)
    ensures r.Some? <==> HasTitle(t) && |PresentRows(t)| > 0
    ensures r.Some? ==> |r.value| == |PresentRows(t)|
  {
    if HasTitle(t) then
      var texts := ExtractTitles(t);
      if |texts| > 0 then Some(seq(|texts|, k requires 0 <= k < |texts| => sim(query, texts[k])))
      else None
    else None
  }

  /** A file is scored exactly when it has a title column and some title is present. */
  lemma ScoreFileEligible(query: string, t: Table, sim: Similarity)
    requires Valid(t)
    ensures ScoreFile(query, t, sim).Some? <==>
      HasTitle(t) && exists row :: 0 <= row < |t.rows| && TitlePresent(t, row)
  {
    if HasTitle(t) && |PresentRows(t)| > 0 {
      assert TitlePresent(t, PresentRows(t)[0]);
    }
    if HasTitle(t) && exists row :: 0 <= row < |t.rows| && TitlePresent(t, row) {
      var row :| 0 <= row < |t.rows| && TitlePresent(t, row);
      PresentRowsExact(t, row);
    }
  }

  /** The k-th score is the similarity of the query to the title of the k-th row
      whose title is present: the scores follow the rows, in row order. */
  lemma ScoreFileAligned(query: string, t: Table, sim: Similarity, k: nat)
    requires Valid(t) && ScoreFile(query, t, sim).Some?
    requires k < |ScoreFile(query, t, sim).value|
    ensures ScoreFile(query, t, sim).value[k] == sim(query, t.rows[PresentRows(t)[k]][TitleColumn].text)
  {
  }

  /** One entry of the per-file score dictionary. */
  datatype Scored = Scored(name: string, table: Table, scores: seq<real>)

  /** A scored file's table has a title column and one score per present title. */
  predicate WellScored(f: Scored) {
    Valid(f.table) && HasTitle(f.table) && |f.scores| == |PresentRows(f.table)|
  }

  function ScoredNames(fs: seq<Scored>): seq<string> {
    seq(|fs|, i requires 0 <= i < |fs| => fs[i].name)
  }

  /** The score dictionary: the scorable files of the collection,
      in collection order. */
  function ScoreAll(query: string, c: TableCollection, sim: Similarity): (fs: seq<Scored>)
    requires ValidCollection(c)
    ensures forall k :: 0 <= k < |fs| ==> WellScored(fs[k])
  {
    if |c| == 0 then []
    else
      var rest := ScoreAll(query, c[1..], sim);
      match ScoreFile(query, c[0].table, sim)
      case Some(scores) => [Scored(c[0].name, c[0].table, scores)] + rest
      case None => rest
  }

  /** Every entry of the score dictionary is a file of the collection, at position
      `i`, with that file's scores. */
  lemma {:induction false} ScoreAllSound(query: string, c: TableCollection, sim: Similarity, k: nat)
    returns (i: nat)
    requires ValidCollection(c) && k < |ScoreAll(query, c, sim)|
    ensures i < |c|
    ensures c[i] == Entry(ScoreAll(query, c, sim)[k].name, ScoreAll(query, c, sim)[k].table)
    ensures ScoreFile(query, c[i].table, sim) == Some(ScoreAll(query, c, sim)[k].scores)
    decreases |c|
  {
    var fs := ScoreAll(query, c, sim);
    var rest := ScoreAll(query, c[1..], sim);
    var first := ScoreFile(query, c[0].table, sim);
    if first.Some? && k == 0 {
      i := 0;
    } else {
      var k' := if first.Some? then k - 1 else k;
      assert fs[k] == rest[k'];
      var j := ScoreAllSound(query, c[1..], sim, k');
      i := j + 1;
    }
  }

  /** Every scorable file of the collection is in the score dictionary, at position `k`. */
  lemma {:induction false} ScoreAllComplete(query: string, c: TableCollection, sim: Similarity, i: nat)
    returns (k: nat)
    requires ValidCollection(c) && i < |c| && ScoreFile(query, c[i].table, sim).Some?
    ensures k < |ScoreAll(query, c, sim)|
    ensures ScoreAll(query, c, sim)[k] == Scored(c[i].name, c[i].table, ScoreFile(query, c[i].table, sim).value)
    decreases |c|
  {
    var fs := ScoreAll(query, c, sim);
    var rest := ScoreAll(query, c[1..], sim);
    var first := ScoreFile(query, c[0].table, sim);
    if i == 0 {
      k := 0;
    } else {
      assert c[i] == c[1..][i - 1];
      var k' := ScoreAllComplete(query, c[1..], sim, i - 1);
      if first.Some? {
        assert fs == [Scored(c[0].name, c[0].table, first.value)] + rest;
        assert fs[k' + 1] == rest[k'];
        k := k' + 1;
      } else {
        assert fs == rest;
        k := k';
      }
    }
  }

  /** The score dictionary lists its files in collection order. */
  lemma {:induction false} ScoreAllInOrder(query: string, c: TableCollection, sim: Similarity)
    requires ValidCollection(c)
    ensures IsSubsequence(ScoredNames(ScoreAll(query, c, sim)), Names(c))
    decreases |c|
  {
    if c != [] {
      var rest := ScoreAll(query, c[1..], sim);
      ScoreAllInOrder(query, c[1..], sim);
      assert Names(c)[1..] == Names(c[1..]);
      if ScoreFile(query, c[0].table, sim).Some? {
        var fs := ScoreAll(query, c, sim);
        assert fs[1..] == rest;
        assert ScoredNames(fs)[1..] == ScoredNames(rest);
      } else {
        SubsequenceExtend(ScoredNames(rest), Names(c));
      }
    }
  }

  /** The positions from `from` on whose score is strictly above the threshold. */
  function HighIndicesFrom(scores: seq<real>, from: nat): (sel: seq<nat>)
    requires from <= |scores|
    ensures forall k :: 0 <= k < |sel| ==> from <= sel[k] < |scores| && scores[sel[k]] > Threshold
    decreases |scores| - from
  {
    if from == |scores| then []
    else if scores[from] > Threshold then [from] + HighIndicesFrom(scores, from + 1)
    else HighIndicesFrom(scores, from + 1)
  }

  /** The selection of positions: exactly those above the threshold, ascending;
      a score equal to the threshold is not selected. */
  function HighIndices(scores: seq<real>): (sel: seq<nat>)
    ensures forall k :: 0 <= k < |sel| ==> sel[k] < |scores| && scores[sel[k]] > Threshold
  {
    HighIndicesFrom(scores, 0)
  }

  /** The positions from `from` on are selected in ascending order. */
  lemma {:induction false} HighIndicesFromIncreasing(scores: seq<real>, from: nat)
    requires from <= |scores|
    ensures StrictlyIncreasing(HighIndicesFrom(scores, from))
    decreases |scores| - from
  {
    if from < |scores| {
      HighIndicesFromIncreasing(scores, from + 1);
    }
  }

  /** The selected positions are in ascending order, each once. */
  lemma HighIndicesIncreasing(scores: seq<real>)
    ensures StrictlyIncreasing(HighIndices(scores))
  {
    HighIndicesFromIncreasing(scores, 0);
  }

  /** No position above the threshold is missed. */
  lemma {:induction false} HighIndicesFromComplete(scores: seq<real>, from: nat, i: nat)
    requires from <= i < |scores| && scores[i] > Threshold
    ensures i in HighIndicesFrom(scores, from)
    decreases i - from
  {
    if from < i {
      HighIndicesFromComplete(scores, from + 1, i);
    }
  }

  /** A position is selected exactly when its score is strictly above the threshold;
      in particular a score equal to 0.7 is not selected. */
  lemma HighIndicesExact(scores: seq<real>, i: int)
    ensures i in HighIndices(scores) <==> 0 <= i < |scores| && scores[i] > Threshold
  {
    if 0 <= i < |scores| && scores[i] > Threshold {
      HighIndicesFromComplete(scores, 0, i);
    }
  }

  /** The selection as a left-to-right scan over the scores. */
  method SelectIndices(scores: seq<real>) returns (sel: seq<nat>)
    ensures sel == HighIndices(scores)
  {
    sel := [];
    var i := 0;
    ghost var all := HighIndicesFrom(scores, 0);
    while i < |scores|
      invariant 0 <= i <= |scores|
      invariant sel + HighIndicesFrom(scores, i) == all
    {
      ghost var rest := HighIndicesFrom(scores, i + 1);
      if scores[i] > Threshold {
        assert HighIndicesFrom(scores, i) == [i] + rest;
        assert (sel + [i]) + rest == sel + ([i] + rest);
        sel := sel + [i];
      } else {
        assert HighIndicesFrom(scores, i) == rest;
      }
      i := i + 1;
    }
    assert HighIndicesFrom(scores, i) == [];
  }
}
