/** The two exclusion stages (data/clean.py:97-114): rows mentioning one of
    the exclusion keywords go first, then rows with a missing cell (raw
    path) or the `isExcluded` column (processed path). Each stage reports
    the original positions it removed, in increasing order. */
module Exclusion {
  import opened Seqs
  import opened Text
  import opened Tables

  /** The words whose presence anywhere in a row excludes it (lines 97-101). */
  const Keywords: seq<string> := ["*", "图", "检查结果"]

  /** `s` contains one of the keywords. */
  predicate MentionsKeyword(s: string) {
    exists i :: 0 <= i < |Keywords| && Contains(s, Keywords[i])
  }

  /** `any(keyword in str(row) ...)`: some present cell of the row contains a
      keyword. A missing cell prints as `NaN` and never matches. */
  predicate HasKeyword(r: Row) {
    exists j :: 0 <= j < |r.cells| && r.cells[j].Some? && MentionsKeyword(r.cells[j].value)
  }

  /** `dropna()` removes a row with any missing cell. */
  predicate HasMissing(r: Row) {
    exists j :: 0 <= j < |r.cells| && r.cells[j].None?
  }

  /** The two row tests. */
  datatype Test = KeywordTest | MissingTest

  predicate Fails(t: Test, r: Row) {
    match t
    case KeywordTest => HasKeyword(r)
    case MissingTest => HasMissing(r)
  }

  /** `df[~mask]`: the rows that pass the test, in their original order. */
  function Keep(rows: seq<Row>, t: Test): (kept: seq<Row>)
    ensures IsSubseq(kept, rows)
    ensures forall r :: r in kept <==> r in rows && !Fails(t, r)
    ensures (forall k :: 0 <= k < |rows| ==> Fails(t, rows[k])) ==> kept == []
    decreases |rows|
  {
    if |rows| == 0 then []
    else
      var rest := Keep(rows[1..], t);
      assert forall k :: 1 <= k < |rows| ==> rows[1..][k - 1] == rows[k];
      SubseqBounds(rest, rows[1..]);
      SubseqCons(rows[0], rest, rows[1..]);
      SubseqBothCons(rows[0], rest, rows[1..]);
      assert rows == [rows[0]] + rows[1..];
      if Fails(t, rows[0]) then rest else [rows[0]] + rest
  }

  /** Keeping rows keeps their order. */
  lemma {:induction false} KeepOrdered(rows: seq<Row>, t: Test)
    requires Ordered(rows)
    ensures Ordered(Keep(rows, t))
    decreases |rows|
  {
    if |rows| > 0 {
      var rest := Keep(rows[1..], t);
      OrderedTail(rows);
      KeepOrdered(rows[1..], t);
      if !Fails(t, rows[0]) {
        assert forall r :: r in rest ==> rows[0].index < r.index by {
          SubseqBounds(rest, rows[1..]);
        }
        OrderedCons(rows[0], rest);
      }
    }
  }

  /** Every kept row has as many cells as before, so the kept rows still fit
      the columns. */
  lemma KeepWellFormed(f: Frame, t: Test)
    requires WellFormed(f)
    ensures WellFormed(Frame(f.columns, Keep(f.rows, t)))
  {
    var kept := Keep(f.rows, t);
    forall k | 0 <= k < |kept| ensures |kept[k].cells| == |f.columns| {
      assert kept[k] in f.rows;
    }
  }

  /** `sorted(list(set(original) - survivors))` for an `original` list: the
      positions of `original`, in its order, that did not survive. */
  function Removed(original: seq<nat>, survivors: set<nat>): (out: seq<nat>)
    ensures forall i :: i in out <==> i in original && i !in survivors
    ensures StrictlyIncreasing(original) ==> StrictlyIncreasing(out)
    decreases |original|
  {
    if |original| == 0 then []
    else
      var rest := Removed(original[1..], survivors);
      assert original == [original[0]] + original[1..];
      if original[0] in survivors then
        assert StrictlyIncreasing(original) ==> StrictlyIncreasing(rest) by {
          if StrictlyIncreasing(original) {
            IncreasingTail(original);
          }
        }
        rest
      else
        assert StrictlyIncreasing(original) ==> StrictlyIncreasing([original[0]] + rest) by {
          if StrictlyIncreasing(original) {
            IncreasingTail(original);
            IncreasingCons(original[0], rest);
          }
        }
        [original[0]] + rest
  }

  /** The report is THE sorted set difference: any strictly increasing list
      with exactly the removed positions as elements is `Removed`. */
  lemma RemovedIsSortedDifference(original: seq<nat>, survivors: set<nat>, report: seq<nat>)
    requires StrictlyIncreasing(original) && StrictlyIncreasing(report)
    requires forall i :: i in report <==> i in original && i !in survivors
    ensures report == Removed(original, survivors)
  {
    IncreasingUnique(report, Removed(original, survivors));
  }

  /** A position that is not in the list does not affect the report. */
  lemma {:induction false} RemovedIgnores(original: seq<nat>, survivors: set<nat>, x: nat)
    requires x !in original
    ensures Removed(original, {x} + survivors) == Removed(original, survivors)
    decreases |original|
  {
    if |original| > 0 {
      RemovedIgnores(original[1..], survivors, x);
    }
  }

  /** Positions of ordered rows strictly increase. */
  lemma OrderedIndices(rows: seq<Row>)
    requires Ordered(rows)
    ensures StrictlyIncreasing(Indices(rows))
  {
  }

  /** The first step of the report when the first row is removed: its
      position heads the report. */
  lemma RemovedDropHead(rows: seq<Row>, t: Test)
    requires |rows| > 0 && Fails(t, rows[0])
    requires rows[0].index !in IndexSet(Keep(rows[1..], t))
    requires Indices(rows) == [rows[0].index] + Indices(rows[1..])
    ensures Keep(rows, t) == Keep(rows[1..], t)
    ensures Removed(Indices(rows), IndexSet(Keep(rows, t)))
      == [rows[0].index] + Removed(Indices(rows[1..]), IndexSet(Keep(rows[1..], t)))
  {
    assert Indices(rows)[1..] == Indices(rows[1..]);
  }

  /** The first step of the report when the first row is kept: the report
      is the rest's report. */
  lemma RemovedKeepHead(rows: seq<Row>, t: Test)
    requires |rows| > 0 && !Fails(t, rows[0])
    requires rows[0].index !in Indices(rows[1..])
    requires Indices(rows) == [rows[0].index] + Indices(rows[1..])
    ensures Keep(rows, t) == [rows[0]] + Keep(rows[1..], t)
    ensures Removed(Indices(rows), IndexSet(Keep(rows, t)))
      == Removed(Indices(rows[1..]), IndexSet(Keep(rows[1..], t)))
  {
    var restKept := Keep(rows[1..], t);
    var s := IndexSet(Keep(rows, t));
    IndexSetCons(rows[0], restKept);
    assert s == {rows[0].index} + IndexSet(restKept);
    assert Indices(rows)[1..] == Indices(rows[1..]);
    assert Removed(Indices(rows), s) == Removed(Indices(rows[1..]), s);
    RemovedIgnores(Indices(rows[1..]), IndexSet(restKept), rows[0].index);
  }

  /** In an ordered table the first row's position occurs nowhere after it. */
  lemma HeadIndexFresh(rows: seq<Row>, t: Test)
    requires Ordered(rows) && |rows| > 0
    ensures Indices(rows) == [rows[0].index] + Indices(rows[1..])
    ensures rows[0].index !in Indices(rows[1..])
    ensures rows[0].index !in IndexSet(Keep(rows[1..], t))
  {
    var rest := rows[1..];
    OrderedTail(rows);
    assert rows == [rows[0]] + rest;
    IndexSetCons(rows[0], rest);
    SubseqBounds(Keep(rest, t), rest);
  }

  /** For rows in increasing position order, a stage's report lists exactly
      the positions of the rows the test removed, so the kept rows and the
      report together account for every row. */
  lemma {:induction false} RemovedCount(rows: seq<Row>, t: Test)
    requires Ordered(rows)
    ensures |Removed(Indices(rows), IndexSet(Keep(rows, t)))| + |Keep(rows, t)| == |rows|
    decreases |rows|
  {
    if |rows| > 0 {
      OrderedTail(rows);
      RemovedCount(rows[1..], t);
      HeadIndexFresh(rows, t);
      if Fails(t, rows[0]) {
        RemovedDropHead(rows, t);
      } else {
        RemovedKeepHead(rows, t);
      }
    }
  }

  /** The frame after a stage, with the report of the positions it removed. */
  datatype Stage = Stage(frame: Frame, removed: seq<nat>)

  /** One row-removing stage: the surviving frame and
      `sorted(list(set(original) - set(df.index)))`. */
  function Filter(f: Frame, t: Test): (s: Stage)
    requires WellFormed(f)
    ensures WellFormed(s.frame) && s.frame.columns == f.columns
    ensures IsSubseq(s.frame.rows, f.rows)
    ensures forall r :: r in s.frame.rows <==> r in f.rows && !Fails(t, r)
    ensures (forall k :: 0 <= k < |f.rows| ==> Fails(t, f.rows[k])) ==> s.frame.rows == []
    ensures forall i :: i in s.removed <==> i in IndexSet(f.rows) && i !in IndexSet(s.frame.rows)
    ensures Ordered(f.rows) ==>
      && Ordered(s.frame.rows)
      && StrictlyIncreasing(s.removed)
      && |s.frame.rows| + |s.removed| == |f.rows|
  {
    var kept := Keep(f.rows, t);
    KeepWellFormed(f, t);
    var removed := Removed(Indices(f.rows), IndexSet(kept));
    assert forall i :: i in Indices(f.rows) <==> i in IndexSet(f.rows) by {
      forall i | i in IndexSet(f.rows) ensures i in Indices(f.rows) {
        var r :| r in f.rows && r.index == i;
        var k :| 0 <= k < |f.rows| && f.rows[k] == r;
        assert Indices(f.rows)[k] == i;
      }
    }
    assert Ordered(f.rows) ==>
      Ordered(kept) && StrictlyIncreasing(removed) && |kept| + |removed| == |f.rows| by {
      if Ordered(f.rows) {
        KeepOrdered(f.rows, t);
        OrderedIndices(f.rows);
        RemovedCount(f.rows, t);
      }
    }
    Stage(Frame(f.columns, kept), removed)
  }

  /** In a table with distinct, increasing positions, a stage reports a
      row's position exactly when the test removes that row. */
  lemma RemovedExactly(f: Frame, t: Test, k: nat)
    requires WellFormed(f) && Ordered(f.rows) && k < |f.rows|
    ensures f.rows[k].index in Filter(f, t).removed <==> Fails(t, f.rows[k])
  {
    var s := Filter(f, t);
    var r := f.rows[k];
    assert r.index in IndexSet(f.rows);
    if Fails(t, r) {
      forall x | x in s.frame.rows ensures x.index != r.index {
        assert x in f.rows && !Fails(t, x);
      }
    } else {
      assert r in s.frame.rows;
    }
  }

  /** Dropping a cell never creates a keyword. */
  lemma DropKeepsNoKeyword(r: Row, j: nat)
    requires j < |r.cells| && !HasKeyword(r)
    ensures !HasKeyword(Row(r.index, r.cells[..j] + r.cells[j + 1..]))
  {
    var cells := r.cells[..j] + r.cells[j + 1..];
    forall i | 0 <= i < |cells| ensures cells[i] == r.cells[if i < j then i else i + 1] {
    }
  }

  /** Lines 102-108: rows mentioning a keyword are removed. */
  function KeywordStage(f: Frame): (s: Stage)
    requires WellFormed(f)
    ensures s == Filter(f, KeywordTest)
    ensures forall k :: 0 <= k < |s.frame.rows| ==> !HasKeyword(s.frame.rows[k])
  {
    var s := Filter(f, KeywordTest);
    assert forall k :: 0 <= k < |s.frame.rows| ==> s.frame.rows[k] in s.frame.rows;
    s
  }

  /** Lines 109-114. A processed file loses its `isExcluded` column (the
      second, after `category`) and no row; a raw export loses every row with
      a missing cell. */
  function EmptyCellStage(processed: bool, f: Frame): (s: Stage)
    requires WellFormed(f) && |f.columns| >= 2
    ensures processed ==> s == Stage(DropColumn(f, 1), [])
    ensures !processed ==> s == Filter(f, MissingTest)
    ensures !processed ==> forall k :: 0 <= k < |s.frame.rows| ==> !HasMissing(s.frame.rows[k])
  {
    if processed then Stage(DropColumn(f, 1), [])
    else
      var s := Filter(f, MissingTest);
      assert forall k :: 0 <= k < |s.frame.rows| ==> s.frame.rows[k] in s.frame.rows;
      s
  }
}
