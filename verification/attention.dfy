/** The last two steps of a run (data/clean.py:132-142): the table is cut
    to its first 100 rows, and three of its rows are overwritten with
    attention-check questions. */
module Attention {
  import opened Wrappers
  import opened Seqs
  import opened Tables

  /** `df.head(100)` */
  const RowLimit: nat := 100

  /** The title of an attention-check question ("attention question"). */
  const AttentionTitle: string := "注意力问题"

  /** The question text: "if you see this question, choose `level` for every
      option (diagnosis score, familiarity with the disease)". */
  function Instruction(level: char): (s: string)
    ensures |s| > 0 && level in s
  {
    var prompt := "如果您看到此问题，请将所有选项（诊断评分、疾病熟悉程度）选择为";
    var s := prompt + [level] + "。";
    assert s[|prompt|] == level;
    s
  }

  /** Where each check goes and the level it asks for, in the order the
      source applies them (lines 135-139). */
  const Checks: seq<(nat, char)> := [(39, '4'), (59, '2'), (79, '1')]

  /** The 18 cells of a check row: the category, the title, the question,
      and empty strings for the other 15 columns. */
  function AttentionCells(category: string, level: char): (cells: seq<Cell>)
    ensures |cells| == 18
    ensures cells[0] == Some(category) && cells[1] == Some(AttentionTitle)
    ensures cells[2] == Some(Instruction(level))
    ensures forall j :: 3 <= j < 18 ==> cells[j] == Some("")
  {
    [Some(category), Some(AttentionTitle), Some(Instruction(level))] + seq(15, _ => Some(""))
  }

  /** `df.head(n)`: the first `n` rows, or all of them when there are fewer. */
  function Head(f: Frame, n: nat): (g: Frame)
    ensures g.columns == f.columns
    ensures |g.rows| == if |f.rows| < n then |f.rows| else n
    ensures g.rows == f.rows[..|g.rows|]
  {
    if |f.rows| <= n then f else Frame(f.columns, f.rows[..n])
  }

  /** The level of the check the checks in `checks` put at position `k`,
      if any; a later check at the same position would win. */
  function CheckAt(checks: seq<(nat, char)>, k: nat): (level: Option<char>)
    ensures level.Some? <==> exists j :: 0 <= j < |checks| && checks[j].0 == k
    decreases |checks|
  {
    if |checks| == 0 then None
    else
      var last := checks[|checks| - 1];
      if last.0 == k then Some(last.1)
      else
        var earlier := CheckAt(checks[..|checks| - 1], k);
        assert forall j :: 0 <= j < |checks| - 1 ==> checks[..|checks| - 1][j] == checks[j];
        earlier
  }

  /** Row `k` after the checks in `checks` have been written. */
  function AfterChecks(f: Frame, category: string, checks: seq<(nat, char)>, k: nat): (r: Row)
    requires k < |f.rows|
    ensures r.index == f.rows[k].index
  {
    match CheckAt(checks, k)
    case Some(level) => Row(f.rows[k].index, AttentionCells(category, level))
    case None => f.rows[k]
  }

  /** One more check: its own position gets its row, the others are as
      before. */
  lemma AfterOneMore(f: Frame, category: string, checks: seq<(nat, char)>, c: (nat, char), k: nat)
    requires k < |f.rows|
    ensures AfterChecks(f, category, checks + [c], k)
      == if c.0 == k then Row(f.rows[k].index, AttentionCells(category, c.1))
         else AfterChecks(f, category, checks, k)
  {
    var all := checks + [c];
    assert all[..|all| - 1] == checks;
  }

  /** The three checks land at positions 39, 59 and 79 with levels 4, 2, 1,
      and nowhere else. */
  lemma CheckPositions(k: nat)
    ensures CheckAt(Checks, k).Some? <==> k == 39 || k == 59 || k == 79
    ensures CheckAt(Checks, 39) == Some('4')
    ensures CheckAt(Checks, 59) == Some('2')
    ensures CheckAt(Checks, 79) == Some('1')
  {
    assert Checks[..2] == [(39, '4'), (59, '2')];
    assert Checks[..2][..1] == [(39, '4')];
  }

  /** `df.loc[label] = cells` for the label of the row at `position`: that
      row gets the new cells and keeps its label; the others are untouched. */
  function Overwrite(g: Frame, position: nat, cells: seq<Cell>): (h: Frame)
    requires WellFormed(g) && position < |g.rows| && |cells| == |g.columns|
    ensures WellFormed(h) && h.columns == g.columns && |h.rows| == |g.rows|
    ensures h.rows[position] == Row(g.rows[position].index, cells)
    ensures forall k :: 0 <= k < |g.rows| && k != position ==> h.rows[k] == g.rows[k]
  {
    Frame(g.columns, g.rows[position := Row(g.rows[position].index, cells)])
  }

  /** Line 142 repeated over `checks`: each check row overwrites the row at
      its position. */
  function WriteChecks(f: Frame, category: string, checks: seq<(nat, char)>): (g: Frame)
    requires WellFormed(f) && |f.columns| == 18
    requires forall j :: 0 <= j < |checks| ==> checks[j].0 < |f.rows|
    ensures WellFormed(g) && g.columns == f.columns && |g.rows| == |f.rows|
    ensures forall k :: 0 <= k < |f.rows| ==> g.rows[k] == AfterChecks(f, category, checks, k)
    decreases |checks|
  {
    if |checks| == 0 then f
    else
      var earlier := checks[..|checks| - 1];
      var last := checks[|checks| - 1];
      var g := WriteChecks(f, category, earlier);
      var h := Overwrite(g, last.0, AttentionCells(category, last.1));
      assert forall k :: 0 <= k < |f.rows| ==> h.rows[k] == AfterChecks(f, category, checks, k) by {
        FrontLast(checks);
        forall k | 0 <= k < |f.rows| ensures h.rows[k] == AfterChecks(f, category, checks, k) {
          AfterOneMore(f, category, earlier, last, k);
        }
      }
      h
  }

  /** Lines 140-142. The positions are looked up before anything is
      written, so a table with fewer than 80 rows fails (`IndexError`);
      otherwise the rows at 39, 59 and 79 become checks asking for 4, 2
      and 1, and every other row, and the row count, stay as they were. */
  function Inject(f: Frame, category: string): (r: Result<Frame, CleanError>)
    requires WellFormed(f) && |f.columns| == 18
    ensures r.Success? <==> |f.rows| >= 80
    ensures r.Failure? ==> r.error == TooFewRows(|f.rows|)
    ensures r.Success? ==>
      && WellFormed(r.value)
      && r.value.columns == f.columns
      && |r.value.rows| == |f.rows|
      && r.value.rows[39] == Row(f.rows[39].index, AttentionCells(category, '4'))
      && r.value.rows[59] == Row(f.rows[59].index, AttentionCells(category, '2'))
      && r.value.rows[79] == Row(f.rows[79].index, AttentionCells(category, '1'))
      && forall k :: 0 <= k < |f.rows| && k != 39 && k != 59 && k != 79 ==> r.value.rows[k] == f.rows[k]
  {
    if |f.rows| < 80 then Failure(TooFewRows(|f.rows|))
    else
      assert forall j :: 0 <= j < |Checks| ==> Checks[j].0 < 80;
      var g := WriteChecks(f, category, Checks);
      assert forall k :: 0 <= k < |f.rows| && k != 39 && k != 59 && k != 79 ==> g.rows[k] == f.rows[k] by {
        forall k | 0 <= k < |f.rows| && k != 39 && k != 59 && k != 79 ensures g.rows[k] == f.rows[k] {
          CheckPositions(k);
        }
      }
      CheckPositions(39);
      Success(g)
  }
}
