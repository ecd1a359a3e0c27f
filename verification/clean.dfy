/** One run of `clean(filename, format, onlyOutputFinalFile)`
    (data/clean.py:54-143): read and name the columns, prepare the table
    (processed path or raw path), remove rows by keyword and by empty cell,
    cut to 100 rows, inject the attention checks, and write the
    intermediate and final tables. */
module Clean {
  import opened Wrappers
  import opened Seqs
  import opened Text
  import opened Tables
  import opened Schema
  import opened Sanitiser
  import opened Doctor
  import opened RawRows
  import opened Exclusion
  import opened Attention
  import opened Output

  /** One file written by `output(suffix)`: the suffix, where and how it was
      written, and the table it holds. */
  datatype Write = Write(suffix: string, target: Target, table: Frame)

  /** What a run that reaches the end establishes: the kind of input, the
      table the exclusion stages started from, the positions they removed
      by keyword and by empty cell, how many rows were left before the cut
      to 100, and the final table. */
  datatype Report = Report(
    kind: Kind, prepared: Frame,
    byKeyword: seq<nat>, byEmptyCell: seq<nat>, remaining: nat,
    table: Frame)

  /** The files a run wrote, in order, and how it ended. */
  datatype Run = Run(writes: seq<Write>, outcome: Result<Report, CleanError>)

  /** `output(suffix)` with `df` holding `table`: one write, or none when
      "only final" mode skips the suffix. */
  function Emit(stem: string, format: string, onlyFinal: bool, suffix: string, table: Frame): (ws: seq<Write>)
    ensures |ws| <= 1
    ensures |ws| == 1 <==> !onlyFinal || Contains(suffix, "FINAL")
    ensures forall i :: 0 <= i < |ws| ==>
      && ws[i].suffix == suffix && ws[i].table == table
      && Some(ws[i].target) == OutputTarget(stem, format, onlyFinal, suffix)
  {
    match OutputTarget(stem, format, onlyFinal, suffix)
    case Some(t) => [Write(suffix, t, table)]
    case None => []
  }

  /** The names a kind of input is read with. */
  function LayoutOf(kind: Kind): seq<Col> {
    if kind == Processed then ProcessedLayout else RawLayout
  }

  /** The columns the exclusion stages start from. */
  function PreparedLayout(kind: Kind): seq<Col> {
    if kind == Processed then [Category] + ProcessedLayout else FinalLayout
  }

  /** The category is a new column on both paths. */
  lemma CategoryIsNew()
    ensures Category !in BodyLayout && Category !in ProcessedLayout
  {
    assert forall j :: 0 <= j < |BodyLayout| ==> !BodyLayout[j].Category?;
  }

  /** The category a run gives its rows: the stem as it is for a processed
      file (line 73), the stem with its whitespace runs joined by `_` for a
      raw export (line 93). */
  function CategoryOf(kind: Kind, stem: string): string {
    if kind == Processed then stem else NormaliseWhitespace(stem)
  }

  /** Every row's first cell holds `category`. */
  predicate Labelled(g: Frame, category: string) {
    forall k :: 0 <= k < |g.rows| ==> |g.rows[k].cells| > 0 && g.rows[k].cells[0] == Some(category)
  }

  /** Lines 66-74: a processed file gets the file's stem, as it is, as a
      new first column `category`; nothing else changes. */
  function PrepareProcessed(stem: string, f: Frame): (g: Frame)
    requires WellFormed(f) && f.columns == ProcessedLayout
    ensures WellFormed(g) && g.columns == PreparedLayout(Processed)
    ensures |g.rows| == |f.rows|
    ensures forall k :: 0 <= k < |g.rows| ==> g.rows[k] == Row(f.rows[k].index, [Some(stem)] + f.rows[k].cells)
  {
    CategoryIsNew();
    PrependConstant(f, Category, stem)
  }

  /** Lines 75-95: a raw export is sanitised, has its three doctor fields
      split, is put in body order and gets the whitespace-normalised stem as
      a new first column `category`. The split fails unless every doctor
      column has a present cell with at least two spaces. */
  function PrepareRaw(stem: string, f: Frame): (r: Result<Frame, CleanError>)
    requires WellFormed(f) && f.columns == RawLayout
    ensures r.Success? <==> FullDoctors(SanitiseFrame(f))
    ensures r.Failure? ==> r.error.SplitWidthMismatch?
    ensures r.Success? ==> SameRowsAs(r.value, f, PreparedLayout(Raw))
    ensures r.Success? ==> Labelled(r.value, NormaliseWhitespace(stem))
  {
    SplitAndArrange(stem, SanitiseFrame(f))
  }

  /** Every doctor column of a raw table has a present cell with at least
      two spaces, so that all three splits produce three columns. */
  predicate FullDoctors(s: Frame)
    requires WellFormed(s) && s.columns == RawLayout
  {
    RawHasDoctors();
    && HasFullDoctorField(Column(s, Doc(First)))
    && HasFullDoctorField(Column(s, Doc(Second)))
    && HasFullDoctorField(Column(s, Doc(Third)))
  }

  /** Lines 89-95 on the sanitised table. */
  function SplitAndArrange(stem: string, s: Frame): (r: Result<Frame, CleanError>)
    requires WellFormed(s) && s.columns == RawLayout
    ensures r.Success? <==> FullDoctors(s)
    ensures r.Failure? ==> r.error.SplitWidthMismatch?
    ensures r.Success? ==> SameRowsAs(r.value, s, PreparedLayout(Raw))
    ensures r.Success? ==> Labelled(r.value, NormaliseWhitespace(stem))
  {
    RawHasDoctors();
    match SplitAll(s)
    case Failure(e) => Failure(e)
    case Success(g) => Success(Arrange(stem, g))
  }

  /** Lines 92-95: the split table is put in body order and gets the
      whitespace-normalised stem in front. */
  function Arrange(stem: string, g: Frame): (h: Frame)
    requires WellFormed(g) && g.columns == RawLayout + SplitColumns
    ensures SameRowsAs(h, g, PreparedLayout(Raw))
    ensures Labelled(h, NormaliseWhitespace(stem))
  {
    BodyAvailable();
    CategoryIsNew();
    PrependConstant(Select(g, BodyLayout), Category, NormaliseWhitespace(stem))
  }

  /** Row `k` of the arranged table, when row `k` of the split table is
      the split of the sanitised export row `raw`. */
  lemma ArrangeRow(stem: string, g: Frame, k: nat, raw: seq<Cell>)
    requires WellFormed(g) && g.columns == RawLayout + SplitColumns && k < |g.rows|
    requires |raw| == |RawLayout| && g.rows[k].cells == SplitRow(SanitisedCells(raw))
    ensures var h := Arrange(stem, g);
      && k < |h.rows| && h.rows[k].index == g.rows[k].index
      && PreparedFrom(NormaliseWhitespace(stem), raw, h.rows[k].cells)
  {
    BodyAvailable();
    CategoryIsNew();
    var h := Select(g, BodyLayout);
    SelectBodyRow(g, k);
    ArrangedCells(NormaliseWhitespace(stem), raw, h.rows[k].cells);
  }

  /** Row `k` of the table the raw path prepares, cell by cell: the
      whitespace-normalised stem, then every column as `PreparedCell`
      derives it from row `k` of the export (lines 85-94). */
  lemma PrepareRawRow(stem: string, f: Frame, k: nat)
    requires WellFormed(f) && f.columns == RawLayout && k < |f.rows|
    requires PrepareRaw(stem, f).Success?
    ensures var p := PrepareRaw(stem, f).value;
      && k < |p.rows| && p.rows[k].index == f.rows[k].index
      && PreparedFrom(NormaliseWhitespace(stem), f.rows[k].cells, p.rows[k].cells)
  {
    RawHasDoctors();
    var g := SplitAll(SanitiseFrame(f)).value;
    assert PrepareRaw(stem, f).value == Arrange(stem, g);
    SanitisedSplitRow(f, k);
    ArrangeRow(stem, g, k, f.rows[k].cells);
  }

  /** Lines 66-95: the table the exclusion stages start from. A processed
      file always gets one; a raw export gets one exactly when its doctor
      fields split. The prepared table has the rows of the loaded one, in
      order, under the layout of its kind, each labelled with its category. */
  function Prepare(stem: string, loaded: Loaded): (r: Result<Frame, CleanError>)
    requires WellFormed(loaded.frame) && loaded.frame.columns == LayoutOf(loaded.kind)
    ensures loaded.kind == Processed ==> r.Success?
    ensures loaded.kind == Raw ==> (r.Success? <==> FullDoctors(SanitiseFrame(loaded.frame)))
    ensures r.Failure? ==> r.error.SplitWidthMismatch?
    ensures r.Success? ==>
      && SameRowsAs(r.value, loaded.frame, PreparedLayout(loaded.kind))
      && Labelled(r.value, CategoryOf(loaded.kind, stem))
  {
    if loaded.kind == Processed then Success(PrepareProcessed(stem, loaded.frame))
    else PrepareRaw(stem, loaded.frame)
  }

  /** Dropping the second of the prepared processed columns gives the final
      layout. */
  lemma ProcessedDrop()
    ensures |PreparedLayout(Processed)| >= 2
    ensures var cols := PreparedLayout(Processed); cols[..1] + cols[2..] == FinalLayout
  {
    var cols := [Category] + ([IsExcluded] + BodyLayout);
    assert cols[..1] == [Category];
    assert cols[2..] == BodyLayout;
  }

  /** The two exclusion stages of one run. */
  datatype Stages = Stages(keyword: Stage, emptyCell: Stage)

  /** Lines 97-114: the keyword stage, then the empty-cell stage. Both paths
      end with the 18 final columns. */
  function Exclude(kind: Kind, prepared: Frame): (st: Stages)
    requires WellFormed(prepared) && prepared.columns == PreparedLayout(kind)
    ensures WellFormed(st.emptyCell.frame) && st.emptyCell.frame.columns == FinalLayout
  {
    ProcessedDrop();
    var keyword := KeywordStage(prepared);
    Stages(keyword, EmptyCellStage(kind == Processed, keyword.frame))
  }

  /** The rows that survive both stages mention no keyword; on the raw path
      they also have no missing cell and are rows of the prepared table, in
      order. On the processed path the second stage removes nothing. */
  lemma ExcludedRows(kind: Kind, prepared: Frame)
    requires WellFormed(prepared) && prepared.columns == PreparedLayout(kind)
    ensures var ex := Exclude(kind, prepared).emptyCell.frame;
      forall k :: 0 <= k < |ex.rows| ==> !HasKeyword(ex.rows[k])
    ensures var ex := Exclude(kind, prepared).emptyCell.frame;
      forall k :: 0 <= k < |ex.rows| ==> ex.rows[k].index in IndexSet(prepared.rows)
    ensures var st := Exclude(kind, prepared);
      kind == Raw ==>
        && IsSubseq(st.emptyCell.frame.rows, prepared.rows)
        && forall k :: 0 <= k < |st.emptyCell.frame.rows| ==> !HasMissing(st.emptyCell.frame.rows[k])
    ensures var st := Exclude(kind, prepared);
      kind == Processed ==>
        && st.emptyCell.removed == []
        && |st.emptyCell.frame.rows| == |st.keyword.frame.rows|
  {
    if kind == Processed {
      ExcludedRowsProcessed(prepared);
    } else {
      ExcludedRowsRaw(prepared);
    }
  }

  /** Processed path: dropping `isExcluded` keeps the survivors free of
      keywords and their positions those of prepared rows. */
  lemma ExcludedRowsProcessed(prepared: Frame)
    requires WellFormed(prepared) && prepared.columns == PreparedLayout(Processed)
    ensures var ex := Exclude(Processed, prepared).emptyCell.frame;
      forall k :: 0 <= k < |ex.rows| ==> !HasKeyword(ex.rows[k]) && ex.rows[k].index in IndexSet(prepared.rows)
  {
    var st := Exclude(Processed, prepared);
    var kw := st.keyword.frame;
    var ex := st.emptyCell.frame;
    forall k | 0 <= k < |ex.rows| ensures !HasKeyword(ex.rows[k]) && ex.rows[k].index in IndexSet(prepared.rows) {
      DropKeepsNoKeyword(kw.rows[k], 1);
      assert kw.rows[k] in prepared.rows;
    }
  }

  /** Raw path: the survivors are prepared rows, in order, without
      keywords. */
  lemma ExcludedRowsRaw(prepared: Frame)
    requires WellFormed(prepared) && prepared.columns == PreparedLayout(Raw)
    ensures var ex := Exclude(Raw, prepared).emptyCell.frame;
      forall k :: 0 <= k < |ex.rows| ==> !HasKeyword(ex.rows[k]) && ex.rows[k].index in IndexSet(prepared.rows)
    ensures IsSubseq(Exclude(Raw, prepared).emptyCell.frame.rows, prepared.rows)
  {
    var st := Exclude(Raw, prepared);
    var kw := st.keyword.frame;
    var ex := st.emptyCell.frame;
    SubseqTrans(ex.rows, kw.rows, prepared.rows);
    SubseqBounds(ex.rows, prepared.rows);
    forall k | 0 <= k < |ex.rows| ensures !HasKeyword(ex.rows[k]) && ex.rows[k].index in IndexSet(prepared.rows) {
      assert ex.rows[k] in kw.rows;
      var m :| 0 <= m < |kw.rows| && kw.rows[m] == ex.rows[k];
      assert ex.rows[k] in prepared.rows;
    }
  }

  /** For a prepared table in position order, the two reports are strictly
      increasing, account with the survivors for every row, and say exactly
      which rows went: a position is in the keyword report exactly when its
      row mentions a keyword, and in the empty-cell report (raw path) exactly
      when the row survived the keyword stage and has a missing cell. The
      two reports are disjoint and the survivors stay in position order. */
  lemma ExcludeReports(kind: Kind, prepared: Frame)
    requires WellFormed(prepared) && prepared.columns == PreparedLayout(kind)
    requires Ordered(prepared.rows)
    ensures var st := Exclude(kind, prepared);
      && Ordered(st.emptyCell.frame.rows)
      && StrictlyIncreasing(st.keyword.removed)
      && StrictlyIncreasing(st.emptyCell.removed)
      && |st.keyword.removed| + |st.emptyCell.removed| + |st.emptyCell.frame.rows| == |prepared.rows|
    ensures var st := Exclude(kind, prepared);
      forall k :: 0 <= k < |prepared.rows| ==>
        (prepared.rows[k].index in st.keyword.removed <==> HasKeyword(prepared.rows[k]))
    ensures var st := Exclude(kind, prepared);
      kind == Raw ==> forall k :: 0 <= k < |st.keyword.frame.rows| ==>
        (st.keyword.frame.rows[k].index in st.emptyCell.removed <==> HasMissing(st.keyword.frame.rows[k]))
    ensures var st := Exclude(kind, prepared);
      forall i :: i in st.emptyCell.removed ==> i in IndexSet(prepared.rows) && i !in st.keyword.removed
  {
    var st := Exclude(kind, prepared);
    var kw := st.keyword.frame;
    var ex := st.emptyCell.frame;
    forall k | 0 <= k < |prepared.rows|
      ensures prepared.rows[k].index in st.keyword.removed <==> HasKeyword(prepared.rows[k])
    {
      RemovedExactly(prepared, KeywordTest, k);
    }
    if kind == Processed {
      SameIndices(ex.rows, kw.rows);
    } else {
      forall k | 0 <= k < |kw.rows|
        ensures kw.rows[k].index in st.emptyCell.removed <==> HasMissing(kw.rows[k])
      {
        RemovedExactly(kw, MissingTest, k);
      }
    }
    forall i | i in st.emptyCell.removed ensures i in IndexSet(prepared.rows) {
      var r :| r in kw.rows && r.index == i;
      assert r in prepared.rows;
    }
  }

  /** Rows numbered 0, 1, 2, ... as they were read. */
  predicate Numbered(rows: seq<Row>) {
    forall k :: 0 <= k < |rows| ==> rows[k].index == k
  }

  /** In a numbered table, a row with position `i` is the `i`-th row. */
  lemma NumberedRow(rows: seq<Row>, r: Row)
    requires Numbered(rows) && r in rows
    ensures r.index < |rows| && rows[r.index] == r
  {
  }

  /** For a prepared table numbered as read, row `i` is in the keyword
      report exactly when it mentions a keyword. */
  lemma KeywordReportNumbered(kind: Kind, prepared: Frame)
    requires WellFormed(prepared) && prepared.columns == PreparedLayout(kind)
    requires Numbered(prepared.rows)
    ensures var st := Exclude(kind, prepared);
      forall i: nat :: i in st.keyword.removed <==> i < |prepared.rows| && HasKeyword(prepared.rows[i])
  {
    var st := Exclude(kind, prepared);
    var rows := prepared.rows;
    LoadedIndices(prepared, |rows|);
    ExcludeReports(kind, prepared);
    forall i: nat ensures i in st.keyword.removed <==> i < |rows| && HasKeyword(rows[i]) {
      if i in st.keyword.removed {
        assert i in IndexSet(rows);
      }
      if i < |rows| {
        assert rows[i].index == i;
      }
    }
  }

  /** For a raw prepared table numbered as read, row `i` is in the
      empty-cell report exactly when it mentions no keyword and has a
      missing cell. */
  lemma EmptyCellReportNumbered(prepared: Frame)
    requires WellFormed(prepared) && prepared.columns == PreparedLayout(Raw)
    requires Numbered(prepared.rows)
    ensures var st := Exclude(Raw, prepared);
      forall i: nat :: i in st.emptyCell.removed <==>
        i < |prepared.rows| && !HasKeyword(prepared.rows[i]) && HasMissing(prepared.rows[i])
  {
    var st := Exclude(Raw, prepared);
    var rows := prepared.rows;
    var kw := st.keyword.frame;
    LoadedIndices(prepared, |rows|);
    ExcludeReports(Raw, prepared);
    forall i: nat ensures i in st.emptyCell.removed <==> i < |rows| && !HasKeyword(rows[i]) && HasMissing(rows[i]) {
      if i in st.emptyCell.removed {
        assert i in IndexSet(kw.rows);
        var r :| r in kw.rows && r.index == i;
        NumberedRow(rows, r);
        var m :| 0 <= m < |kw.rows| && kw.rows[m] == r;
      }
      if i < |rows| && !HasKeyword(rows[i]) {
        assert rows[i] in kw.rows;
        var m :| 0 <= m < |kw.rows| && kw.rows[m] == rows[i];
      }
    }
  }

  /** For a prepared table numbered as read, both reports increase, they
      and the survivors count every row once, the empty-cell report holds
      only rows without a keyword, and on the processed path it is empty. */
  lemma ExcludeNumbered(kind: Kind, prepared: Frame)
    requires WellFormed(prepared) && prepared.columns == PreparedLayout(kind)
    requires Numbered(prepared.rows)
    ensures var st := Exclude(kind, prepared);
      && StrictlyIncreasing(st.keyword.removed)
      && StrictlyIncreasing(st.emptyCell.removed)
      && |st.keyword.removed| + |st.emptyCell.removed| + |st.emptyCell.frame.rows| == |prepared.rows|
    ensures var st := Exclude(kind, prepared);
      forall i: nat :: i in st.emptyCell.removed ==> i < |prepared.rows| && !HasKeyword(prepared.rows[i])
    ensures kind == Processed ==> Exclude(kind, prepared).emptyCell.removed == []
  {
    LoadedIndices(prepared, |prepared.rows|);
    ExcludeReports(kind, prepared);
    ExcludedRows(kind, prepared);
    KeywordReportNumbered(kind, prepared);
  }

  /** The `output` calls of a run, in order: "replaced" on the raw path,
      "excluded" and "excluded_100", and "FINAL" when there is a final
      table. */
  function Writes(stem: string, format: string, onlyFinal: bool, kind: Kind,
                  prepared: Frame, excluded: Frame, head: Frame, final: Option<Frame>): (ws: seq<Write>)
    ensures |ws| <= 4
  {
    (if kind == Raw then Emit(stem, format, onlyFinal, "replaced", prepared) else [])
    + Emit(stem, format, onlyFinal, "excluded", excluded)
    + Emit(stem, format, onlyFinal, "excluded_100", head)
    + (if final.Some? then Emit(stem, format, onlyFinal, "FINAL", final.value) else [])
  }

  /** Lines 132-142: the cut to 100 rows and the attention checks. It
      fails exactly when fewer than 80 rows survived the exclusion stages,
      reporting that count; otherwise the table holds the first
      `min(survivors, 100)` survivors with the rows at 39, 59 and 79
      replaced by the checks (category: the whitespace-normalised stem),
      each keeping the position of the row it replaced. */
  function Conclude(stem: string, excluded: Frame): (r: Result<Frame, CleanError>)
    requires WellFormed(excluded) && excluded.columns == FinalLayout
    ensures r.Success? <==> |excluded.rows| >= 80
    ensures r.Failure? ==> r.error == TooFewRows(|excluded.rows|)
    ensures r.Success? ==>
      var table := r.value;
      var ex := excluded;
      var category := NormaliseWhitespace(stem);
      && WellFormed(table) && table.columns == FinalLayout
      && |table.rows| == (if |ex.rows| < RowLimit then |ex.rows| else RowLimit)
      && table.rows[39] == Row(ex.rows[39].index, AttentionCells(category, '4'))
      && table.rows[59] == Row(ex.rows[59].index, AttentionCells(category, '2'))
      && table.rows[79] == Row(ex.rows[79].index, AttentionCells(category, '1'))
      && forall k :: 0 <= k < |table.rows| && k != 39 && k != 59 && k != 79 ==> table.rows[k] == ex.rows[k]
  {
    Inject(Head(excluded, RowLimit), NormaliseWhitespace(stem))
  }

  /** An already processed file with no rows. pandas' row-wise `apply` on
      an empty table gives an empty series of floats instead of booleans, so
      the selection at line 107 takes it for a list of column names and
      leaves a table without columns, whose `columns[1]` at line 111 does
      not exist. */
  predicate EmptyProcessed(kind: Kind, prepared: Frame) {
    kind == Processed && |prepared.rows| == 0
  }

  /** Lines 96-143, from the prepared table on: the exclusion stages, then
      `Conclude`, then the `FINAL` write. An empty processed table fails at
      line 111 before anything is written. A concluded table whose `FINAL`
      file the writer cannot write (a `.csv` name for the Excel writer, in
      "only final" mode with a format other than `csv`) fails at line 143.
      Otherwise a finished run reports the two stages, the number of
      survivors and the concluded table, and either way the writes are
      those of `Writes`, with the final table only when it was written. */
  function Finish(stem: string, format: string, onlyFinal: bool, kind: Kind, prepared: Frame): (run: Run)
    requires WellFormed(prepared) && prepared.columns == PreparedLayout(kind)
    ensures EmptyProcessed(kind, prepared) ==> run == Run([], Failure(NoColumnToDrop))
    ensures !EmptyProcessed(kind, prepared) ==>
      var ex := Exclude(kind, prepared).emptyCell.frame;
      match Conclude(stem, ex)
      case Failure(e) => run.outcome == Failure(e)
      case Success(table) =>
        var st := Exclude(kind, prepared);
        run.outcome
          == if onlyFinal && format != "csv" then Failure(NoExcelEngine)
             else Success(Report(kind, prepared, st.keyword.removed, st.emptyCell.removed, |ex.rows|, table))
    ensures !EmptyProcessed(kind, prepared) ==>
      var ex := Exclude(kind, prepared).emptyCell.frame;
      run.writes == Writes(stem, format, onlyFinal, kind, prepared, ex, Head(ex, RowLimit),
                           if run.outcome.Success? then Some(run.outcome.value.table) else None)
    ensures run.outcome.Failure? ==>
      run.outcome.error.TooFewRows? || run.outcome.error.NoColumnToDrop? || run.outcome.error.NoExcelEngine?
    ensures run.outcome.Failure? && run.outcome.error.NoExcelEngine? ==>
      onlyFinal && format != "csv" && run.writes == []
  {
    if EmptyProcessed(kind, prepared) then Run([], Failure(NoColumnToDrop))
    else
      var st := Exclude(kind, prepared);
      var excluded := st.emptyCell.frame;
      var head := Head(excluded, RowLimit);
      match Conclude(stem, excluded)
      case Failure(e) =>
        Run(Writes(stem, format, onlyFinal, kind, prepared, excluded, head, None), Failure(e))
      case Success(table) =>
        FinalWritable(stem, format, onlyFinal);
        if !Writable(OutputTarget(stem, format, onlyFinal, "FINAL").value) then
          WritesFinalOnly(stem, format, kind, prepared, excluded, head, None);
          Run(Writes(stem, format, onlyFinal, kind, prepared, excluded, head, None), Failure(NoExcelEngine))
        else
          Run(Writes(stem, format, onlyFinal, kind, prepared, excluded, head, Some(table)),
              Success(Report(kind, prepared, st.keyword.removed, st.emptyCell.removed, |excluded.rows|, table)))
  }

  /** A suffix without an `F` does not contain `FINAL`. */
  lemma NoFinal(suffix: string)
    requires 'F' !in suffix
    ensures !Contains(suffix, "FINAL")
  {
    if Contains(suffix, "FINAL") {
      ContainsFirst(suffix, "FINAL");
    }
  }

  /** The suffixes of the intermediate tables (lines 95, 130, 133). */
  const IntermediateSuffixes: seq<string> := ["replaced", "excluded", "excluded_100"]

  /** No intermediate suffix contains `FINAL`. */
  lemma IntermediateNotFinal(i: nat)
    requires i < |IntermediateSuffixes|
    ensures !Contains(IntermediateSuffixes[i], "FINAL")
  {
    NoFinal(IntermediateSuffixes[i]);
  }

  /** "Only final" mode writes none of the intermediate tables. */
  lemma NoIntermediateWrites(stem: string, format: string, prepared: Frame, excluded: Frame, head: Frame)
    ensures Emit(stem, format, true, "replaced", prepared) == []
    ensures Emit(stem, format, true, "excluded", excluded) == []
    ensures Emit(stem, format, true, "excluded_100", head) == []
  {
    IntermediateNotFinal(0);
    IntermediateNotFinal(1);
    IntermediateNotFinal(2);
  }

  /** The suffixes of a sequence of writes, in order. */
  function Suffixes(ws: seq<Write>): (r: seq<string>)
    ensures |r| == |ws| && forall i :: 0 <= i < |ws| ==> r[i] == ws[i].suffix
  {
    seq(|ws|, i requires 0 <= i < |ws| => ws[i].suffix)
  }

  /** Outside "only final" mode a run writes, in order, "replaced" (raw
      path only), "excluded", "excluded_100" and, if there is a final table,
      "FINAL", each where `output` puts it; the last write of a finished run
      holds the final table. */
  lemma WritesAll(stem: string, format: string, kind: Kind,
                  prepared: Frame, excluded: Frame, head: Frame, final: Option<Frame>)
    ensures var ws := Writes(stem, format, false, kind, prepared, excluded, head, final);
      Suffixes(ws)
        == (if kind == Raw then ["replaced"] else []) + ["excluded", "excluded_100"]
           + (if final.Some? then ["FINAL"] else [])
    ensures var ws := Writes(stem, format, false, kind, prepared, excluded, head, final);
      forall i :: 0 <= i < |ws| ==> Some(ws[i].target) == OutputTarget(stem, format, false, ws[i].suffix)
    ensures var ws := Writes(stem, format, false, kind, prepared, excluded, head, final);
      final.Some? ==> |ws| > 0 && ws[|ws| - 1].table == final.value
  {
  }

  /** In "only final" mode a run writes nothing but the final table, and
      only if there is one. */
  lemma WritesFinalOnly(stem: string, format: string, kind: Kind,
                        prepared: Frame, excluded: Frame, head: Frame, final: Option<Frame>)
    ensures Writes(stem, format, true, kind, prepared, excluded, head, final)
      == if final.None? then []
         else [Write("FINAL", OutputTarget(stem, format, true, "FINAL").value, final.value)]
  {
    NoIntermediateWrites(stem, format, prepared, excluded, head);
    FinalIsCollected(stem, format, true);
  }

  /** Lines 66-143 once the columns are named: prepare, then finish. A raw
      export whose doctor fields do not split and an empty processed file
      fail before anything is written, and so does a finished table the
      writer cannot write; every other failure is a short table. */
  function CleanLoaded(stem: string, format: string, onlyFinal: bool, loaded: Loaded): (run: Run)
    requires WellFormed(loaded.frame) && loaded.frame.columns == LayoutOf(loaded.kind)
    ensures run.outcome.Failure? ==>
      || run.outcome.error.SplitWidthMismatch? || run.outcome.error.NoColumnToDrop?
      || run.outcome.error.TooFewRows? || run.outcome.error.NoExcelEngine?
    ensures run.outcome.Failure? && run.outcome.error.NoExcelEngine? ==> onlyFinal && format != "csv"
    ensures run.outcome.Failure? && run.outcome.error.SplitWidthMismatch? <==>
      loaded.kind == Raw && !FullDoctors(SanitiseFrame(loaded.frame))
    ensures run.outcome.Failure? && run.outcome.error.NoColumnToDrop? <==>
      loaded.kind == Processed && |loaded.frame.rows| == 0
    ensures run.outcome.Failure? && !run.outcome.error.TooFewRows? ==> run.writes == []
  {
    match Prepare(stem, loaded)
    case Failure(e) => Run([], Failure(e))
    case Success(prepared) => Finish(stem, format, onlyFinal, loaded.kind, prepared)
  }

  /** `clean(filename, format, onlyOutputFinalFile)` on the spreadsheet
      `pd.read_excel(filename)` returns. A spreadsheet is rejected for its
      column count exactly when it has neither 11 nor 18 columns, and then
      nothing is written. */
  function Clean(filename: string, format: string, onlyFinal: bool, sheet: Sheet): (run: Run)
    requires Rectangular(sheet)
    ensures run.outcome == Failure(ColumnCountMismatch(sheet.width)) <==> sheet.width != 11 && sheet.width != 18
    ensures sheet.width != 11 && sheet.width != 18 ==> run.writes == []
  {
    match Detect(sheet)
    case Failure(e) => Run([], Failure(e))
    case Success(loaded) => CleanLoaded(Stem(filename), format, onlyFinal, loaded)
  }

  /** The doctor split fails exactly for a raw export one of whose
      sanitised doctor columns has no present cell with two spaces, and then
      nothing is written. */
  lemma CleanSplitFailure(filename: string, format: string, onlyFinal: bool, sheet: Sheet)
    requires Rectangular(sheet)
    ensures var run := Clean(filename, format, onlyFinal, sheet);
      run.outcome.Failure? && run.outcome.error.SplitWidthMismatch? <==>
        sheet.width == 11 && !FullDoctors(SanitiseFrame(Detect(sheet).value.frame))
    ensures var run := Clean(filename, format, onlyFinal, sheet);
      run.outcome.Failure? && run.outcome.error.SplitWidthMismatch? ==> run.writes == []
  {
  }

  /** A run that does not fail in reading or preparation (it finishes, or
      fails in a later stage or at the write) is `Finish` on the prepared
      table. */
  lemma CleanReachesFinish(filename: string, format: string, onlyFinal: bool, sheet: Sheet)
    requires Rectangular(sheet)
    requires var run := Clean(filename, format, onlyFinal, sheet);
      run.outcome.Success? || !(run.outcome.error.ColumnCountMismatch? || run.outcome.error.SplitWidthMismatch?)
    ensures Detect(sheet).Success? && Prepare(Stem(filename), Detect(sheet).value).Success?
    ensures var loaded := Detect(sheet).value;
      Clean(filename, format, onlyFinal, sheet)
        == Finish(Stem(filename), format, onlyFinal, loaded.kind, Prepare(Stem(filename), loaded).value)
  {
  }

  /** A finished run reports the kind and the prepared table it was given. */
  lemma FinishKeeps(stem: string, format: string, onlyFinal: bool, kind: Kind, prepared: Frame)
    requires WellFormed(prepared) && prepared.columns == PreparedLayout(kind)
    requires Finish(stem, format, onlyFinal, kind, prepared).outcome.Success?
    ensures var rep := Finish(stem, format, onlyFinal, kind, prepared).outcome.value;
      rep.kind == kind && rep.prepared == prepared
  {
  }

  /** The reports of a finished run over a table numbered as read: row
      `i` is in the keyword report exactly when it mentions a keyword; on
      the raw path it is in the empty-cell report exactly when it does not
      and has a missing cell, and on the processed path that report is
      empty. Both reports increase, and they and the at least 80 survivors
      count every row once. */
  lemma FinishReports(stem: string, format: string, onlyFinal: bool, kind: Kind, prepared: Frame)
    requires WellFormed(prepared) && prepared.columns == PreparedLayout(kind)
    requires Numbered(prepared.rows)
    requires Finish(stem, format, onlyFinal, kind, prepared).outcome.Success?
    ensures var rep := Finish(stem, format, onlyFinal, kind, prepared).outcome.value;
      && StrictlyIncreasing(rep.byKeyword) && StrictlyIncreasing(rep.byEmptyCell)
      && |rep.byKeyword| + |rep.byEmptyCell| + rep.remaining == |prepared.rows|
      && rep.remaining >= 80
    ensures var rep := Finish(stem, format, onlyFinal, kind, prepared).outcome.value;
      forall i: nat :: i in rep.byKeyword <==> i < |prepared.rows| && HasKeyword(prepared.rows[i])
    ensures var rep := Finish(stem, format, onlyFinal, kind, prepared).outcome.value;
      kind == Raw ==> forall i: nat :: i in rep.byEmptyCell <==>
        i < |prepared.rows| && !HasKeyword(prepared.rows[i]) && HasMissing(prepared.rows[i])
    ensures kind == Processed ==> Finish(stem, format, onlyFinal, kind, prepared).outcome.value.byEmptyCell == []
  {
    ExcludeNumbered(kind, prepared);
    KeywordReportNumbered(kind, prepared);
    if kind == Raw {
      EmptyCellReportNumbered(prepared);
    }
  }

  /** The reports of a finished run, in terms of the table the exclusion
      stages started from (see `CleanPrepared`): row `i` of the spreadsheet
      is in the keyword report exactly when its prepared row mentions a
      keyword; on the raw path it is in the empty-cell report exactly when
      that row does not and has a missing cell, and on the processed path
      that report is empty. Both reports increase, and they and the at least
      80 survivors count every row of the spreadsheet once. */
  lemma CleanReports(filename: string, format: string, onlyFinal: bool, sheet: Sheet)
    requires Rectangular(sheet) && Clean(filename, format, onlyFinal, sheet).outcome.Success?
    ensures var rep := Clean(filename, format, onlyFinal, sheet).outcome.value;
      && StrictlyIncreasing(rep.byKeyword) && StrictlyIncreasing(rep.byEmptyCell)
      && |rep.byKeyword| + |rep.byEmptyCell| + rep.remaining == |sheet.rows|
      && rep.remaining >= 80
    ensures var rep := Clean(filename, format, onlyFinal, sheet).outcome.value;
      |rep.prepared.rows| == |sheet.rows| &&
      forall i: nat :: i in rep.byKeyword <==> i < |sheet.rows| && HasKeyword(rep.prepared.rows[i])
    ensures var rep := Clean(filename, format, onlyFinal, sheet).outcome.value;
      rep.kind == Raw ==> forall i: nat :: i in rep.byEmptyCell <==>
        i < |sheet.rows| && !HasKeyword(rep.prepared.rows[i]) && HasMissing(rep.prepared.rows[i])
    ensures var rep := Clean(filename, format, onlyFinal, sheet).outcome.value;
      rep.kind == Processed ==> rep.byEmptyCell == []
  {
    CleanReachesFinish(filename, format, onlyFinal, sheet);
    var stem := Stem(filename);
    var loaded := Detect(sheet).value;
    var prepared := Prepare(stem, loaded).value;
    PreparedSheet(stem, sheet);
    FinishKeeps(stem, format, onlyFinal, loaded.kind, prepared);
    FinishReports(stem, format, onlyFinal, loaded.kind, prepared);
  }

  /** On the raw path, row `i` of the spreadsheet is in the empty-cell
      report exactly when its prepared row mentions no keyword and the
      export row itself has a missing cell or a doctor field with fewer
      than two spaces, which leaves the doctor's position missing. */
  lemma CleanEmptyCellRows(filename: string, format: string, onlyFinal: bool, sheet: Sheet)
    requires Rectangular(sheet) && Clean(filename, format, onlyFinal, sheet).outcome.Success?
    ensures var rep := Clean(filename, format, onlyFinal, sheet).outcome.value;
      rep.kind == Raw ==> |rep.prepared.rows| == |sheet.rows| && forall i: nat :: i in rep.byEmptyCell <==>
        i < |sheet.rows| && !HasKeyword(rep.prepared.rows[i]) && RawRowMissing(sheet.rows[i])
  {
    var rep := Clean(filename, format, onlyFinal, sheet).outcome.value;
    CleanReports(filename, format, onlyFinal, sheet);
    CleanPrepared(filename, format, onlyFinal, sheet);
    if rep.kind == Raw {
      forall i | 0 <= i < |sheet.rows|
        ensures HasMissing(rep.prepared.rows[i]) <==> RawRowMissing(sheet.rows[i])
      {
        PreparedFromMissing(NormaliseWhitespace(Stem(filename)), sheet.rows[i], rep.prepared.rows[i]);
      }
    }
  }

  /** The concluded table keeps the positions of the survivors it holds,
      so it is in position order when they are. */
  lemma ConcludePositions(stem: string, excluded: Frame)
    requires WellFormed(excluded) && excluded.columns == FinalLayout
    requires Conclude(stem, excluded).Success?
    ensures var t := Conclude(stem, excluded).value;
      forall k :: 0 <= k < |t.rows| ==> t.rows[k].index == excluded.rows[k].index
    ensures Ordered(excluded.rows) ==> Ordered(Conclude(stem, excluded).value.rows)
  {
  }

  /** The final table of a finished run: 18 columns, the first
      `min(survivors, 100)` survivors with the checks at 39, 59 and 79
      (category: the whitespace-normalised stem). */
  lemma FinishTable(stem: string, format: string, onlyFinal: bool, kind: Kind, prepared: Frame)
    requires WellFormed(prepared) && prepared.columns == PreparedLayout(kind)
    requires Finish(stem, format, onlyFinal, kind, prepared).outcome.Success?
    ensures var rep := Finish(stem, format, onlyFinal, kind, prepared).outcome.value;
      var t := rep.table;
      && WellFormed(t) && t.columns == FinalLayout
      && |t.rows| == (if rep.remaining < RowLimit then rep.remaining else RowLimit)
    ensures var t := Finish(stem, format, onlyFinal, kind, prepared).outcome.value.table;
      var category := NormaliseWhitespace(stem);
      && |t.rows| >= 80
      && t.rows[39].cells == AttentionCells(category, '4')
      && t.rows[59].cells == AttentionCells(category, '2')
      && t.rows[79].cells == AttentionCells(category, '1')
  {
  }

  /** A row that may survive both stages: it mentions no keyword and sits
      at a position of the prepared table; on the raw path it is a prepared
      row with no missing cell. */
  predicate Survivor(kind: Kind, prepared: Frame, r: Row) {
    && !HasKeyword(r)
    && r.index in IndexSet(prepared.rows)
    && (kind == Raw ==> r in prepared.rows && !HasMissing(r))
  }

  /** Every row left after the exclusion stages is a survivor. */
  lemma ExcludedSurvivors(kind: Kind, prepared: Frame)
    requires WellFormed(prepared) && prepared.columns == PreparedLayout(kind)
    ensures var ex := Exclude(kind, prepared).emptyCell.frame;
      forall k :: 0 <= k < |ex.rows| ==> Survivor(kind, prepared, ex.rows[k])
  {
    var ex := Exclude(kind, prepared).emptyCell.frame;
    ExcludedRows(kind, prepared);
    if kind == Raw {
      SubseqBounds(ex.rows, prepared.rows);
    }
  }

  /** Every row of the final table of a finished run but the checks is a
      survivor. */
  lemma FinishTableRows(stem: string, format: string, onlyFinal: bool, kind: Kind, prepared: Frame)
    requires WellFormed(prepared) && prepared.columns == PreparedLayout(kind)
    requires Finish(stem, format, onlyFinal, kind, prepared).outcome.Success?
    ensures var t := Finish(stem, format, onlyFinal, kind, prepared).outcome.value.table;
      forall k :: 0 <= k < |t.rows| && k != 39 && k != 59 && k != 79 ==> Survivor(kind, prepared, t.rows[k])
  {
    FinishConcludes(stem, format, onlyFinal, kind, prepared);
    ExcludedSurvivors(kind, prepared);
  }

  /** The rows of the final table of a finished run over a table in
      position order are in position order, each at a position of the
      prepared table. */
  lemma FinishTableOrder(stem: string, format: string, onlyFinal: bool, kind: Kind, prepared: Frame)
    requires WellFormed(prepared) && prepared.columns == PreparedLayout(kind)
    requires Ordered(prepared.rows)
    requires Finish(stem, format, onlyFinal, kind, prepared).outcome.Success?
    ensures var t := Finish(stem, format, onlyFinal, kind, prepared).outcome.value.table;
      && Ordered(t.rows)
      && forall k :: 0 <= k < |t.rows| ==> t.rows[k].index in IndexSet(prepared.rows)
  {
    var ex := Exclude(kind, prepared).emptyCell.frame;
    FinishConcludes(stem, format, onlyFinal, kind, prepared);
    ExcludeReports(kind, prepared);
    ExcludedSurvivors(kind, prepared);
    ConcludePositions(stem, ex);
  }

  /** The final table of a finished run is the concluded table of its
      survivors. */
  lemma FinishConcludes(stem: string, format: string, onlyFinal: bool, kind: Kind, prepared: Frame)
    requires WellFormed(prepared) && prepared.columns == PreparedLayout(kind)
    requires Finish(stem, format, onlyFinal, kind, prepared).outcome.Success?
    ensures var ex := Exclude(kind, prepared).emptyCell.frame;
      && Conclude(stem, ex).Success?
      && Finish(stem, format, onlyFinal, kind, prepared).outcome.value.table == Conclude(stem, ex).value
  {
  }

  /** The prepared table of a spreadsheet: its rows, numbered as read, under
      the layout of its kind (18 columns mean processed), each labelled with
      the category; for a processed file, row `i` is the stem followed by
      the `i`-th row of the spreadsheet, and for a raw export row `i` is
      what `PreparedFrom` derives from the `i`-th row of the spreadsheet. */
  lemma PreparedSheet(stem: string, sheet: Sheet)
    requires Rectangular(sheet) && Detect(sheet).Success?
    requires Prepare(stem, Detect(sheet).value).Success?
    ensures var loaded := Detect(sheet).value;
      var p := Prepare(stem, loaded).value;
      && (loaded.kind == Processed <==> sheet.width == 18)
      && WellFormed(p) && p.columns == PreparedLayout(loaded.kind)
      && |p.rows| == |sheet.rows| && Numbered(p.rows)
      && Labelled(p, CategoryOf(loaded.kind, stem))
    ensures var loaded := Detect(sheet).value;
      var p := Prepare(stem, loaded).value;
      loaded.kind == Processed ==> forall i :: 0 <= i < |sheet.rows| ==>
        p.rows[i] == Row(i, [Some(stem)] + sheet.rows[i])
    ensures var loaded := Detect(sheet).value;
      var p := Prepare(stem, loaded).value;
      loaded.kind == Raw ==> forall i :: 0 <= i < |sheet.rows| ==>
        PreparedFrom(NormaliseWhitespace(stem), sheet.rows[i], p.rows[i].cells)
  {
    var loaded := Detect(sheet).value;
    if loaded.kind == Raw {
      forall i | 0 <= i < |sheet.rows|
        ensures PreparedFrom(NormaliseWhitespace(stem), sheet.rows[i], Prepare(stem, loaded).value.rows[i].cells)
      {
        PrepareRawRow(stem, loaded.frame, i);
      }
    }
  }

  /** The table the exclusion stages of a finished run start from: the
      spreadsheet's rows, numbered as read, under the layout of its kind
      (18 columns mean processed), each labelled with the run's category;
      for a processed file, row `i` is the stem followed by the `i`-th row
      of the spreadsheet, and for a raw export it is what `PreparedFrom`
      derives from that row. */
  lemma CleanPrepared(filename: string, format: string, onlyFinal: bool, sheet: Sheet)
    requires Rectangular(sheet) && Clean(filename, format, onlyFinal, sheet).outcome.Success?
    ensures var rep := Clean(filename, format, onlyFinal, sheet).outcome.value;
      && (rep.kind == Processed <==> sheet.width == 18)
      && WellFormed(rep.prepared) && rep.prepared.columns == PreparedLayout(rep.kind)
      && |rep.prepared.rows| == |sheet.rows| && Numbered(rep.prepared.rows)
      && Labelled(rep.prepared, CategoryOf(rep.kind, Stem(filename)))
    ensures var rep := Clean(filename, format, onlyFinal, sheet).outcome.value;
      rep.kind == Processed ==> forall i :: 0 <= i < |sheet.rows| ==>
        rep.prepared.rows[i] == Row(i, [Some(Stem(filename))] + sheet.rows[i])
    ensures var rep := Clean(filename, format, onlyFinal, sheet).outcome.value;
      rep.kind == Raw ==> forall i :: 0 <= i < |sheet.rows| ==>
        PreparedFrom(NormaliseWhitespace(Stem(filename)), sheet.rows[i], rep.prepared.rows[i].cells)
  {
    CleanReachesFinish(filename, format, onlyFinal, sheet);
    var stem := Stem(filename);
    var loaded := Detect(sheet).value;
    PreparedSheet(stem, sheet);
    FinishKeeps(stem, format, onlyFinal, loaded.kind, Prepare(stem, loaded).value);
  }

  /** Outside "only final" mode a run over a prepared table writes
      "replaced" (raw path only), "excluded", "excluded_100", and "FINAL"
      exactly when it finishes, each where `output` puts it; an empty
      processed table writes nothing. */
  lemma FinishWritesAll(stem: string, format: string, kind: Kind, prepared: Frame)
    requires WellFormed(prepared) && prepared.columns == PreparedLayout(kind)
    ensures var run := Finish(stem, format, false, kind, prepared);
      Suffixes(run.writes)
        == if EmptyProcessed(kind, prepared) then []
           else
             (if kind == Raw then ["replaced"] else []) + ["excluded", "excluded_100"]
             + (if run.outcome.Success? then ["FINAL"] else [])
    ensures var run := Finish(stem, format, false, kind, prepared);
      forall i :: 0 <= i < |run.writes| ==>
        Some(run.writes[i].target) == OutputTarget(stem, format, false, run.writes[i].suffix)
  {
    var run := Finish(stem, format, false, kind, prepared);
    var ex := Exclude(kind, prepared).emptyCell.frame;
    var final := if run.outcome.Success? then Some(run.outcome.value.table) else None;
    if !EmptyProcessed(kind, prepared) {
      WritesAll(stem, format, kind, prepared, ex, Head(ex, RowLimit), final);
    }
  }

  /** In "only final" mode a run over a prepared table writes the final
      table alone, and nothing when the table is too short for the
      checks. */
  lemma FinishWritesFinalOnly(stem: string, format: string, kind: Kind, prepared: Frame)
    requires WellFormed(prepared) && prepared.columns == PreparedLayout(kind)
    ensures var run := Finish(stem, format, true, kind, prepared);
      run.writes == if run.outcome.Failure? then []
        else [Write("FINAL", OutputTarget(stem, format, true, "FINAL").value, run.outcome.value.table)]
  {
    var run := Finish(stem, format, true, kind, prepared);
    var ex := Exclude(kind, prepared).emptyCell.frame;
    var final := if run.outcome.Success? then Some(run.outcome.value.table) else None;
    if !EmptyProcessed(kind, prepared) {
      WritesFinalOnly(stem, format, kind, prepared, ex, Head(ex, RowLimit), final);
    }
  }

  /** Outside "only final" mode a run that gets past the preparation
      writes "replaced" for a raw export (11 columns), then "excluded" and
      "excluded_100", then "FINAL" exactly when it finishes, each where
      `output` puts it. */
  lemma CleanWritesAll(filename: string, format: string, sheet: Sheet)
    requires Rectangular(sheet)
    requires var run := Clean(filename, format, false, sheet);
      run.outcome.Success? || run.outcome.error.TooFewRows?
    ensures var run := Clean(filename, format, false, sheet);
      Suffixes(run.writes)
        == (if sheet.width == 11 then ["replaced"] else []) + ["excluded", "excluded_100"]
           + (if run.outcome.Success? then ["FINAL"] else [])
    ensures var run := Clean(filename, format, false, sheet);
      forall i :: 0 <= i < |run.writes| ==>
        Some(run.writes[i].target) == OutputTarget(Stem(filename), format, false, run.writes[i].suffix)
  {
    CleanReachesFinish(filename, format, false, sheet);
    var stem := Stem(filename);
    var loaded := Detect(sheet).value;
    assert loaded.kind == Raw <==> sheet.width == 11;
    FinishWritesAll(stem, format, loaded.kind, Prepare(stem, loaded).value);
  }

  /** In "only final" mode a run that gets past the preparation writes the
      final table alone when it finishes, and nothing when it fails. */
  lemma CleanWritesFinalOnly(filename: string, format: string, sheet: Sheet)
    requires Rectangular(sheet)
    requires var run := Clean(filename, format, true, sheet);
      run.outcome.Success? || !(run.outcome.error.ColumnCountMismatch? || run.outcome.error.SplitWidthMismatch?)
    ensures var run := Clean(filename, format, true, sheet);
      run.writes == if run.outcome.Failure? then []
        else [Write("FINAL", OutputTarget(Stem(filename), format, true, "FINAL").value, run.outcome.value.table)]
  {
    CleanReachesFinish(filename, format, true, sheet);
    var stem := Stem(filename);
    var loaded := Detect(sheet).value;
    FinishWritesFinalOnly(stem, format, loaded.kind, Prepare(stem, loaded).value);
  }

  /** The category cell takes part in the keyword test, so a category that
      mentions a keyword (a file stem containing `*`, `图` or `检查结果`)
      removes every row, and the run fails with no row left (an empty
      processed table fails before that). */
  lemma KeywordInCategory(stem: string, format: string, onlyFinal: bool, kind: Kind, prepared: Frame)
    requires WellFormed(prepared) && prepared.columns == PreparedLayout(kind)
    requires Labelled(prepared, CategoryOf(kind, stem)) && MentionsKeyword(CategoryOf(kind, stem))
    ensures Finish(stem, format, onlyFinal, kind, prepared).outcome
      == if EmptyProcessed(kind, prepared) then Failure(NoColumnToDrop) else Failure(TooFewRows(0))
  {
    forall k | 0 <= k < |prepared.rows| ensures HasKeyword(prepared.rows[k]) {
      assert prepared.rows[k].cells[0] == Some(CategoryOf(kind, stem));
    }
    var st := Exclude(kind, prepared);
    assert |st.emptyCell.frame.rows| == 0 by {
      if kind == Raw {
        SubseqBounds(st.emptyCell.frame.rows, st.keyword.frame.rows);
      }
    }
  }

  /** The same for a whole run: when the spreadsheet's category mentions a
      keyword, a run that gets past the preparation fails with no row
      left, unless the file is processed and empty. */
  lemma CleanKeywordInStem(filename: string, format: string, onlyFinal: bool, sheet: Sheet)
    requires Rectangular(sheet) && Detect(sheet).Success?
    requires Prepare(Stem(filename), Detect(sheet).value).Success?
    requires MentionsKeyword(CategoryOf(Detect(sheet).value.kind, Stem(filename)))
    ensures Clean(filename, format, onlyFinal, sheet).outcome
      == if sheet.width == 18 && |sheet.rows| == 0 then Failure(NoColumnToDrop) else Failure(TooFewRows(0))
  {
    var stem := Stem(filename);
    var loaded := Detect(sheet).value;
    var prepared := Prepare(stem, loaded).value;
    KeywordInCategory(stem, format, onlyFinal, loaded.kind, prepared);
  }

  /** An empty spreadsheet writes nothing: with 18 columns it fails at
      line 111, with 11 the doctor split has no column to assign, and any
      other width is rejected for its column count. */
  lemma CleanEmptySheet(filename: string, format: string, onlyFinal: bool, width: nat)
    ensures var run := Clean(filename, format, onlyFinal, Sheet(width, []));
      && run.writes == []
      && run.outcome == Failure(
           if width == 18 then NoColumnToDrop
           else if width == 11 then SplitWidthMismatch(First, 0)
           else ColumnCountMismatch(width))
  {
    var sheet := Sheet(width, []);
    if width == 11 {
      var f := Detect(sheet).value.frame;
      RawHasDoctors();
      assert Column(SanitiseFrame(f), Doc(First)) == [];
    }
  }

  /** In "only final" mode with a format other than `csv`, a run over a
      prepared table writes nothing: it fails where the `csv` run fails, and
      where the `csv` run finishes it fails at the `FINAL` write. */
  lemma ExcelFinalFinish(stem: string, format: string, kind: Kind, prepared: Frame)
    requires WellFormed(prepared) && prepared.columns == PreparedLayout(kind)
    requires format != "csv"
    ensures var csv := Finish(stem, "csv", true, kind, prepared);
      var run := Finish(stem, format, true, kind, prepared);
      && run.writes == []
      && run.outcome == if csv.outcome.Success? then Failure(NoExcelEngine) else csv.outcome
  {
    FinishWritesFinalOnly(stem, format, kind, prepared);
  }

  /** The same for a whole run: with `-f` and a format other than `csv`
      every `clean` call raises and writes nothing, and it raises at the
      `FINAL` write exactly when the `csv` run would have finished. */
  lemma CleanExcelFinal(filename: string, format: string, sheet: Sheet)
    requires Rectangular(sheet) && format != "csv"
    ensures var csv := Clean(filename, "csv", true, sheet);
      var run := Clean(filename, format, true, sheet);
      && run.writes == [] && run.outcome.Failure?
      && run.outcome == if csv.outcome.Success? then Failure(NoExcelEngine) else csv.outcome
  {
    if Detect(sheet).Success? {
      var loaded := Detect(sheet).value;
      if Prepare(Stem(filename), loaded).Success? {
        ExcelFinalFinish(Stem(filename), format, loaded.kind, Prepare(Stem(filename), loaded).value);
      }
    }
  }
}
