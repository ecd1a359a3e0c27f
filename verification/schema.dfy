/** Schema detection and column naming (data/clean.py:65-76): the column
    count alone decides whether a spreadsheet is a raw export or a file this
    program already produced, and the names are then assigned by position. */
module Schema {
  import opened Wrappers
  import opened Tables

  /** A spreadsheet as read: a column count and rows of cells. */
  datatype Sheet = Sheet(width: nat, rows: seq<seq<Cell>>)

  /** A DataFrame is rectangular. */
  predicate Rectangular(sheet: Sheet) {
    forall k :: 0 <= k < |sheet.rows| ==> |sheet.rows[k]| == sheet.width
  }

  /** Raw export, or a file this program already processed. */
  datatype Kind = Raw | Processed

  /** The names assigned to a raw export (line 76). */
  const RawLayout: seq<Col> := [
    Title, Description,
    Doc(First), Info(First), Ans(First),
    Doc(Second), Info(Second), Ans(Second),
    Doc(Third), Info(Third), Ans(Third)
  ]

  /** The column order selected on the raw path after the split (line 92). */
  const BodyLayout: seq<Col> := [
    Title, Description,
    Doc(First), Hosp(First), Pos(First), Info(First), Ans(First),
    Doc(Second), Hosp(Second), Pos(Second), Info(Second), Ans(Second),
    Doc(Third), Hosp(Third), Pos(Third), Info(Third), Ans(Third)
  ]

  /** The names assigned to an already processed file (lines 70-72): its
      first column is read as `isExcluded`, the other 17 are the body
      columns in the order line 92 selects them. */
  const ProcessedLayout: seq<Col> := [IsExcluded] + BodyLayout

  /** The 18-column layout every successful run ends with: the category,
      the title, the description, then name, hospital, position, information
      and answer for each of the three doctors. */
  const FinalLayout: seq<Col> := [Category] + BodyLayout

  /** The result of reading and naming a spreadsheet. */
  datatype Loaded = Loaded(kind: Kind, frame: Frame)

  /** `df = pd.read_excel(...)` followed by the `df.columns = [...]` of the
      detected kind. 18 columns mean "already processed"; any other count
      gets the 11 raw names, which pandas refuses unless there are exactly 11. */
  function Detect(sheet: Sheet): (r: Result<Loaded, CleanError>)
    requires Rectangular(sheet)
    ensures r.Success? <==> sheet.width == 11 || sheet.width == 18
    ensures r.Failure? ==> r.error == ColumnCountMismatch(sheet.width)
    ensures r.Success? ==> (r.value.kind == Processed <==> sheet.width == 18)
    ensures r.Success? ==> var f := r.value.frame;
      && WellFormed(f)
      && f.columns == (if r.value.kind == Processed then ProcessedLayout else RawLayout)
      && |f.rows| == |sheet.rows|
      && forall k :: 0 <= k < |f.rows| ==> f.rows[k] == Row(k, sheet.rows[k])
  {
    var rows := seq(|sheet.rows|, k requires 0 <= k < |sheet.rows| => Row(k, sheet.rows[k]));
    if sheet.width == 18 then Success(Loaded(Processed, Frame(ProcessedLayout, rows)))
    else if sheet.width == |RawLayout| then Success(Loaded(Raw, Frame(RawLayout, rows)))
    else Failure(ColumnCountMismatch(sheet.width))
  }

  /** Rows read from a spreadsheet are numbered 0, 1, 2, ... */
  lemma LoadedIndices(f: Frame, n: nat)
    requires |f.rows| == n && forall k :: 0 <= k < n ==> f.rows[k].index == k
    ensures Ordered(f.rows)
    ensures forall i: nat :: i in IndexSet(f.rows) <==> i < n
  {
    forall i | 0 <= i < n ensures i in IndexSet(f.rows) {
      assert f.rows[i] in f.rows;
    }
  }
}
