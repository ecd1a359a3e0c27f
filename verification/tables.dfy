/** The table the pipeline works on: a pandas DataFrame whose cells are
    strings or missing, whose columns have names, and whose rows keep the
    0-based position they had when the spreadsheet was read (the DataFrame
    index label). Also the generic column operations the pipeline uses. */
module Tables {
  import opened Wrappers

  /** A cell: `None` is pandas' NaN/None, `Some("")` is an empty string. */
  type Cell = Option<string>

  /** The three doctor answer slots (`doc1`/`doc2`/`doc3`, ...). */
  datatype Slot = First | Second | Third

  /** Column names. `Doc(First)` is `doc1`, `Hosp(Second)` is `hosp2`, and so on. */
  datatype Col =
    | Category | IsExcluded | Title | Description
    | Doc(slot: Slot) | Hosp(slot: Slot) | Pos(slot: Slot) | Info(slot: Slot) | Ans(slot: Slot)

  /** One row together with its original position in the spreadsheet. */
  datatype Row = Row(index: nat, cells: seq<Cell>)

  datatype Frame = Frame(columns: seq<Col>, rows: seq<Row>)

  /** The fatal errors of one `clean` run. */
  datatype CleanError =
    | ColumnCountMismatch(found: nat)       // renaming to the 11 raw names fails
    | SplitWidthMismatch(slot: Slot, width: nat)  // the doctor split did not give 3 columns
    | TooFewRows(found: nat)                // an attention-check position is out of range
    | NoColumnToDrop                        // `df.columns[1]` of a frame left with no columns
    | NoExcelEngine                         // `to_excel` asked to write a `.csv` name

  /** Every row has one cell per column. */
  predicate WellFormed(f: Frame) {
    forall k :: 0 <= k < |f.rows| ==> |f.rows[k].cells| == |f.columns|
  }

  /** Row positions strictly increase down the table. */
  predicate Ordered(rows: seq<Row>) {
    forall i, j :: 0 <= i < j < |rows| ==> rows[i].index < rows[j].index
  }

  /** `df.index.tolist()` */
  function Indices(rows: seq<Row>): (ix: seq<nat>)
    ensures |ix| == |rows|
    ensures forall k :: 0 <= k < |rows| ==> ix[k] == rows[k].index
  {
    if |rows| == 0 then [] else [rows[0].index] + Indices(rows[1..])
  }

  /** The rows after the first of an ordered table are ordered and lie
      after it. */
  lemma OrderedTail(rows: seq<Row>)
    requires Ordered(rows) && |rows| > 0
    ensures Ordered(rows[1..])
    ensures forall r :: r in rows[1..] ==> rows[0].index < r.index
  {
    forall r | r in rows[1..] ensures rows[0].index < r.index {
      var k :| 0 <= k < |rows[1..]| && rows[1..][k] == r;
      assert rows[k + 1] == r;
    }
  }

  /** A row placed before the rows of an ordered table, at a smaller
      position than all of them, keeps it ordered. */
  lemma OrderedCons(r: Row, rows: seq<Row>)
    requires Ordered(rows) && forall x :: x in rows ==> r.index < x.index
    ensures Ordered([r] + rows)
  {
    var t := [r] + rows;
    forall i, j | 0 <= i < j < |t| ensures t[i].index < t[j].index {
      assert t[j] == rows[j - 1] && rows[j - 1] in rows;
      if i > 0 {
        assert t[i] == rows[i - 1];
      }
    }
  }

  /** `set(df.index)` */
  function IndexSet(rows: seq<Row>): set<nat> {
    set r | r in rows :: r.index
  }

  /** The positions of a table with one more row in front. */
  lemma IndexSetCons(r: Row, rows: seq<Row>)
    ensures IndexSet([r] + rows) == {r.index} + IndexSet(rows)
    ensures Indices([r] + rows) == [r.index] + Indices(rows)
  {
    assert ([r] + rows)[1..] == rows;
    forall i | i in IndexSet([r] + rows) ensures i in {r.index} + IndexSet(rows) {
      var x :| x in [r] + rows && x.index == i;
    }
    forall i | i in IndexSet(rows) ensures i in IndexSet([r] + rows) {
      var x :| x in rows && x.index == i;
      assert x in [r] + rows;
    }
    assert r in [r] + rows;
  }

  /** Position of the first column named `c`. */
  function IndexOf(cols: seq<Col>, c: Col): (k: nat)
    requires c in cols
    ensures k < |cols| && cols[k] == c && c !in cols[..k]
  {
    if cols[0] == c then 0
    else
      assert cols == [cols[0]] + cols[1..];
      1 + IndexOf(cols[1..], c)
  }

  /** `df[c]`: the cells of column `c`, top to bottom. */
  function Column(f: Frame, c: Col): (col: seq<Cell>)
    requires WellFormed(f) && c in f.columns
    ensures |col| == |f.rows|
    ensures forall k :: 0 <= k < |col| ==> col[k] == f.rows[k].cells[IndexOf(f.columns, c)]
  {
    var j := IndexOf(f.columns, c);
    seq(|f.rows|, k requires 0 <= k < |f.rows| => f.rows[k].cells[j])
  }

  /** Appending columns does not move the existing ones. */
  lemma IndexOfAppend(cols: seq<Col>, extra: seq<Col>, c: Col)
    requires c in cols
    ensures c in cols + extra && IndexOf(cols + extra, c) == IndexOf(cols, c)
  {
    if cols[0] != c {
      assert (cols + extra)[1..] == cols[1..] + extra;
      IndexOfAppend(cols[1..], extra, c);
    }
  }

  /** A name found only among appended columns is found after the old ones. */
  lemma {:induction false} IndexOfAfter(cols: seq<Col>, extra: seq<Col>, c: Col)
    requires c !in cols && c in extra
    ensures c in cols + extra && IndexOf(cols + extra, c) == |cols| + IndexOf(extra, c)
  {
    if |cols| == 0 {
      assert cols + extra == extra;
    } else {
      assert (cols + extra)[1..] == cols[1..] + extra;
      IndexOfAfter(cols[1..], extra, c);
    }
  }

  /** `g` is a well-formed table with columns `cols` whose rows are those
      of `f`, position for position. */
  predicate SameRowsAs(g: Frame, f: Frame, cols: seq<Col>) {
    && WellFormed(g)
    && g.columns == cols
    && |g.rows| == |f.rows|
    && forall k :: 0 <= k < |g.rows| ==> g.rows[k].index == f.rows[k].index
  }

  /** `g` is `f` with the columns `added` put on the right; the rows are the
      same rows, by position, in the same order. */
  predicate Extends(g: Frame, f: Frame, added: seq<Col>) {
    && WellFormed(g)
    && g.columns == f.columns + added
    && |g.rows| == |f.rows|
    && forall k :: 0 <= k < |g.rows| ==> g.rows[k].index == f.rows[k].index
  }

  lemma ExtendsTrans(h: Frame, g: Frame, f: Frame, a: seq<Col>, b: seq<Col>)
    requires Extends(g, f, a) && Extends(h, g, b)
    ensures Extends(h, f, a + b)
  {
    assert f.columns + a + b == f.columns + (a + b);
  }

  /** `df[cols]`: the listed columns, in the listed order. */
  function Select(f: Frame, cols: seq<Col>): (r: Frame)
    requires WellFormed(f)
    requires forall j :: 0 <= j < |cols| ==> cols[j] in f.columns
    ensures WellFormed(r) && r.columns == cols
    ensures |r.rows| == |f.rows|
    ensures forall k :: 0 <= k < |r.rows| ==> r.rows[k].index == f.rows[k].index
    ensures forall k, j :: 0 <= k < |r.rows| && 0 <= j < |cols| ==>
      r.rows[k].cells[j] == f.rows[k].cells[IndexOf(f.columns, cols[j])]
  {
    Frame(cols, seq(|f.rows|, k requires 0 <= k < |f.rows| =>
      Row(f.rows[k].index, seq(|cols|, j requires 0 <= j < |cols| =>
        f.rows[k].cells[IndexOf(f.columns, cols[j])]))))
  }

  /** `df[c] = v; df = pd.DataFrame(df[c]).join(df.drop(c, axis=1))`: a new
      column holding `v` in every row, placed first. */
  function PrependConstant(f: Frame, c: Col, v: string): (r: Frame)
    requires WellFormed(f) && c !in f.columns
    ensures WellFormed(r) && r.columns == [c] + f.columns
    ensures |r.rows| == |f.rows|
    ensures forall k :: 0 <= k < |r.rows| ==> r.rows[k] == Row(f.rows[k].index, [Some(v)] + f.rows[k].cells)
  {
    Frame([c] + f.columns, seq(|f.rows|, k requires 0 <= k < |f.rows| =>
      Row(f.rows[k].index, [Some(v)] + f.rows[k].cells)))
  }

  /** A selected column reads as it did. */
  lemma SelectColumn(f: Frame, cols: seq<Col>, c: Col)
    requires WellFormed(f)
    requires forall j :: 0 <= j < |cols| ==> cols[j] in f.columns
    requires c in cols
    ensures c in Select(f, cols).columns && Column(Select(f, cols), c) == Column(f, c)
  {
    var i := IndexOf(cols, c);
    assert cols[i] == c;
  }

  /** After a constant column is put first, the old columns read as they
      did and the new one holds the constant in every row. */
  lemma PrependColumn(f: Frame, c0: Col, v: string, c: Col)
    requires WellFormed(f) && c0 !in f.columns && c in f.columns
    ensures Column(PrependConstant(f, c0, v), c) == Column(f, c)
    ensures Column(PrependConstant(f, c0, v), c0) == seq(|f.rows|, _ => Some(v))
  {
    var cols := [c0] + f.columns;
    assert cols[1..] == f.columns;
    assert IndexOf(cols, c) == 1 + IndexOf(f.columns, c);
  }

  /** `df.drop(df.columns[j], axis=1)` */
  function DropColumn(f: Frame, j: nat): (r: Frame)
    requires WellFormed(f) && j < |f.columns|
    ensures WellFormed(r) && r.columns == f.columns[..j] + f.columns[j + 1..]
    ensures |r.rows| == |f.rows|
    ensures forall k :: 0 <= k < |r.rows| ==>
      r.rows[k] == Row(f.rows[k].index, f.rows[k].cells[..j] + f.rows[k].cells[j + 1..])
  {
    Frame(f.columns[..j] + f.columns[j + 1..], seq(|f.rows|, k requires 0 <= k < |f.rows| =>
      Row(f.rows[k].index, f.rows[k].cells[..j] + f.rows[k].cells[j + 1..])))
  }

  /** Rows with the same positions, in the same order. */
  lemma SameIndices(a: seq<Row>, b: seq<Row>)
    requires |a| == |b|
    requires forall k :: 0 <= k < |a| ==> a[k].index == b[k].index
    ensures Indices(a) == Indices(b) && IndexSet(a) == IndexSet(b)
    ensures Ordered(a) <==> Ordered(b)
  {
    forall i | i in IndexSet(a) ensures i in IndexSet(b) {
      var r :| r in a && r.index == i;
      var k :| 0 <= k < |a| && a[k] == r;
      assert b[k] in b;
    }
    forall i | i in IndexSet(b) ensures i in IndexSet(a) {
      var r :| r in b && r.index == i;
      var k :| 0 <= k < |b| && b[k] == r;
      assert a[k] in a;
    }
  }
}
