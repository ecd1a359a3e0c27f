/** Doctor-field splitting on the raw path (data/clean.py:89-91):
    `df[['docN', 'hospN', 'posN']] = df['docN'].str.split(' ', n=2, expand=True)`. */
module Doctor {
  import opened Wrappers
  import opened Text
  import opened Tables
  import opened Schema

  /** One row of the three-column expansion: name, hospital, position. */
  datatype DoctorParts = DoctorParts(name: Cell, hospital: Cell, position: Cell)

  /** Some present cell of the column has at least two spaces. */
  predicate HasFullDoctorField(col: seq<Cell>) {
    exists k :: 0 <= k < |col| && col[k].Some? && Count(col[k].value, ' ') >= 2
  }

  /** Length of the list `str.split(' ', n=2)` gives for one cell; pandas
      treats a missing cell as the one-element list `[NaN]`. */
  function PartCount(c: Cell): (n: nat)
    ensures 1 <= n <= 3
    ensures n == 3 <==> c.Some? && Count(c.value, ' ') >= 2
  {
    match c
    case None => 1
    case Some(s) => |SplitOnSpace(s)|
  }

  /** Number of columns `expand=True` produces: the longest list in the
      column, 0 for an empty column. It is 3 exactly when some present cell
      has two spaces. */
  function ExpandWidth(col: seq<Cell>): (w: nat)
    ensures w <= 3
    ensures |col| > 0 ==> w >= 1
    ensures w == 3 <==> HasFullDoctorField(col)
    decreases |col|
  {
    if |col| == 0 then 0
    else
      var rest := ExpandWidth(col[1..]);
      var head := PartCount(col[0]);
      assert HasFullDoctorField(col) <==> head == 3 || HasFullDoctorField(col[1..]) by {
        if HasFullDoctorField(col) {
          var k :| 0 <= k < |col| && col[k].Some? && Count(col[k].value, ' ') >= 2;
          if k > 0 {
            assert col[1..][k - 1] == col[k];
          }
        }
        if HasFullDoctorField(col[1..]) {
          var k :| 0 <= k < |col[1..]| && col[1..][k].Some? && Count(col[1..][k].value, ' ') >= 2;
          assert col[k + 1] == col[1..][k];
        }
      }
      if head >= rest then head else rest
  }

  /** One cell of the doctor column, split into name, hospital and position
      as the three-column expansion has it. With two or more spaces the parts
      joined by single spaces give the cell back, and only the position may
      hold further spaces; with fewer spaces the trailing parts are missing,
      not empty; a missing cell gives three missing parts. */
  function SplitDoctor(c: Cell): (p: DoctorParts)
    ensures c.None? ==> p == DoctorParts(None, None, None)
    ensures c.Some? && Count(c.value, ' ') >= 2 ==>
      && p.name.Some? && p.hospital.Some? && p.position.Some?
      && p.name.value + " " + p.hospital.value + " " + p.position.value == c.value
      && ' ' !in p.name.value && ' ' !in p.hospital.value
    ensures c.Some? && Count(c.value, ' ') == 1 ==>
      && p.name.Some? && p.hospital.Some? && p.position.None?
      && p.name.value + " " + p.hospital.value == c.value
      && ' ' !in p.name.value && ' ' !in p.hospital.value
    ensures c.Some? && Count(c.value, ' ') == 0 ==> p == DoctorParts(c, None, None)
  {
    match c
    case None => DoctorParts(None, None, None)
    case Some(s) =>
      var parts := SplitOnSpace(s);
      if |parts| == 3 then DoctorParts(Some(parts[0]), Some(parts[1]), Some(parts[2]))
      else if |parts| == 2 then DoctorParts(Some(parts[0]), Some(parts[1]), None)
      else DoctorParts(Some(parts[0]), None, None)
  }

  /** The columns the split of one slot adds: `hospN` and `posN`. */
  function Added(slot: Slot): seq<Col> {
    [Hosp(slot), Pos(slot)]
  }

  /** The three-column expansion of one slot written back into the frame:
      `docN` is overwritten in place with the name, and `hospN`, `posN` (new
      columns) are appended on the right, as pandas does when some of the
      assigned names are new. */
  function ApplySplit(f: Frame, slot: Slot): (g: Frame)
    requires WellFormed(f) && Doc(slot) in f.columns
    ensures Extends(g, f, Added(slot))
  {
    var j := IndexOf(f.columns, Doc(slot));
    Frame(f.columns + Added(slot), seq(|f.rows|, k requires 0 <= k < |f.rows| =>
      var p := SplitDoctor(f.rows[k].cells[j]);
      Row(f.rows[k].index, f.rows[k].cells[j := p.name] + [p.hospital, p.position])))
  }

  /** One row after the expansion of `slot`. */
  lemma ApplySplitRow(f: Frame, slot: Slot, k: nat)
    requires WellFormed(f) && Doc(slot) in f.columns && k < |f.rows|
    ensures var j := IndexOf(f.columns, Doc(slot));
      var p := SplitDoctor(f.rows[k].cells[j]);
      ApplySplit(f, slot).rows[k].cells == f.rows[k].cells[j := p.name] + [p.hospital, p.position]
  {
  }

  /** The names, hospitals and positions a doctor column splits into. */
  function Names(col: seq<Cell>): (r: seq<Cell>)
    ensures |r| == |col| && forall k :: 0 <= k < |col| ==> r[k] == SplitDoctor(col[k]).name
  {
    seq(|col|, k requires 0 <= k < |col| => SplitDoctor(col[k]).name)
  }

  function Hospitals(col: seq<Cell>): (r: seq<Cell>)
    ensures |r| == |col| && forall k :: 0 <= k < |col| ==> r[k] == SplitDoctor(col[k]).hospital
  {
    seq(|col|, k requires 0 <= k < |col| => SplitDoctor(col[k]).hospital)
  }

  function Positions(col: seq<Cell>): (r: seq<Cell>)
    ensures |r| == |col| && forall k :: 0 <= k < |col| ==> r[k] == SplitDoctor(col[k]).position
  {
    seq(|col|, k requires 0 <= k < |col| => SplitDoctor(col[k]).position)
  }

  /** What the expansion puts in each row: the split of the old `docN` cell
      in `docN`, `hospN` and `posN`, every other cell unchanged. */
  lemma ApplySplitCells(f: Frame, slot: Slot, k: nat)
    requires WellFormed(f) && Doc(slot) in f.columns && k < |f.rows|
    ensures var g := ApplySplit(f, slot);
      var j := IndexOf(f.columns, Doc(slot));
      var p := SplitDoctor(f.rows[k].cells[j]);
      && g.rows[k].cells[j] == p.name
      && g.rows[k].cells[|f.columns|] == p.hospital
      && g.rows[k].cells[|f.columns| + 1] == p.position
      && forall i :: 0 <= i < |f.columns| && i != j ==> g.rows[k].cells[i] == f.rows[k].cells[i]
  {
    var j := IndexOf(f.columns, Doc(slot));
    var p := SplitDoctor(f.rows[k].cells[j]);
    var before := f.rows[k].cells;
    var after := ApplySplit(f, slot).rows[k].cells;
    assert after == before[j := p.name] + [p.hospital, p.position];
    assert |before| == |f.columns|;
  }

  /** After the expansion, `docN`, `hospN` and `posN` read as the names,
      hospitals and positions of the old `docN` column. */
  lemma ApplySplitColumns(f: Frame, slot: Slot)
    requires WellFormed(f) && Doc(slot) in f.columns
    requires Hosp(slot) !in f.columns && Pos(slot) !in f.columns
    ensures var g := ApplySplit(f, slot); var col := Column(f, Doc(slot));
      && Column(g, Doc(slot)) == Names(col)
      && Column(g, Hosp(slot)) == Hospitals(col)
      && Column(g, Pos(slot)) == Positions(col)
  {
    var g := ApplySplit(f, slot);
    var j := IndexOf(f.columns, Doc(slot));
    IndexOfAppend(f.columns, [Hosp(slot), Pos(slot)], Doc(slot));
    IndexOfNew(f.columns, Hosp(slot), Pos(slot));
    forall k | 0 <= k < |f.rows| {
      ApplySplitCells(f, slot, k);
    }
  }

  /** Appended names that were not there before sit right after the old ones. */
  lemma IndexOfNew(cols: seq<Col>, a: Col, b: Col)
    requires a !in cols && b !in cols && a != b
    ensures IndexOf(cols + [a, b], a) == |cols|
    ensures IndexOf(cols + [a, b], b) == |cols| + 1
  {
    IndexOfAfter(cols, [a, b], a);
    IndexOfAfter(cols, [a, b], b);
    assert IndexOf([a, b], b) == 1 by {
      assert [a, b][1..] == [b];
    }
  }

  /** A column other than the split one reads the same after the split. */
  lemma ApplySplitKeepsColumn(f: Frame, slot: Slot, c: Col)
    requires WellFormed(f) && Doc(slot) in f.columns && c in f.columns && c != Doc(slot)
    ensures c in ApplySplit(f, slot).columns
    ensures Column(ApplySplit(f, slot), c) == Column(f, c)
  {
    var g := ApplySplit(f, slot);
    IndexOfAppend(f.columns, [Hosp(slot), Pos(slot)], c);
    var i := IndexOf(f.columns, c);
    forall k | 0 <= k < |f.rows| ensures g.rows[k].cells[i] == f.rows[k].cells[i] {
      ApplySplitCells(f, slot, k);
    }
  }

  /** The split of one doctor slot. It fails, as pandas' assignment of a
      narrower frame to three column names does, unless some present cell
      has two spaces; the error records the width the expansion had. */
  function SplitSlot(f: Frame, slot: Slot): (r: Result<Frame, CleanError>)
    requires WellFormed(f) && Doc(slot) in f.columns
    ensures r.Success? <==> HasFullDoctorField(Column(f, Doc(slot)))
    ensures r.Failure? ==> r.error == SplitWidthMismatch(slot, ExpandWidth(Column(f, Doc(slot))))
    ensures r.Success? ==> r.value == ApplySplit(f, slot)
  {
    var width := ExpandWidth(Column(f, Doc(slot)));
    if width != 3 then Failure(SplitWidthMismatch(slot, width))
    else Success(ApplySplit(f, slot))
  }

  /** The columns the three splits add, in the order they are added. */
  const SplitColumns: seq<Col> := Added(First) + (Added(Second) + Added(Third))

  /** The second and third slots split, after the first one. */
  function SplitLastTwo(f: Frame): (r: Result<Frame, CleanError>)
    requires WellFormed(f) && Doc(Second) in f.columns && Doc(Third) in f.columns
    ensures r.Success? <==>
      HasFullDoctorField(Column(f, Doc(Second))) && HasFullDoctorField(Column(f, Doc(Third)))
    ensures r.Failure? ==> r.error.SplitWidthMismatch?
    ensures r.Success? ==> Extends(r.value, f, Added(Second) + Added(Third))
  {
    match SplitSlot(f, Second)
    case Failure(e) => Failure(e)
    case Success(f1) =>
      assert Doc(Third) in f1.columns && Column(f1, Doc(Third)) == Column(f, Doc(Third)) by {
        ApplySplitKeepsColumn(f, Second, Doc(Third));
      }
      var r := SplitSlot(f1, Third);
      assert r.Success? ==> Extends(r.value, f, Added(Second) + Added(Third)) by {
        if r.Success? {
          ExtendsTrans(r.value, f1, f, Added(Second), Added(Third));
        }
      }
      r
  }

  /** The three slots split in order, the first failure stopping the run.
      On success the frame has gained `hosp1`, `pos1`, `hosp2`, `pos2`,
      `hosp3`, `pos3` on the right. */
  function SplitAll(f: Frame): (r: Result<Frame, CleanError>)
    requires WellFormed(f)
    requires Doc(First) in f.columns && Doc(Second) in f.columns && Doc(Third) in f.columns
    ensures r.Success? <==>
      && HasFullDoctorField(Column(f, Doc(First)))
      && HasFullDoctorField(Column(f, Doc(Second)))
      && HasFullDoctorField(Column(f, Doc(Third)))
    ensures r.Failure? ==> r.error.SplitWidthMismatch?
    ensures r.Success? ==> Extends(r.value, f, SplitColumns)
  {
    match SplitSlot(f, First)
    case Failure(e) => Failure(e)
    case Success(f1) =>
      assert Doc(Second) in f1.columns && Column(f1, Doc(Second)) == Column(f, Doc(Second)) by {
        ApplySplitKeepsColumn(f, First, Doc(Second));
      }
      assert Doc(Third) in f1.columns && Column(f1, Doc(Third)) == Column(f, Doc(Third)) by {
        ApplySplitKeepsColumn(f, First, Doc(Third));
      }
      var r := SplitLastTwo(f1);
      assert r.Success? ==> Extends(r.value, f, SplitColumns) by {
        if r.Success? {
          ExtendsTrans(r.value, f1, f, Added(First), Added(Second) + Added(Third));
        }
      }
      r
  }

  /** In `g`, the columns of `slot` hold the split of `f`'s `docN` column. */
  predicate HoldsSplitOf(g: Frame, f: Frame, slot: Slot) {
    && WellFormed(g) && WellFormed(f) && Doc(slot) in f.columns
    && Doc(slot) in g.columns && Hosp(slot) in g.columns && Pos(slot) in g.columns
    && Column(g, Doc(slot)) == Names(Column(f, Doc(slot)))
    && Column(g, Hosp(slot)) == Hospitals(Column(f, Doc(slot)))
    && Column(g, Pos(slot)) == Positions(Column(f, Doc(slot)))
  }

  /** Column `c` reads the same in `g` as in `f`. */
  predicate KeepsColumn(g: Frame, f: Frame, c: Col) {
    WellFormed(g) && WellFormed(f) && c in f.columns && c in g.columns && Column(g, c) == Column(f, c)
  }

  /** Splitting another slot leaves an earlier split in place. */
  lemma LaterSplitKeeps(g: Frame, f: Frame, slot: Slot, later: Slot)
    requires HoldsSplitOf(g, f, slot) && Doc(later) in g.columns && later != slot
    ensures HoldsSplitOf(ApplySplit(g, later), f, slot)
  {
    ApplySplitKeepsColumn(g, later, Doc(slot));
    ApplySplitKeepsColumn(g, later, Hosp(slot));
    ApplySplitKeepsColumn(g, later, Pos(slot));
  }

  /** Splitting a slot leaves every column but its `docN` in place. */
  lemma SplitKeeps(g: Frame, f: Frame, slot: Slot, c: Col)
    requires KeepsColumn(g, f, c) && Doc(slot) in g.columns && c != Doc(slot)
    ensures KeepsColumn(ApplySplit(g, slot), f, c)
  {
    ApplySplitKeepsColumn(g, slot, c);
  }

  /** None of the columns the split adds is there yet. */
  predicate NotYetSplit(cols: seq<Col>) {
    forall slot :: Hosp(slot) !in cols && Pos(slot) !in cols
  }

  /** The columns another slot adds are not the ones `slot` adds. */
  lemma AddedElsewhere(cols: seq<Col>, a: Slot, slot: Slot)
    requires Hosp(slot) !in cols && Pos(slot) !in cols && slot != a
    ensures Hosp(slot) !in cols + Added(a) && Pos(slot) !in cols + Added(a)
  {
  }

  /** Splitting `slot` in a frame that still reads `f`'s `docN` column. */
  lemma SplitAfter(g: Frame, f: Frame, slot: Slot)
    requires KeepsColumn(g, f, Doc(slot)) && Hosp(slot) !in g.columns && Pos(slot) !in g.columns
    ensures HoldsSplitOf(ApplySplit(g, slot), f, slot)
  {
    ApplySplitColumns(g, slot);
  }

  /** The doctor stage as a whole, on a frame that has the three `docN`
      columns and none of the columns the split adds: afterwards `docN`,
      `hospN` and `posN` hold the name, hospital and position split from
      the old `docN`, for every slot, and every other column is as it was. */
  lemma SplitAllColumns(f: Frame)
    requires WellFormed(f) && NotYetSplit(f.columns)
    requires Doc(First) in f.columns && Doc(Second) in f.columns && Doc(Third) in f.columns
    requires SplitAll(f).Success?
    ensures HoldsSplitOf(SplitAll(f).value, f, First)
    ensures HoldsSplitOf(SplitAll(f).value, f, Second)
    ensures HoldsSplitOf(SplitAll(f).value, f, Third)
    ensures forall c :: c in f.columns && !c.Doc? ==> KeepsColumn(SplitAll(f).value, f, c)
  {
    var f1 := ApplySplit(f, First);
    var f2 := ApplySplit(f1, Second);
    var g := ApplySplit(f2, Third);
    assert SplitAll(f).value == g;
    assert f1.columns == f.columns + Added(First);
    assert f2.columns == f1.columns + Added(Second);
    assert HoldsSplitOf(g, f, First) by {
      SplitAfter(f, f, First);
      LaterSplitKeeps(f1, f, First, Second);
      LaterSplitKeeps(f2, f, First, Third);
    }
    assert HoldsSplitOf(g, f, Second) by {
      SplitKeeps(f, f, First, Doc(Second));
      AddedElsewhere(f.columns, First, Second);
      SplitAfter(f1, f, Second);
      LaterSplitKeeps(f2, f, Second, Third);
    }
    assert HoldsSplitOf(g, f, Third) by {
      SplitKeeps(f, f, First, Doc(Third));
      SplitKeeps(f1, f, Second, Doc(Third));
      AddedElsewhere(f.columns, First, Third);
      AddedElsewhere(f1.columns, Second, Third);
      SplitAfter(f2, f, Third);
    }
    forall c | c in f.columns && !c.Doc? ensures KeepsColumn(g, f, c) {
      SplitKeeps(f, f, First, c);
      SplitKeeps(f1, f, Second, c);
      SplitKeeps(f2, f, Third, c);
    }
  }
}
