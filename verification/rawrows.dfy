/** Where each cell of a raw export ends up (data/clean.py:85-94): the
    positions of the columns once the doctor fields are split, what the
    three splits and the selection in body order do to one row, and the
    prepared row stated directly in terms of the row that was read. */
module RawRows {
  import opened Wrappers
  import opened Text
  import opened Tables
  import opened Schema
  import opened Sanitiser
  import opened Doctor
  import opened Exclusion

  function SlotNumber(slot: Slot): (n: nat)
    ensures n <= 2
  {
    match slot
    case First => 0
    case Second => 1
    case Third => 2
  }

  /** The position of a column of a raw export after the three splits:
      the 11 names of line 76, then `hosp1`, `pos1`, `hosp2`, `pos2`,
      `hosp3`, `pos3` in the order the splits add them. A raw export has no
      `category` or `isExcluded` column at that point; they get the first
      position past the end, which no lemma reads. */
  function SplitPosition(c: Col): nat {
    match c
    case Title => 0
    case Description => 1
    case Doc(slot) => 2 + 3 * SlotNumber(slot)
    case Info(slot) => 3 + 3 * SlotNumber(slot)
    case Ans(slot) => 4 + 3 * SlotNumber(slot)
    case Hosp(slot) => 11 + 2 * SlotNumber(slot)
    case Pos(slot) => 12 + 2 * SlotNumber(slot)
    case Category => 17
    case IsExcluded => 17
  }

  /** `SplitPosition` numbers the split layout from left to right. */
  lemma SplitPositionsInOrder()
    ensures var cols := RawLayout + SplitColumns;
      forall i :: 0 <= i < |cols| ==> SplitPosition(cols[i]) == i
  {
    var cols := RawLayout + SplitColumns;
    assert cols == [Title, Description, Doc(First), Info(First), Ans(First),
      Doc(Second), Info(Second), Ans(Second), Doc(Third), Info(Third), Ans(Third),
      Hosp(First), Pos(First), Hosp(Second), Pos(Second), Hosp(Third), Pos(Third)];
  }

  /** Where the three doctor fields sit in the raw layout. */
  lemma DocPositions()
    ensures SplitPosition(Doc(First)) == 2 && SplitPosition(Doc(Second)) == 5
      && SplitPosition(Doc(Third)) == 8
  {
  }

  /** A column is found where `SplitPosition` puts it, in the raw layout
      and in the layout after any number of splits. */
  lemma SplitIndexOf(extra: seq<Col>, c: Col)
    requires c in RawLayout
    ensures c in RawLayout + extra && IndexOf(RawLayout + extra, c) == SplitPosition(c)
  {
    SplitPositionsInOrder();
    IndexOfAppend(RawLayout, SplitColumns, c);
    IndexOfAppend(RawLayout, extra, c);
  }

  /** Every body column is there once the doctor fields are split. */
  lemma BodyAvailable()
    ensures forall j :: 0 <= j < |BodyLayout| ==> BodyLayout[j] in RawLayout + SplitColumns
  {
    var all := RawLayout + SplitColumns;
    assert all[11] == Hosp(First) && all[12] == Pos(First);
    assert all[13] == Hosp(Second) && all[14] == Pos(Second);
    assert all[15] == Hosp(Third) && all[16] == Pos(Third);
    assert forall j :: 0 <= j < |RawLayout| ==> all[j] == RawLayout[j];
  }

  /** The three in-place updates and appends of the splits, on one row
      of 11 cells. */
  lemma SplitCells(c: seq<Cell>, d1: DoctorParts, d2: DoctorParts, d3: DoctorParts)
    requires |c| == |RawLayout|
    ensures var c1 := c[2 := d1.name] + [d1.hospital, d1.position];
      var c2 := c1[5 := d2.name] + [d2.hospital, d2.position];
      && c1[5] == c[5] && c2[8] == c[8]
      && c2[8 := d3.name] + [d3.hospital, d3.position]
         == c[2 := d1.name][5 := d2.name][8 := d3.name]
            + [d1.hospital, d1.position, d2.hospital, d2.position, d3.hospital, d3.position]
  {
  }

  /** The raw layout has the three doctor columns. */
  lemma RawHasDoctors()
    ensures Doc(First) in RawLayout && Doc(Second) in RawLayout && Doc(Third) in RawLayout
  {
    assert RawLayout[2] == Doc(First) && RawLayout[5] == Doc(Second) && RawLayout[8] == Doc(Third);
  }

  /** One split applied to a frame in the raw layout followed by the
      columns `extra`: the row gets the name in place of the doctor field
      and the hospital and position at its end. */
  lemma SplitStepRow(f: Frame, slot: Slot, extra: seq<Col>, k: nat)
    requires WellFormed(f) && f.columns == RawLayout + extra && k < |f.rows|
    ensures var j := SplitPosition(Doc(slot));
      && j < |f.rows[k].cells|
      && var p := SplitDoctor(f.rows[k].cells[j]);
      && ApplySplit(f, slot).rows[k].cells == f.rows[k].cells[j := p.name] + [p.hospital, p.position]
      && ApplySplit(f, slot).columns == RawLayout + (extra + Added(slot))
  {
    DocPositions();
    RawHasDoctors();
    SplitIndexOf(extra, Doc(slot));
    ApplySplitRow(f, slot, k);
  }

  /** The three expansions in turn, on one row of a raw export. */
  lemma ThreeSplitsRow(s: Frame, k: nat)
    requires WellFormed(s) && s.columns == RawLayout && k < |s.rows|
    ensures Doc(First) in s.columns
    ensures Doc(Second) in ApplySplit(s, First).columns
    ensures Doc(Third) in ApplySplit(ApplySplit(s, First), Second).columns
    ensures var c := s.rows[k].cells;
      var d1 := SplitDoctor(c[2]);
      var d2 := SplitDoctor(c[5]);
      var d3 := SplitDoctor(c[8]);
      ApplySplit(ApplySplit(ApplySplit(s, First), Second), Third).rows[k].cells
        == c[2 := d1.name][5 := d2.name][8 := d3.name]
           + [d1.hospital, d1.position, d2.hospital, d2.position, d3.hospital, d3.position]
  {
    DocPositions();
    var c := s.rows[k].cells;
    assert s.columns == RawLayout + [];
    RawHasDoctors();
    SplitStepRow(s, First, [], k);
    var f1 := ApplySplit(s, First);
    assert [] + Added(First) == Added(First);
    SplitIndexOf(Added(First), Doc(Second));
    SplitStepRow(f1, Second, Added(First), k);
    var f2 := ApplySplit(f1, Second);
    SplitIndexOf(Added(First) + Added(Second), Doc(Third));
    SplitStepRow(f2, Third, Added(First) + Added(Second), k);
    SplitCells(c, SplitDoctor(c[2]), SplitDoctor(c[5]), SplitDoctor(c[8]));
  }

  /** A successful `SplitAll` is the three expansions in turn. */
  lemma SplitAllValue(s: Frame)
    requires WellFormed(s) && s.columns == RawLayout
    requires SplitAll(s).Success?
    ensures Doc(Second) in ApplySplit(s, First).columns
    ensures Doc(Third) in ApplySplit(ApplySplit(s, First), Second).columns
    ensures SplitAll(s).value == ApplySplit(ApplySplit(ApplySplit(s, First), Second), Third)
  {
    ApplySplitKeepsColumn(s, First, Doc(Second));
    ApplySplitKeepsColumn(s, First, Doc(Third));
    ApplySplitKeepsColumn(ApplySplit(s, First), Second, Doc(Third));
  }

  /** The cell column `col` holds after the three splits of the row `c`
      of a raw export: a doctor's name, hospital or position split from the
      `docN` field, any other column the cell of that name. */
  function SplitCell(col: Col, c: seq<Cell>): Cell
    requires |c| == |RawLayout| && col != Category && col != IsExcluded
  {
    match col
    case Doc(slot) => SplitDoctor(c[SplitPosition(Doc(slot))]).name
    case Hosp(slot) => SplitDoctor(c[SplitPosition(Doc(slot))]).hospital
    case Pos(slot) => SplitDoctor(c[SplitPosition(Doc(slot))]).position
    case Title => c[0]
    case Description => c[1]
    case Info(slot) => c[SplitPosition(Info(slot))]
    case Ans(slot) => c[SplitPosition(Ans(slot))]
  }

  /** The row `c` of a raw export after the three splits into `d1`, `d2`
      and `d3`: each `docN` cell replaced by the name, the hospitals and
      positions appended in slot order. */
  function Expand(c: seq<Cell>, d1: DoctorParts, d2: DoctorParts, d3: DoctorParts): (r: seq<Cell>)
    requires |c| == |RawLayout|
    ensures |r| == |RawLayout| + |SplitColumns|
  {
    c[2 := d1.name][5 := d2.name][8 := d3.name]
      + [d1.hospital, d1.position, d2.hospital, d2.position, d3.hospital, d3.position]
  }

  /** The expanded row, cell by cell. */
  lemma ExpandCells(c: seq<Cell>, d1: DoctorParts, d2: DoctorParts, d3: DoctorParts)
    requires |c| == |RawLayout|
    ensures var r := Expand(c, d1, d2, d3);
      && r[0] == c[0] && r[1] == c[1]
      && r[2] == d1.name && r[3] == c[3] && r[4] == c[4]
      && r[5] == d2.name && r[6] == c[6] && r[7] == c[7]
      && r[8] == d3.name && r[9] == c[9] && r[10] == c[10]
      && r[11] == d1.hospital && r[12] == d1.position
      && r[13] == d2.hospital && r[14] == d2.position
      && r[15] == d3.hospital && r[16] == d3.position
  {
  }

  /** The row `c` of a raw export after the three splits. */
  function SplitRow(c: seq<Cell>): (r: seq<Cell>)
    requires |c| == |RawLayout|
    ensures |r| == |RawLayout| + |SplitColumns|
  {
    Expand(c, SplitDoctor(c[2]), SplitDoctor(c[5]), SplitDoctor(c[8]))
  }

  /** The split row read at a doctor's columns. */
  lemma SplitRowDoctor(c: seq<Cell>, slot: Slot)
    requires |c| == |RawLayout|
    ensures SplitRow(c)[SplitPosition(Doc(slot))] == SplitCell(Doc(slot), c)
    ensures SplitRow(c)[SplitPosition(Hosp(slot))] == SplitCell(Hosp(slot), c)
    ensures SplitRow(c)[SplitPosition(Pos(slot))] == SplitCell(Pos(slot), c)
  {
    ExpandCells(c, SplitDoctor(c[2]), SplitDoctor(c[5]), SplitDoctor(c[8]));
  }

  /** The split row read at a doctor's information and answer, which the
      split leaves alone. */
  lemma SplitRowKept(c: seq<Cell>, slot: Slot)
    requires |c| == |RawLayout|
    ensures SplitRow(c)[SplitPosition(Info(slot))] == SplitCell(Info(slot), c)
    ensures SplitRow(c)[SplitPosition(Ans(slot))] == SplitCell(Ans(slot), c)
  {
    ExpandCells(c, SplitDoctor(c[2]), SplitDoctor(c[5]), SplitDoctor(c[8]));
  }

  /** The split row read at the title and description. */
  lemma SplitRowTitle(c: seq<Cell>)
    requires |c| == |RawLayout|
    ensures SplitRow(c)[SplitPosition(Title)] == SplitCell(Title, c)
    ensures SplitRow(c)[SplitPosition(Description)] == SplitCell(Description, c)
  {
    ExpandCells(c, SplitDoctor(c[2]), SplitDoctor(c[5]), SplitDoctor(c[8]));
  }

  /** The split row, read column by column. */
  lemma SplitCellAt(c: seq<Cell>, col: Col)
    requires |c| == |RawLayout| && col != Category && col != IsExcluded
    ensures SplitPosition(col) < |SplitRow(c)| && SplitRow(c)[SplitPosition(col)] == SplitCell(col, c)
  {
    match col
    case Doc(slot) => SplitRowDoctor(c, slot);
    case Hosp(slot) => SplitRowDoctor(c, slot);
    case Pos(slot) => SplitRowDoctor(c, slot);
    case Title => SplitRowTitle(c);
    case Description => SplitRowTitle(c);
    case Info(slot) => SplitRowKept(c, slot);
    case Ans(slot) => SplitRowKept(c, slot);
  }

  /** One row after the three splits: each `docN` cell holds the name split
      from it, the hospitals and positions follow the 11 old cells, and so
      every column holds its `SplitCell`. */
  lemma SplitAllRow(s: Frame, k: nat)
    requires WellFormed(s) && s.columns == RawLayout && k < |s.rows|
    requires SplitAll(s).Success?
    ensures SplitAll(s).value.rows[k].cells == SplitRow(s.rows[k].cells)
    ensures forall col :: col != Category && col != IsExcluded ==>
      SplitPosition(col) < |SplitAll(s).value.rows[k].cells|
      && SplitAll(s).value.rows[k].cells[SplitPosition(col)] == SplitCell(col, s.rows[k].cells)
  {
    SplitAllValue(s);
    ThreeSplitsRow(s, k);
    forall col | col != Category && col != IsExcluded
      ensures SplitPosition(col) < |SplitAll(s).value.rows[k].cells|
      ensures SplitAll(s).value.rows[k].cells[SplitPosition(col)] == SplitCell(col, s.rows[k].cells)
    {
      SplitCellAt(s.rows[k].cells, col);
    }
  }

  /** Row `k` after `df.replace` (lines 85-88). */
  lemma SanitisedRow(f: Frame, k: nat)
    requires WellFormed(f) && k < |f.rows|
    ensures SanitiseFrame(f).rows[k].cells == SanitisedCells(f.rows[k].cells)
  {
  }

  /** Row `k` of a raw export after `df.replace` and the three splits
      (lines 85-91). */
  lemma SanitisedSplitRow(f: Frame, k: nat)
    requires WellFormed(f) && f.columns == RawLayout && k < |f.rows|
    requires Doc(First) in RawLayout && Doc(Second) in RawLayout && Doc(Third) in RawLayout
    requires SplitAll(SanitiseFrame(f)).Success?
    ensures var g := SplitAll(SanitiseFrame(f)).value;
      && WellFormed(g) && g.columns == RawLayout + SplitColumns
      && k < |g.rows| && g.rows[k].index == f.rows[k].index
      && g.rows[k].cells == SplitRow(SanitisedCells(f.rows[k].cells))
  {
    SplitAllRow(SanitiseFrame(f), k);
    SanitisedRow(f, k);
  }

  /** In the split layout every column is found at its `SplitPosition`. */
  lemma SplitLayoutIndex(c: Col)
    requires c in RawLayout + SplitColumns
    ensures IndexOf(RawLayout + SplitColumns, c) == SplitPosition(c)
  {
    SplitPositionsInOrder();
  }

  /** One row of `df[body columns]` taken from the split layout: each body
      column reads the cell at its position there. */
  lemma SelectBodyRow(g: Frame, k: nat)
    requires WellFormed(g) && g.columns == RawLayout + SplitColumns && k < |g.rows|
    requires forall j :: 0 <= j < |BodyLayout| ==> BodyLayout[j] in g.columns
    ensures forall j :: 0 <= j < |BodyLayout| ==>
      SplitPosition(BodyLayout[j]) < |g.rows[k].cells|
      && Select(g, BodyLayout).rows[k].cells[j] == g.rows[k].cells[SplitPosition(BodyLayout[j])]
  {
    forall j | 0 <= j < |BodyLayout|
      ensures SplitPosition(BodyLayout[j]) < |g.rows[k].cells|
      ensures Select(g, BodyLayout).rows[k].cells[j] == g.rows[k].cells[SplitPosition(BodyLayout[j])]
    {
      SplitLayoutIndex(BodyLayout[j]);
    }
  }

  /** The cells of a row of a raw export after `df.replace` (lines 85-88). */
  function SanitisedCells(cells: seq<Cell>): (r: seq<Cell>)
    ensures |r| == |cells| && forall i :: 0 <= i < |cells| ==> r[i] == SanitiseCell(cells[i])
  {
    seq(|cells|, i requires 0 <= i < |cells| => SanitiseCell(cells[i]))
  }

  /** The cell the raw path gives column `col` of the row it prepares from
      the export row `cells` (lines 85-94): the category in `category`, and
      every other column its `SplitCell` of the sanitised row. A raw export
      has no `isExcluded` column. */
  function PreparedCell(category: string, col: Col, cells: seq<Cell>): Cell
    requires |cells| == |RawLayout| && col != IsExcluded
  {
    if col == Category then Some(category) else SplitCell(col, SanitisedCells(cells))
  }

  /** A doctor field that does not split into all three parts: present,
      but with fewer than two spaces once sanitised. */
  predicate ShortDoctor(cells: seq<Cell>, slot: Slot)
    requires |cells| == |RawLayout|
  {
    DocPositions();
    var c := cells[SplitPosition(Doc(slot))];
    c.Some? && Count(SanitiseText(c.value), ' ') < 2
  }

  /** Where each column sits in the final layout; `isExcluded` is not
      there. */
  function FinalPosition(col: Col): nat {
    match col
    case Category => 0
    case Title => 1
    case Description => 2
    case Doc(slot) => 3 + 5 * SlotNumber(slot)
    case Hosp(slot) => 4 + 5 * SlotNumber(slot)
    case Pos(slot) => 5 + 5 * SlotNumber(slot)
    case Info(slot) => 6 + 5 * SlotNumber(slot)
    case Ans(slot) => 7 + 5 * SlotNumber(slot)
    case IsExcluded => |FinalLayout|
  }

  /** The final layout written out. */
  lemma FinalLayoutDisplay()
    ensures FinalLayout == [Category, Title, Description,
      Doc(First), Hosp(First), Pos(First), Info(First), Ans(First),
      Doc(Second), Hosp(Second), Pos(Second), Info(Second), Ans(Second),
      Doc(Third), Hosp(Third), Pos(Third), Info(Third), Ans(Third)]
  {
  }

  /** `FinalPosition` numbers the final layout from left to right. */
  lemma FinalPositionsInOrder()
    ensures forall i :: 0 <= i < |FinalLayout| ==> FinalPosition(FinalLayout[i]) == i
  {
    FinalLayoutDisplay();
  }

  /** Every column but `isExcluded` is in the final layout, where
      `FinalPosition` puts it. */
  lemma FinalPositionFinds(col: Col)
    requires col != IsExcluded
    ensures FinalPosition(col) < |FinalLayout| && FinalLayout[FinalPosition(col)] == col
  {
    FinalLayoutDisplay();
  }

  /** A prepared cell is missing exactly when the export cell it comes from
      is, or, for a hospital or position, when the doctor field is too
      short to hold it. */
  lemma PreparedCellMissing(category: string, col: Col, cells: seq<Cell>)
    requires |cells| == |RawLayout| && col != IsExcluded
    ensures PreparedCell(category, col, cells).None? <==>
        match col
        case Category => false
        case Hosp(slot) =>
          var c := SanitiseCell(cells[SplitPosition(Doc(slot))]);
          c.None? || Count(c.value, ' ') == 0
        case Pos(slot) =>
          var c := SanitiseCell(cells[SplitPosition(Doc(slot))]);
          c.None? || Count(c.value, ' ') < 2
        case Doc(slot) => cells[SplitPosition(Doc(slot))].None?
        case Title => cells[0].None?
        case Description => cells[1].None?
        case Info(slot) => cells[SplitPosition(Info(slot))].None?
        case Ans(slot) => cells[SplitPosition(Ans(slot))].None?
  {
    DocPositions();
  }

  /** Some column of the row the raw path prepares from `cells` is missing. */
  predicate PreparedHasMissing(category: string, cells: seq<Cell>)
    requires |cells| == |RawLayout|
  {
    FinalPositionsInOrder();
    exists j :: 0 <= j < |FinalLayout| && PreparedCell(category, FinalLayout[j], cells).None?
  }

  /** Some cell of the export row is missing or some doctor field is short. */
  predicate RawRowMissing(cells: seq<Cell>) {
    && |cells| == |RawLayout|
    && (|| (exists i :: 0 <= i < |cells| && cells[i].None?)
        || ShortDoctor(cells, First) || ShortDoctor(cells, Second) || ShortDoctor(cells, Third))
  }

  /** A missing prepared cell comes from a missing export cell or a short
      doctor field. */
  lemma MissingFromRaw(category: string, cells: seq<Cell>, j: nat)
    requires |cells| == |RawLayout| && j < |FinalLayout|
    requires FinalLayout[j] != IsExcluded
    requires PreparedCell(category, FinalLayout[j], cells).None?
    ensures RawRowMissing(cells)
  {
    DocPositions();
    var col := FinalLayout[j];
    PreparedCellMissing(category, col, cells);
    if col.Doc? || col.Hosp? || col.Pos? {
      var i := SplitPosition(Doc(col.slot));
      if cells[i].Some? {
        assert ShortDoctor(cells, col.slot);
      }
    } else if col.Title? || col.Description? || col.Info? || col.Ans? {
      SplitPositionsInOrder();
    }
  }

  /** A missing export cell leaves its column of the prepared row missing. */
  lemma MissingCellKept(category: string, cells: seq<Cell>, i: nat)
    requires |cells| == |RawLayout| && i < |cells| && cells[i].None?
    ensures PreparedHasMissing(category, cells)
  {
    SplitPositionsInOrder();
    assert (RawLayout + SplitColumns)[i] == RawLayout[i];
    var col := RawLayout[i];
    PreparedCellMissing(category, col, cells);
    FinalPositionFinds(col);
    FinalPositionsInOrder();
    assert PreparedCell(category, FinalLayout[FinalPosition(col)], cells).None?;
  }

  /** A short doctor field leaves at least that doctor's position missing. */
  lemma ShortDoctorMissing(category: string, cells: seq<Cell>, slot: Slot)
    requires |cells| == |RawLayout| && ShortDoctor(cells, slot)
    ensures PreparedHasMissing(category, cells)
  {
    DocPositions();
    PreparedCellMissing(category, Pos(slot), cells);
    FinalPositionFinds(Pos(slot));
    FinalPositionsInOrder();
    assert PreparedCell(category, FinalLayout[FinalPosition(Pos(slot))], cells).None?;
  }

  /** The row the raw path prepares from an export row has a missing cell
      exactly when the export row has one or some doctor field is short. */
  lemma PreparedRowMissing(category: string, cells: seq<Cell>)
    requires |cells| == |RawLayout|
    ensures PreparedHasMissing(category, cells) <==> RawRowMissing(cells)
  {
    if PreparedHasMissing(category, cells) {
      FinalPositionsInOrder();
      var j :| 0 <= j < |FinalLayout| && PreparedCell(category, FinalLayout[j], cells).None?;
      MissingFromRaw(category, cells, j);
    }
    if i :| 0 <= i < |cells| && cells[i].None? {
      MissingCellKept(category, cells, i);
    }
    if slot :| ShortDoctor(cells, slot) {
      ShortDoctorMissing(category, cells, slot);
    }
  }

  /** `prepared` is the row the raw path makes of the export row `cells`
      when the run's category is `category`. */
  predicate PreparedFrom(category: string, cells: seq<Cell>, prepared: seq<Cell>) {
    && |cells| == |RawLayout| && |prepared| == |FinalLayout|
    && forall j :: 0 <= j < |FinalLayout| ==>
      FinalLayout[j] != IsExcluded && prepared[j] == PreparedCell(category, FinalLayout[j], cells)
  }

  /** The category followed by the body columns read from the split of
      the sanitised export row is the prepared row. */
  lemma ArrangedCells(category: string, raw: seq<Cell>, body: seq<Cell>)
    requires |raw| == |RawLayout| && |body| == |BodyLayout|
    requires forall j :: 0 <= j < |BodyLayout| ==>
      SplitPosition(BodyLayout[j]) < |SplitRow(SanitisedCells(raw))|
      && body[j] == SplitRow(SanitisedCells(raw))[SplitPosition(BodyLayout[j])]
    ensures PreparedFrom(category, raw, [Some(category)] + body)
  {
    var cells := [Some(category)] + body;
    FinalPositionsInOrder();
    forall j | 0 <= j < |FinalLayout|
      ensures FinalLayout[j] != IsExcluded
      ensures cells[j] == PreparedCell(category, FinalLayout[j], raw)
    {
      if j > 0 {
        var col := FinalLayout[j];
        assert col == BodyLayout[j - 1];
        SplitCellAt(SanitisedCells(raw), col);
      }
    }
  }

  /** `dropna()` removes a row the raw path prepared exactly when the
      export row it came from has a missing cell or a short doctor field. */
  lemma PreparedFromMissing(category: string, cells: seq<Cell>, r: Row)
    requires PreparedFrom(category, cells, r.cells)
    ensures HasMissing(r) <==> RawRowMissing(cells)
  {
    PreparedRowMissing(category, cells);
    if HasMissing(r) {
      var j :| 0 <= j < |r.cells| && r.cells[j].None?;
      assert PreparedCell(category, FinalLayout[j], cells).None?;
    }
    if PreparedHasMissing(category, cells) {
      FinalPositionsInOrder();
      var j :| 0 <= j < |FinalLayout| && PreparedCell(category, FinalLayout[j], cells).None?;
      assert r.cells[j].None?;
    }
  }
}
