/** The 96-well plate as the pandas frame `process_plate_positions` builds
    (func/plate_plot.py) and its long form (`create_plate_df_long`). */
module PlateFrames {
  import opened Text

  /** A cell of the frame, addressed by its row label and its column label. */
  datatype Cell = Cell(row: char, column: string)

  /** One (Row, Column, Sample) row of the long form. */
  datatype LongEntry = LongEntry(row: char, column: string, sample: string)

  /** Row labels A–H of the 8 x 12 plate. */
  const RowLabels: seq<char> := "ABCDEFGH"

  /** Column labels "1"–"12" of the 8 x 12 plate. */
  const ColumnLabels: seq<string> := ["1", "2", "3", "4", "5", "6", "7", "8", "9", "10", "11", "12"]

  /** `str(k)` for k in 1..12 is the k-th column label. */
  lemma ColumnLabelsDecimal(k: nat)
    requires 1 <= k <= 12
    ensures NatToDecimal(k) == ColumnLabels[k - 1]
  {
    if k >= 10 {
      assert NatToDecimal(k) == NatToDecimal(1) + NatToDecimal(k - 10);
    }
  }

  /** No two rows and no two columns of the plate share a label. */
  lemma PlateLabelsDistinct()
    ensures Distinct(RowLabels) && Distinct(ColumnLabels)
  {
    forall i, j | 0 <= i < j < 12
      ensures ColumnLabels[i] != ColumnLabels[j]
    {
      ColumnLabelsDecimal(i + 1);
      ColumnLabelsDecimal(j + 1);
      NatToDecimalInjective(i + 1, j + 1);
    }
  }

  predicate IsPlateCell(c: Cell)
  {
    c.row in RowLabels && c.column in ColumnLabels
  }

  predicate Distinct<T(==)>(s: seq<T>)
  {
    forall i, j :: 0 <= i < j < |s| ==> s[i] != s[j]
  }

  /** The value of a frame: its row index, its column index, and the cells
      that hold a label (a cell that is absent holds NaN). */
  datatype Frame = Frame(index: seq<char>, columns: seq<string>, cells: map<Cell, string>)
  {
    /** Labels are distinct and every cell lies in a labelled row and column. */
    predicate Valid()
    {
      && Distinct(index) && Distinct(columns)
      && forall c :: c in cells ==> c.row in index && c.column in columns
    }

    /** Exactly rows A–H by columns "1"–"12", every cell holding a label. */
    predicate IsPlate()
    {
      && index == RowLabels && columns == ColumnLabels
      && (forall c :: c in cells ==> IsPlateCell(c))
      && (forall r, col :: r in RowLabels && col in ColumnLabels ==> Cell(r, col) in cells)
    }

    /** `df.at[row, column] = text`: a row or column label that the frame
        lacks is appended to its index (pandas' setting with enlargement),
        and the other cells of a new row or column stay absent. */
    function Set(row: char, column: string, text: string): (f: Frame)
      ensures Valid() ==> f.Valid()
      ensures IsPlate() && IsPlateCell(Cell(row, column)) ==> f.IsPlate()
      ensures Cell(row, column) in f.cells && f.cells[Cell(row, column)] == text
      ensures forall c :: c != Cell(row, column) ==>
                (c in f.cells <==> c in cells) && (c in cells ==> f.cells[c] == cells[c])
    {
      Frame(if row in index then index else index + [row],
            if column in columns then columns else columns + [column],
            cells[Cell(row, column) := text])
    }
  }

  /** The frame built from `np.resize(sample_name, (8, 12))`: rows A–H,
      columns "1"–"12", every cell holding the default label. */
  function FilledFrame(sample: string): (f: Frame)
    ensures f.Valid() && f.IsPlate()
    ensures forall c :: c in f.cells ==> f.cells[c] == sample
  {
    PlateLabelsDistinct();
    Frame(RowLabels, ColumnLabels, FilledCells(sample))
  }

  function FilledCells(sample: string): map<Cell, string>
  {
    map r, col | r in RowLabels && col in ColumnLabels :: Cell(r, col) := sample
  }

  /** The plate frame that the source updates cell by cell. */
  class PlateFrame {
    var index: seq<char>
    var columns: seq<string>
    var cells: map<Cell, string>

    function Snapshot(): Frame
      reads this
    {
      Frame(index, columns, cells)
    }

    constructor Filled(sample: string)
      ensures Snapshot() == FilledFrame(sample)
    {
      index := RowLabels;
      columns := ColumnLabels;
      cells := FilledCells(sample);
    }

    method SetAt(row: char, column: string, text: string)
      modifies this
      ensures Snapshot() == old(Snapshot()).Set(row, column, text)
    {
      if row !in index {
        index := index + [row];
      }
      if column !in columns {
        columns := columns + [column];
      }
      cells := cells[Cell(row, column) := text];
    }
  }

  /** The long form of one row: its cells that hold a label, in column order. */
  function RowLong(row: char, columns: seq<string>, cells: map<Cell, string>): seq<LongEntry>
  {
    if |columns| == 0 then []
    else
      var column := columns[|columns| - 1];
      RowLong(row, columns[..|columns| - 1], cells)
      + (if Cell(row, column) in cells then [LongEntry(row, column, cells[Cell(row, column)])] else [])
  }

  function RowsLong(index: seq<char>, columns: seq<string>, cells: map<Cell, string>): seq<LongEntry>
  {
    if |index| == 0 then []
    else RowsLong(index[..|index| - 1], columns, cells) + RowLong(index[|index| - 1], columns, cells)
  }

  /** `create_plate_df_long`: `stack()` walks the frame row by row and,
      within a row, column by column, dropping the cells without a label. */
  function LongFormat(f: Frame): seq<LongEntry>
  {
    RowsLong(f.index, f.columns, f.cells)
  }

  lemma {:induction false} RowLongFull(row: char, columns: seq<string>, cells: map<Cell, string>)
    requires forall j :: 0 <= j < |columns| ==> Cell(row, columns[j]) in cells
    ensures |RowLong(row, columns, cells)| == |columns|
    ensures forall j :: 0 <= j < |columns| ==>
              RowLong(row, columns, cells)[j] == LongEntry(row, columns[j], cells[Cell(row, columns[j])])
  {
    if |columns| > 0 {
      RowLongFull(row, columns[..|columns| - 1], cells);
    }
  }

  lemma {:induction false} RowsLongFull(index: seq<char>, columns: seq<string>, cells: map<Cell, string>)
    requires |columns| == 12
    requires forall i, j :: 0 <= i < |index| && 0 <= j < 12 ==> Cell(index[i], columns[j]) in cells
    ensures |RowsLong(index, columns, cells)| == 12 * |index|
    ensures forall i, j :: 0 <= i < |index| && 0 <= j < 12 ==>
              RowsLong(index, columns, cells)[12 * i + j]
                == LongEntry(index[i], columns[j], cells[Cell(index[i], columns[j])])
  {
    if |index| > 0 {
      var n := |index| - 1;
      RowsLongFull(index[..n], columns, cells);
      RowLongFull(index[n], columns, cells);
      var prefix := RowsLong(index[..n], columns, cells);
      var last := RowLong(index[n], columns, cells);
      assert RowsLong(index, columns, cells) == prefix + last;
      forall i, j | 0 <= i < |index| && 0 <= j < 12
        ensures RowsLong(index, columns, cells)[12 * i + j]
                  == LongEntry(index[i], columns[j], cells[Cell(index[i], columns[j])])
      {
        if i < n {
          assert 12 * i + j < |prefix|;
          assert index[..n][i] == index[i];
          assert prefix[12 * i + j] == LongEntry(index[..n][i], columns[j], cells[Cell(index[..n][i], columns[j])]);
          assert (prefix + last)[12 * i + j] == prefix[12 * i + j];
        } else {
          assert 12 * i + j == |prefix| + j;
          assert (prefix + last)[12 * i + j] == last[j];
        }
      }
    }
  }

  /** `long` has one (Row, Column, Sample) triple per well of the full
      plate `f`, in row-major order: A1..A12, B1..B12, ..., H12. */
  predicate RowMajor(f: Frame, long: seq<LongEntry>)
  {
    && |long| == 96
    && forall i, j :: 0 <= i < 8 && 0 <= j < 12 ==>
         && 12 * i + j < |long|
         && Cell(RowLabels[i], ColumnLabels[j]) in f.cells
         && long[12 * i + j] == LongEntry(RowLabels[i], ColumnLabels[j], f.cells[Cell(RowLabels[i], ColumnLabels[j])])
  }

  /** The long form of the full plate lists its wells row by row. */
  lemma LongFormatRowMajor(f: Frame)
    requires f.IsPlate()
    ensures RowMajor(f, LongFormat(f))
  {
    assert forall i, j :: 0 <= i < 8 && 0 <= j < 12 ==> IsPlateCell(Cell(RowLabels[i], ColumnLabels[j]));
    RowsLongFull(f.index, f.columns, f.cells);
  }

  lemma {:induction false} RowLongMembers(row: char, columns: seq<string>, cells: map<Cell, string>, e: LongEntry)
    ensures e in RowLong(row, columns, cells) <==>
              e.row == row && e.column in columns && Cell(row, e.column) in cells && cells[Cell(row, e.column)] == e.sample
  {
    if |columns| > 0 {
      RowLongMembers(row, columns[..|columns| - 1], cells, e);
      assert columns == columns[..|columns| - 1] + [columns[|columns| - 1]];
    }
  }

  lemma {:induction false} RowsLongMembers(index: seq<char>, columns: seq<string>, cells: map<Cell, string>, e: LongEntry)
    ensures e in RowsLong(index, columns, cells) <==>
              e.row in index && e.column in columns && Cell(e.row, e.column) in cells && cells[Cell(e.row, e.column)] == e.sample
  {
    if |index| > 0 {
      RowsLongMembers(index[..|index| - 1], columns, cells, e);
      RowLongMembers(index[|index| - 1], columns, cells, e);
      assert index == index[..|index| - 1] + [index[|index| - 1]];
    }
  }

  /** Whatever shape the frame has, its long form lists exactly the cells that
      hold a label, each with that label. */
  lemma LongFormatMembers(f: Frame, e: LongEntry)
    requires f.Valid()
    ensures e in LongFormat(f) <==> Cell(e.row, e.column) in f.cells && f.cells[Cell(e.row, e.column)] == e.sample
  {
    RowsLongMembers(f.index, f.columns, f.cells, e);
  }
}
