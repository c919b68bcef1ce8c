/**
 Placement of the month grid built by `showCalendar`: row 0 holds the seven
 weekday headers, and 31 day buttons follow in reading order starting at the
 column of the month's first weekday (0 = Sunday .. 6 = Saturday).
 */
module MonthGrid {
  import opened Text
  import opened DateKey

  /** Day buttons placed for every month, whatever its real length. */
  const DaysPlaced: nat := 31

  const WeekdayNames: seq<string> := ["Sunday", "Monday", "Tuesday", "Wednesday", "Thursday", "Friday", "Saturday"]

  /** A grid cell: a weekday header label, or a day button labelled with its day that opens that date's dialog. */
  datatype Cell = Header(name: string) | DayButton(caption: string, opens: Date)

  /** Cells the day buttons span, counting the blank cells before day 1. */
  function TotalCells(offset: nat): nat
  {
    DaysPlaced + offset
  }

  /** Week rows below the header: the integer ceiling of TotalCells / 7. */
  function Weeks(offset: nat): (w: nat)
    ensures 7 * (w - 1) < TotalCells(offset) <= 7 * w
  {
    (TotalCells(offset) + 6) / 7
  }

  /** Column of the button for zero-based day index `day`. */
  function Col(day: nat, offset: nat): (c: nat)
    ensures c < 7
  {
    (day + offset) % 7
  }

  /** Row of the button for zero-based day index `day`; row 0 is the header row. */
  function Row(day: nat, offset: nat): (r: nat)
    ensures r >= 1
  {
    (day + offset) / 7 + 1
  }

  /** The zero-based day index whose button sits at a cell below the header (the inverse of Col/Row). */
  function DayAt(col: int, row: int, offset: int): int
  {
    7 * (row - 1) + col - offset
  }

  /** DayAt inverts Col and Row: the cell of a day gives the day back. */
  lemma DayAtCell(day: nat, offset: nat)
    ensures DayAt(Col(day, offset), Row(day, offset), offset) == day
  {
  }

  /** Every day button lands inside the 7-column grid, below the header and within the week rows. */
  lemma CellInBounds(day: nat, offset: nat)
    requires day < DaysPlaced && offset <= 6
    ensures Col(day, offset) < 7
    ensures 1 <= Row(day, offset) <= Weeks(offset)
  {
  }

  /** Two distinct days never share a cell. */
  lemma PlacementInjective(d1: nat, d2: nat, offset: nat)
    ensures Col(d1, offset) == Col(d2, offset) && Row(d1, offset) == Row(d2, offset) <==> d1 == d2
  {
  }

  /** The next day follows in reading order: one column right, or column 0 of the next row after Saturday. */
  lemma ReadingOrder(day: nat, offset: nat)
    ensures Col(day, offset) < 6 ==> Col(day + 1, offset) == Col(day, offset) + 1 && Row(day + 1, offset) == Row(day, offset)
    ensures Col(day, offset) == 6 ==> Col(day + 1, offset) == 0 && Row(day + 1, offset) == Row(day, offset) + 1
  {
  }

  /** Day 1 sits in the column of the month's first weekday, in the first week row. */
  lemma FirstDayPlacement(offset: nat)
    requires offset <= 6
    ensures Col(0, offset) == offset && Row(0, offset) == 1
  {
  }

  /** A month needs five week rows, or six when it starts on a Friday or Saturday. */
  lemma WeeksFiveOrSix(offset: nat)
    requires offset <= 6
    ensures Weeks(offset) == 5 || Weeks(offset) == 6
    ensures Weeks(offset) == 6 <==> offset >= 5
  {
  }

  /** The last week row is never empty: it holds the button of day 31. */
  lemma LastRowUsed(offset: nat)
    ensures Row(DaysPlaced - 1, offset) == Weeks(offset)
  {
  }

  /** The button of zero-based day index `day` sits at its cell and opens its own date. */
  ghost predicate ButtonPlaced(cells: map<(int, int), Cell>, day: nat, offset: nat, month: int, year: int)
  {
    var cell := (Col(day, offset), Row(day, offset));
    cell in cells && cells[cell] == DayButton(IntToString(day + 1), Date(day + 1, month, year))
  }

  /** Adding a cell at a free position leaves an already placed button in place. */
  lemma ButtonPlacedKept(cells: map<(int, int), Cell>, cell: (int, int), c: Cell, day: nat, offset: nat, month: int, year: int)
    requires ButtonPlaced(cells, day, offset, month, year) && cell !in cells
    ensures ButtonPlaced(cells[cell := c], day, offset, month, year)
  {
  }

  /** The header row: the seven weekday names in row 0, Sunday first. */
  method WeekdayHeaders() returns (cells: map<(int, int), Cell>)
    ensures |cells| == 7
    ensures forall j, k :: (j, k) in cells ==> k == 0 && 0 <= j < 7
    ensures forall i :: 0 <= i < 7 ==> (i, 0) in cells && cells[(i, 0)] == Header(WeekdayNames[i])
  {
    cells := map[];
    for i := 0 to 7
      invariant |cells| == i
      invariant forall j, k :: (j, k) in cells ==> k == 0 && 0 <= j < i
      invariant forall j :: 0 <= j < i ==> (j, 0) in cells && cells[(j, 0)] == Header(WeekdayNames[j])
    {
      assert (i, 0) !in cells;
      cells := cells[(i, 0) := Header(WeekdayNames[i])];
    }
  }

  /**
   Builds the grid for one month: the weekday headers, the number of week
   rows, and the 31 day buttons, each opening the dialog of its own date.
   */
  method Layout(month: int, year: int, firstDayOfMonth: nat) returns (cells: map<(int, int), Cell>, weeks: nat)
    requires firstDayOfMonth <= 6
    ensures weeks == Weeks(firstDayOfMonth)
    ensures |cells| == 7 + DaysPlaced
    ensures forall i :: 0 <= i < 7 ==> (i, 0) in cells && cells[(i, 0)] == Header(WeekdayNames[i])
    ensures forall day :: 0 <= day < DaysPlaced ==> ButtonPlaced(cells, day, firstDayOfMonth, month, year)
    ensures forall p :: p in cells ==> 0 <= p.0 < 7 && 0 <= p.1 <= weeks
  {
    cells := WeekdayHeaders();

    weeks := Weeks(firstDayOfMonth);

    for day := 0 to DaysPlaced
      invariant |cells| == 7 + day
      invariant forall j :: 0 <= j < 7 ==> (j, 0) in cells && cells[(j, 0)] == Header(WeekdayNames[j])
      invariant forall p :: p in cells ==> 0 <= p.0 < 7 && 0 <= p.1 <= weeks
      invariant forall p :: p in cells && p.1 != 0 ==> 0 <= DayAt(p.0, p.1, firstDayOfMonth) < day
      invariant forall d :: 0 <= d < day ==> ButtonPlaced(cells, d, firstDayOfMonth, month, year)
    {
      var col, row := Col(day, firstDayOfMonth), Row(day, firstDayOfMonth);
      DayAtCell(day, firstDayOfMonth);
      CellInBounds(day, firstDayOfMonth);
      assert (col, row) !in cells;
      var placed := cells[(col, row) := DayButton(IntToString(day + 1), Date(day + 1, month, year))];
      forall d | 0 <= d <= day
        ensures ButtonPlaced(placed, d, firstDayOfMonth, month, year)
      {
        if d < day {
          ButtonPlacedKept(cells, (col, row), placed[(col, row)], d, firstDayOfMonth, month, year);
        }
      }
      cells := placed;
    }
  }
}
