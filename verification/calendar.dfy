/**
 The rental calendar of `CalendarComponent`: a (year, month) cursor moved one
 month at a time, the month grid of 7-day weeks, and the two predicates the grid
 is coloured with. The JavaScript `Date` lookups are inputs: `firstDay` is the
 weekday (0 = Sunday .. 6) of the 1st of the month and `daysInMonth` its length.
 */
module Calendar {
  import opened Wrappers
  import JsArray

  // ---------------------------------------------------------------------------
  // Month navigation

  /** The displayed month; `month` counts from 0 (January) like JavaScript's. */
  datatype MonthCursor = MonthCursor(year: int, month: int)

  predicate ValidMonth(month: int)
  {
    0 <= month <= 11
  }

  /** Months elapsed since January of year 0: the cursor read as one number. */
  function MonthIndex(c: MonthCursor): int
  {
    c.year * 12 + c.month
  }

  /** `changeMonth(direction)`: step the month, wrapping into the previous or next year. */
  function ChangeMonth(c: MonthCursor, direction: int): (r: MonthCursor)
    ensures ValidMonth(r.month)
    ensures ValidMonth(c.month) && (direction == 1 || direction == -1) ==>
      MonthIndex(r) == MonthIndex(c) + direction
  {
    var month := c.month + direction;
    if month < 0 then MonthCursor(c.year - 1, 11)
    else if month > 11 then MonthCursor(c.year + 1, 0)
    else MonthCursor(c.year, month)
  }

  /** Two cursors with valid months are equal exactly when their month indices are. */
  lemma MonthIndexInjective(a: MonthCursor, b: MonthCursor)
    requires ValidMonth(a.month) && ValidMonth(b.month)
    requires MonthIndex(a) == MonthIndex(b)
    ensures a == b
  {
    assert (a.year - b.year) * 12 == b.month - a.month;
  }

  /** Stepping back from January lands on December of the previous year. */
  lemma ChangeMonthWrapsBackward(year: int)
    ensures ChangeMonth(MonthCursor(year, 0), -1) == MonthCursor(year - 1, 11)
  {
  }

  /** Stepping forward from December lands on January of the next year. */
  lemma ChangeMonthWrapsForward(year: int)
    ensures ChangeMonth(MonthCursor(year, 11), 1) == MonthCursor(year + 1, 0)
  {
  }

  /** A step forward and a step back cancel, in either order. */
  lemma ChangeMonthRoundTrip(c: MonthCursor)
    requires ValidMonth(c.month)
    ensures ChangeMonth(ChangeMonth(c, 1), -1) == c
    ensures ChangeMonth(ChangeMonth(c, -1), 1) == c
  {
    MonthIndexInjective(ChangeMonth(ChangeMonth(c, 1), -1), c);
    MonthIndexInjective(ChangeMonth(ChangeMonth(c, -1), 1), c);
  }

  // ---------------------------------------------------------------------------
  // Month grid

  /** A grid cell: `null` padding or a day of the month. */
  datatype Cell = Blank | Day(n: int)

  function Blanks(k: nat): (r: seq<Cell>)
    ensures |r| == k
  {
    seq(k, _ => Blank)
  }

  /** Day 1, day 2, ..., day n. */
  function Days(n: nat): (r: seq<Cell>)
    ensures |r| == n
  {
    seq(n, i => Day(i + 1))
  }

  /** The blanks needed to fill the last week once `filled` cells are placed. */
  function TrailingPad(filled: nat): nat
  {
    (7 - filled % 7) % 7
  }

  /** The month read cell by cell: leading blanks, the days, trailing blanks. */
  function MonthCells(firstDay: nat, daysInMonth: nat): seq<Cell>
  {
    Blanks(firstDay) + Days(daysInMonth) + Blanks(TrailingPad(firstDay + daysInMonth))
  }

  /** The cell at position `k` of the month read cell by cell. */
  function CellAt(firstDay: nat, daysInMonth: nat, k: nat): Cell
  {
    if k < firstDay then Blank
    else if k < firstDay + daysInMonth then Day(k - firstDay + 1)
    else Blank
  }

  /** The rows of a grid read one after the other. */
  function Flatten(rows: seq<seq<Cell>>): seq<Cell>
  {
    if |rows| == 0 then [] else Flatten(rows[..|rows| - 1]) + rows[|rows| - 1]
  }

  predicate AllWeeks(rows: seq<seq<Cell>>)
  {
    forall i :: 0 <= i < |rows| ==> |rows[i]| == 7
  }

  /** What `generateCalendar` promises of the grid it builds. */
  predicate IsMonthGrid(weeks: seq<seq<Cell>>, firstDay: nat, daysInMonth: nat)
  {
    && AllWeeks(weeks)
    && |weeks| == (firstDay + daysInMonth + 6) / 7
    && Flatten(weeks) == MonthCells(firstDay, daysInMonth)
  }

  /** `generateCalendar`: the month as weeks of 7 cells. */
  method GenerateCalendar(firstDay: nat, daysInMonth: nat) returns (weeks: seq<seq<Cell>>)
    requires firstDay < 7
    ensures AllWeeks(weeks)
    ensures |weeks| == (firstDay + daysInMonth + 6) / 7
    ensures Flatten(weeks) == MonthCells(firstDay, daysInMonth)
  {
    weeks := [];
    var week := Blanks(firstDay);
    var day := 1;
    while day <= daysInMonth
      invariant 1 <= day <= daysInMonth + 1
      invariant AllWeeks(weeks)
      invariant |week| < 7
      invariant 7 * |weeks| + |week| == firstDay + day - 1
      invariant Flatten(weeks) + week == Blanks(firstDay) + Days(day - 1)
    {
      DaysSnoc(day);
      assert Flatten(weeks) + (week + [Day(day)]) == (Flatten(weeks) + week) + [Day(day)];
      assert Blanks(firstDay) + Days(day) == (Blanks(firstDay) + Days(day - 1)) + [Day(day)];
      week := week + [Day(day)];
      if |week| == 7 {
        FlattenSnoc(weeks, week);
        weeks := weeks + [week];
        week := [];
      }
      day := day + 1;
    }
    WeekCount(firstDay, daysInMonth, |weeks|, |week|);
    if |week| > 0 {
      FlattenSnoc(weeks, week + Blanks(7 - |week|));
      week := week + Blanks(7 - |week|);
      weeks := weeks + [week];
    }
  }

  lemma DaysSnoc(n: nat)
    requires n >= 1
    ensures Days(n - 1) + [Day(n)] == Days(n)
  {
  }

  lemma FlattenSnoc(rows: seq<seq<Cell>>, row: seq<Cell>)
    ensures Flatten(rows + [row]) == Flatten(rows) + row
  {
    assert (rows + [row])[..|rows|] == rows;
  }

  /** `weeks` full weeks and a partial week of `rest` cells hold the month; padding closes it. */
  lemma WeekCount(firstDay: nat, daysInMonth: nat, weeks: nat, rest: nat)
    requires rest < 7 && 7 * weeks + rest == firstDay + daysInMonth
    ensures rest == 0 ==> weeks == (firstDay + daysInMonth + 6) / 7 && TrailingPad(firstDay + daysInMonth) == 0
    ensures rest > 0 ==> weeks + 1 == (firstDay + daysInMonth + 6) / 7 && TrailingPad(firstDay + daysInMonth) == 7 - rest
  {
  }

  /** The last of ceil(total / 7) weeks starts before the last cell. */
  lemma LastWeekStart(total: nat)
    requires total >= 1
    ensures 7 * ((total + 6) / 7 - 1) < total
  {
  }

  /** In a grid of full weeks, row `r` column `c` is cell `7 * r + c` of the flattened grid. */
  lemma {:induction false} FlattenIndex(rows: seq<seq<Cell>>)
    requires AllWeeks(rows)
    ensures |Flatten(rows)| == 7 * |rows|
    ensures forall r, c :: 0 <= r < |rows| && 0 <= c < 7 ==> rows[r][c] == Flatten(rows)[7 * r + c]
  {
    if |rows| > 0 {
      var init := rows[..|rows| - 1];
      FlattenIndex(init);
      assert Flatten(rows) == Flatten(init) + rows[|rows| - 1];
    }
  }

  lemma MonthCellsAt(firstDay: nat, daysInMonth: nat, k: nat)
    requires k < |MonthCells(firstDay, daysInMonth)|
    ensures MonthCells(firstDay, daysInMonth)[k] == CellAt(firstDay, daysInMonth, k)
  {
  }

  /** Every cell of the grid is determined by its position. */
  lemma GridCellAt(weeks: seq<seq<Cell>>, firstDay: nat, daysInMonth: nat, r: int, c: int)
    requires IsMonthGrid(weeks, firstDay, daysInMonth)
    requires 0 <= r < |weeks| && 0 <= c < 7
    ensures weeks[r][c] == CellAt(firstDay, daysInMonth, 7 * r + c)
  {
    FlattenIndex(weeks);
    MonthCellsAt(firstDay, daysInMonth, 7 * r + c);
  }

  /** The first week opens with `firstDay` blanks followed by day 1. */
  lemma FirstWeekLayout(weeks: seq<seq<Cell>>, firstDay: nat, daysInMonth: nat)
    requires IsMonthGrid(weeks, firstDay, daysInMonth)
    requires firstDay < 7 && daysInMonth >= 1
    ensures |weeks| >= 1
    ensures weeks[0][..firstDay] == Blanks(firstDay)
    ensures weeks[0][firstDay] == Day(1)
  {
    forall c | 0 <= c <= firstDay
      ensures weeks[0][c] == CellAt(firstDay, daysInMonth, c)
    {
      GridCellAt(weeks, firstDay, daysInMonth, 0, c);
    }
  }

  /**
   Blanks appear only as leading padding of the first week and trailing padding
   of the last week.
   */
  lemma BlanksOnlyAtEdges(weeks: seq<seq<Cell>>, firstDay: nat, daysInMonth: nat, r: int, c: int)
    requires IsMonthGrid(weeks, firstDay, daysInMonth)
    requires firstDay < 7
    requires 0 <= r < |weeks| && 0 <= c < 7
    requires weeks[r][c] == Blank
    ensures (r == 0 && c < firstDay) || (r == |weeks| - 1 && 7 * r + c >= firstDay + daysInMonth)
  {
    GridCellAt(weeks, firstDay, daysInMonth, r, c);
    LastWeekStart(firstDay + daysInMonth);
  }

  /** With at least one day, no week of the grid is all padding. */
  lemma EveryWeekHasADay(weeks: seq<seq<Cell>>, firstDay: nat, daysInMonth: nat, r: int)
    requires IsMonthGrid(weeks, firstDay, daysInMonth)
    requires firstDay < 7 && daysInMonth >= 1
    requires 0 <= r < |weeks|
    ensures exists c :: 0 <= c < 7 && weeks[r][c].Day?
  {
    var c := if r == 0 then firstDay else 0;
    GridCellAt(weeks, firstDay, daysInMonth, r, c);
    LastWeekStart(firstDay + daysInMonth);
    assert weeks[r][c].Day?;
  }

  /** The day numbers of a run of cells, in reading order. */
  function DayNumbers(cells: seq<Cell>): seq<int>
  {
    if |cells| == 0 then []
    else (if cells[0].Day? then [cells[0].n] else []) + DayNumbers(cells[1..])
  }

  lemma {:induction false} DayNumbersAppend(a: seq<Cell>, b: seq<Cell>)
    ensures DayNumbers(a + b) == DayNumbers(a) + DayNumbers(b)
    decreases |a|
  {
    if |a| > 0 {
      assert (a + b)[0] == a[0];
      assert (a + b)[1..] == a[1..] + b;
      DayNumbersAppend(a[1..], b);
      var head := if a[0].Day? then [a[0].n] else [];
      assert DayNumbers(a + b) == head + DayNumbers(a[1..] + b);
      assert DayNumbers(a) == head + DayNumbers(a[1..]);
    } else {
      assert a + b == b;
    }
  }

  lemma {:induction false} DayNumbersBlanks(k: nat)
    ensures DayNumbers(Blanks(k)) == []
  {
    if k > 0 {
      assert Blanks(k)[1..] == Blanks(k - 1);
      DayNumbersBlanks(k - 1);
    }
  }

  lemma {:induction false} DayNumbersDays(n: nat)
    ensures DayNumbers(Days(n)) == seq(n, i => i + 1)
  {
    if n > 0 {
      assert Days(n) == Days(n - 1) + [Day(n)];
      DayNumbersAppend(Days(n - 1), [Day(n)]);
      DayNumbersDays(n - 1);
      assert DayNumbers([Day(n)]) == [n];
      assert seq(n, i => i + 1) == seq(n - 1, i => i + 1) + [n];
    }
  }

  /** Reading the grid week by week, the days are exactly 1, 2, ..., daysInMonth. */
  lemma DaysReadInOrder(weeks: seq<seq<Cell>>, firstDay: nat, daysInMonth: nat)
    requires IsMonthGrid(weeks, firstDay, daysInMonth)
    ensures DayNumbers(Flatten(weeks)) == seq(daysInMonth, i => i + 1)
  {
    var pad := TrailingPad(firstDay + daysInMonth);
    DayNumbersAppend(Blanks(firstDay) + Days(daysInMonth), Blanks(pad));
    DayNumbersAppend(Blanks(firstDay), Days(daysInMonth));
    DayNumbersBlanks(firstDay);
    DayNumbersBlanks(pad);
    DayNumbersDays(daysInMonth);
  }

  // ---------------------------------------------------------------------------
  // Rental predicates

  /** A JavaScript `Date` as the instant it denotes (milliseconds since the epoch). */
  type Instant = int

  /** A rental window as the rental endpoint reports it; both ends are inclusive. */
  datatype Rental = Rental(userId: int, startDate: Instant, endDate: Instant)

  /**
   `isUserRentExist(date)`: does the signed-in user have a rental covering `date`?
   `currentUserId` is `None` when nobody is signed in; id 0 is falsy in the
   source's `!currentUserId` test and so also counts as nobody.
   */
  function IsUserRentExist(currentUserId: Option<int>, rentals: seq<Rental>, date: Instant): (r: bool)
    ensures currentUserId == None || currentUserId == Some(0) ==> !r
    ensures r <==> (currentUserId.Some? && currentUserId.value != 0 &&
      exists i :: 0 <= i < |rentals| && rentals[i].userId == currentUserId.value &&
        rentals[i].startDate <= date <= rentals[i].endDate)
  {
    if currentUserId.None? || currentUserId.value == 0 then false
    else
      JsArray.Some(rentals, (rental: Rental) =>
        rental.userId == currentUserId.value && date >= rental.startDate && date <= rental.endDate)
  }

  /** Both ends of a user's rental window count as rented by that user. */
  lemma RentalBoundsInclusive(uid: int, rentals: seq<Rental>, i: int)
    requires uid != 0
    requires 0 <= i < |rentals| && rentals[i].userId == uid
    requires rentals[i].startDate <= rentals[i].endDate
    ensures IsUserRentExist(Some(uid), rentals, rentals[i].startDate)
    ensures IsUserRentExist(Some(uid), rentals, rentals[i].endDate)
  {
  }

  /** A calendar date read through `getFullYear`, `getMonth` and `getDate`. */
  datatype CalendarDate = CalendarDate(year: int, month: int, day: int)

  /** `isRented(date)`: is day `date` of the displayed month one of the rental dates? */
  function IsRented(c: MonthCursor, rentalDates: seq<CalendarDate>, date: Option<int>): (r: bool)
    ensures date.None? ==> !r
    ensures date.Some? ==> (r <==> CalendarDate(c.year, c.month, date.value) in rentalDates)
  {
    match date
    case None => false
    case Some(d) =>
      var target := CalendarDate(c.year, c.month, d);
      JsArray.Some(rentalDates, (rentalDate: CalendarDate) =>
        rentalDate.year == target.year && rentalDate.month == target.month && rentalDate.day == target.day)
  }
}
