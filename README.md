# Calendar month grid and per-day event store, in Dafny

This project models the logic of `CalendarController.java`, the controller of a
JavaFX desktop calendar. The controller does two things.

* **Month grid** (`showCalendar`). Row 0 of the grid holds the seven weekday
  headers, Sunday first. Below it come 31 day buttons, whatever the month's real
  length. Day index `d` (0..30) goes to column `(d + offset) % 7` and row
  `(d + offset) / 7 + 1`. `offset` is the weekday of the 1st, 0 = Sunday.
  The number of week rows is the ceiling of `(31 + offset) / 7`. Each button is
  labelled `d + 1` and opens the dialog of its own date.
* **Event store** (`openDayDialog`). The controller holds a map
  `eventMap` from a date key `day + "/" + month + "/" + year` (month zero-based)
  to the ordered list of that day's event texts. A modal dialog shows a copy of
  the day's list. Its Add button trims the typed text, ignores it if it is
  empty, and otherwise appends it to the list on screen and to the map entry,
  creating the entry first if needed. Its Delete button ignores an empty
  selection, and otherwise removes the first copy of the selected text from
  both lists.

Modules:

* `Text` (`text.dfy`): the parts of Java's string library the controller relies
  on. Decimal rendering of an `int` (`IntToString`), reading it back
  (`ParseInt`), splitting at the first separator (`SplitFirst`), and
  `String.trim()`. `Trim` finds, by index as Java does, the first and the last
  character above U+0020 and keeps the text between them.
* `DateKey` (`date_key.dfy`): the `Date` record, the map key, and the dialog title.
* `MonthGrid` (`month_grid.dfy`): `Col`, `Row`, `Weeks`, and the `Layout` method.
  `Layout`'s loops build the grid as a map from `(column, row)` to a cell.
* `EventStore` (`event_store.dfy`): the map as a value. `AddEvent` and
  `DeleteEvent` are the specification functions of the two handlers. The module
  also holds `RemoveFirst` (Java's `List.remove(Object)`) and their lemmas.
* `Calendar` (`calendar.dfy`): the class `CalendarController`, which holds
  `eventMap`, and the class `DayDialog`, which holds the list shown on screen.
  Its `Add` and `Delete` methods update both in place. `DayDialog.Valid()` is the
  invariant that the list on screen equals the map's entry for the date, or is
  empty while the date has no entry. Every handler preserves it. So when a
  selection exists, the date has an entry, and the call
  `eventMap.get(date).remove(...)` at CalendarController.java line 160 never
  dereferences null.

Three facts about the code that the model makes precise:

* The dialog title's month field is the zero-based month followed by the digit
  `1` (see Findings).
* An Add followed by a Delete of the same text restores the day's list when the
  text was not listed yet (`EventStore.AddThenDelete`). When it was listed, the
  Delete removes the earlier copy and the new one stays last
  (`EventStore.RemoveFirstOfAppendedDuplicate`). A key created by the Add stays
  in the map with an empty list.
* Two dates never share a key: the fields are decimal and `/` never occurs
  inside one (`DateKey.KeyInjective`).

## Model

| member | source | states |
|---|---|---|
| `MonthGrid.Weeks` | CalendarController.java:87-88 | the week-row count is the integer ceiling of (31 + offset) / 7: 7·(w−1) < 31 + offset ≤ 7·w |
| `MonthGrid.Col` | CalendarController.java:108 | a button's column is one of the seven weekday columns |
| `MonthGrid.Row` | CalendarController.java:109 | a button's row is at least 1, so never the header row |
| `MonthGrid.DayAtCell` | CalendarController.java:108-109 | the day index is recovered from its cell: 7·(row−1) + col − offset = d |
| `MonthGrid.CellInBounds` | CalendarController.java:87-109 | for offset 0..6 and day index 0..30, column < 7 and 1 ≤ row ≤ weeks |
| `MonthGrid.PlacementInjective` | CalendarController.java:108-109 | two day indices share a cell if and only if they are equal |
| `MonthGrid.ReadingOrder` | CalendarController.java:108-109 | the next day is one column right in the same row, or in column 0 of the next row after column 6 |
| `MonthGrid.FirstDayPlacement` | CalendarController.java:108-109 | day 1 is in the column of the first weekday, in row 1 |
| `MonthGrid.WeeksFiveOrSix` | CalendarController.java:87-88 | weeks is 5 or 6, and it is 6 exactly when the month starts on a Friday or Saturday |
| `MonthGrid.LastRowUsed` | CalendarController.java:87-109 | the last week row holds day 31's button, so no week row is empty |
| `MonthGrid.WeekdayHeaders` | CalendarController.java:74-84 | row 0 holds exactly seven cells, the weekday names Sunday..Saturday in columns 0..6 |
| `MonthGrid.Layout` | CalendarController.java:58-124 | weeks = Weeks(offset). The grid has exactly 7 + 31 cells, all inside 7 columns and rows 0..weeks. Headers are in row 0. Day index d is at (Col, Row), labelled d + 1 and opening date (d + 1, month, year) |
| `Text.NatToString` | CalendarController.java:105 | the decimal rendering is a non-empty digit string with no leading zero |
| `Text.IntToString` | CalendarController.java:134 | an int renders as an optional leading minus and digits, so it contains no '/' |
| `Text.DigitsValueOfNatToString` | CalendarController.java:105 | reading a rendered natural number back gives the number |
| `Text.ParseIntToString` | CalendarController.java:134 | reading a rendered int field back gives the int |
| `Text.IntToStringInjective` | CalendarController.java:134 | two ints render the same if and only if they are equal |
| `Text.SplitFirstJoin` | CalendarController.java:134 | a separator-free field followed by '/' and a rest splits back into that field and the rest |
| `Text.TrimStart` | CalendarController.java:146 | where trim starts: every character before it is ≤ U+0020, and the character there (if any) is above U+0020 |
| `Text.TrimEnd` | CalendarController.java:146 | where trim stops: no earlier than its start, every character after it is ≤ U+0020, and the last kept character is above U+0020 |
| `Text.TrimEmptyIff` | CalendarController.java:146-147 | the trimmed text is empty if and only if every character is ≤ U+0020 |
| `Text.Trim` | CalendarController.java:146 | the trimmed text is no longer than the input, and when non-empty it starts and ends with a character above U+0020; its exact value is pinned by `Text.TrimIsMiddle` |
| `Text.TrimIsMiddle` | CalendarController.java:146 | the trim of a text is exactly its middle part s[i..j] whose outside is all ≤ U+0020 and whose ends, when non-empty, are above U+0020: only leading and trailing blanks are removed |
| `Text.TrimIdempotent` | CalendarController.java:146 | trimming a trimmed text changes nothing |
| `DateKey.Key` | CalendarController.java:134 | the key of a date parses back to its day, month and year |
| `DateKey.KeyInjective` | CalendarController.java:134 | two dates have the same key if and only if they are equal, so distinct dates never share an event list |
| `DateKey.TitleAsWritten` | CalendarController.java:128 | the title as written starts with "Events of "; what follows is specified by `DateKey.TitleAsWrittenShowsTenfoldMonth` |
| `DateKey.Title` | CalendarController.java:128 | the corrected title starts with "Events of "; what follows is specified by `DateKey.TitleShowsOneBasedMonth` |
| `DateKey.TitleAsWrittenShowsTenfoldMonth` | CalendarController.java:128 | as written, the title of a date with month m ≥ 0 reads as month 10·m + 1 |
| `DateKey.FebruaryTitleReadsAsNovember` | CalendarController.java:128 | as written, the title of 1 February 2024 reads as 1/11/2024, the corrected title of 1 November |
| `DateKey.JanuaryTitleAsWritten` | CalendarController.java:128 | as written, 1 January 2024 is titled "Events of 1/01/2024"; corrected, "Events of 1/1/2024" |
| `DateKey.TitleShowsOneBasedMonth` | CalendarController.java:128 | the corrected title reads as day, month + 1, year |
| `EventStore.AddEvent` | CalendarController.java:146-150 | a blank-after-trim text leaves the map unchanged; otherwise the date's list (empty if absent) gets the trimmed text appended and no other key changes |
| `EventStore.DeleteEvent` | CalendarController.java:157-161 | the set of keys stays; a listed selection shortens the date's list by one; an unlisted one changes nothing |
| `EventStore.IndexOf` | CalendarController.java:159-160 | the first index holding the text: it holds it, and no earlier one does |
| `EventStore.RemoveFirst` | CalendarController.java:159-160 | removing a listed text shortens the list by exactly one; removing an unlisted text changes nothing |
| `EventStore.RemoveFirstMultiset` | CalendarController.java:159-160 | removing a listed text takes exactly one copy of it out of the list's multiset and nothing else |
| `EventStore.RemoveFirstAt` | CalendarController.java:159-160 | if index i holds the first occurrence, removal gives the list without index i: the other elements stay in order |
| `EventStore.RemoveFirstOfAppended` | CalendarController.java:148-160 | appending a text not yet listed and then removing it gives back the list |
| `EventStore.RemoveFirstOfAppendedDuplicate` | CalendarController.java:148-160 | appending a text already listed and then removing it removes the earlier copy, and the new one stays last |
| `EventStore.LookupAfterAdd` | CalendarController.java:136-150 | after an Add, the date's events as the next dialog reads them (empty if absent) are the old ones followed by the trimmed text, or unchanged when it is blank; every other date reads as before |
| `EventStore.LookupAfterDelete` | CalendarController.java:136-160 | after a Delete, the date's events as the next dialog reads them are the old ones without the first copy of the selection; every other date reads as before |
| `EventStore.AddEventIgnoresBlank` | CalendarController.java:146-147 | an Add of a text made only of characters ≤ U+0020 leaves the store unchanged |
| `EventStore.AddEventAppends` | CalendarController.java:146-150 | a non-blank Add makes the date's list the old list (empty if absent) followed by the trimmed text, adds only that key, and leaves other keys' lists unchanged |
| `EventStore.DeleteEventRemovesFirst` | CalendarController.java:157-161 | a Delete removes one copy of the selection from the date's list: the first occurrence, with the other events kept in order |
| `EventStore.DeleteEventFrame` | CalendarController.java:157-161 | a Delete keeps the set of keys and every other date's list |
| `EventStore.AddThenDelete` | CalendarController.java:145-161 | Delete after Add of a text not yet listed restores the date's list and other keys; the key is then present |
| `Calendar.CalendarController.constructor` | CalendarController.java:32 | the event map starts empty |
| `Calendar.DayDialog.constructor` | CalendarController.java:126-139 | opening a dialog computes the date key and the corrected title, shows a copy of the date's events (`EventStore.Lookup`, the get-or-empty read at line 136) and establishes the invariant |
| `Calendar.DayDialog.Add` | CalendarController.java:145-153 | the map becomes AddEvent of the old map. The trimmed text is appended on screen when non-blank. The invariant is kept |
| `Calendar.DayDialog.Delete` | CalendarController.java:156-162 | with no selection nothing changes. With one, the date has an entry; the map becomes DeleteEvent of the old map and the screen list loses the first copy. The invariant is kept |

## Findings

| source | as written | input that shows it | evidently intended | confidence | as-written member | corrected member |
|---|---|---|---|---|---|---|
| CalendarController.java:128 | `"/" + month+1` is string concatenation, so the title shows the zero-based month followed by the digit 1 (month 10·m + 1) | 1 February 2024 (month 1) is titled "Events of 1/11/2024", which reads as 1 November; 1 January is titled "1/01/2024" | the one-based month, "Events of 1/2/2024" | high, not executed | `DateKey.TitleAsWrittenShowsTenfoldMonth` | `DateKey.TitleShowsOneBasedMonth` |

The rest of the model uses the corrected `DateKey.Title`: the title that `Calendar.DayDialog` stores is the one-based one.

## Left out

- JavaFX widgets, styles, cell sizes, row-height constraints (the header row of 20 and week rows of 80 pixels), `Stage` modality, `showAndWait`, FXML wiring, and clearing the text field after an Add. These are presentation only. The GridPane is represented by the cell map that `MonthGrid.Layout` returns.
- The weekday of the 1st, computed by `java.util.Calendar` (lines 60-61). `Layout` takes it as the input `firstDayOfMonth` in 0..6.
- `initialize` and `updateCalendar`: reading the current date from the clock, filling the month and year combo boxes (locale month names from `DateFormatSymbols`, the year window), and reading their selection. Their only logic is the call to `showCalendar`, which `Layout` models.
- `Math.ceil(totalCells / 7.0)` on doubles is modelled as the integer ceiling `(totalCells + 6) / 7`. Both agree for totals this small.
- Java's 32-bit `int` is modelled by unbounded `int`. Every value involved (day 1..31, month 0..11, a year in a 200-year window, grid indices) is far from overflow.
- `Calendar.DayDialog.Delete` requires a present selection to be an item of the list on screen. This is what a `ListView` selection always is; a selection outside the list is not modelled.
- `Calendar.DayDialog.constructor` stores the corrected title `DateKey.Title`, not the title built at CalendarController.java line 128 (`DateKey.TitleAsWritten`); the difference is stated in Findings.
- Only one dialog is open at a time, because the dialog is application-modal. `DayDialog.Valid()` is stated for that single open dialog. Two dialogs for one date open at once are not modelled.
- Java strings are sequences of UTF-16 code units, while Dafny strings are sequences of Unicode scalar values. Nothing here depends on the difference (digits, '/', and `trim()`'s test against U+0020 behave the same), but a string holding a lone surrogate is not modelled.
- `Main.java` (application start-up) has no logic and is not part of this model.
