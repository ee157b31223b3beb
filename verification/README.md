# Car dealership frontend: calendar, car cache and price sort

This project models, in Dafny, the three pieces of sequential logic in the
car-dealership single-page frontend (`salon-samochodowy-frontend`) and proves
properties of them:

- **The rental calendar** (`CalendarComponent`, module `Calendar`). It has a
  (year, month) cursor that `changeMonth` moves with wrap-around at the year
  boundary. `generateCalendar` lays the month out as weeks of 7 cells:
  `null` padding before the 1st, then the days, then `null` padding after the
  last day. Two predicates colour the cells. `isUserRentExist` asks whether the
  signed-in user has a rental window covering a date, with both ends inclusive.
  An id of 0 counts as "nobody signed in" because the test is `!currentUserId`.
  `isRented` asks whether a day of the displayed month is one of the rental
  dates. The JavaScript `Date` lookups are inputs to the model: `firstDay` is
  the weekday of the 1st (0..6) and `daysInMonth` is the month's length. The
  component never assigns its `rentalDates` list, so in the running component
  `isRented` is false for every cell. The model keeps the list as a parameter.
- **The client-side car cache** (`CarService`, module `CarService`). After
  each successful HTTP call the service patches its cached `Car[]` and
  publishes the result through `next`:
  - add appends the returned car;
  - update and refresh replace the first car with the id, or publish nothing
    when no cached car has it;
  - delete filters the id out.

  Rent, return, lease and buy only trigger a refresh of the affected car. Each
  success callback is one function from the cached list to the published list.
  The result is `None` when nothing is published.
- **The price sort** (`CarListComponent`, module `CarList`). On load the
  component keeps the published list and displays a spread copy of it.
  `sortByPrice` sorts that copy ascending or descending by price, depending on
  the current direction, and flips the direction.

Module `JsArray` gives the JavaScript array queries the code uses (`some`,
`findIndex`, `filter`) as recursive functions. Their contracts describe what
each query returns, independently of how it walks the array. Module `Wrappers`
holds the `Option` type used for the source's nullable values.

`changeMonth` is modelled for any integer direction, exactly as written. For a
direction of +1 or -1 it moves the month index `year * 12 + month` by exactly
that step. When `month + direction` falls below 0, the cursor snaps to December
of the previous year; when it rises above 11, it snaps to January of the next
year, whatever the step. So December + 2 gives January, not February, while
March + 2 gives May of the same year.

## Model

| member | source | states |
|---|---|---|
| `Calendar.ChangeMonth` | salon-samochodowy-frontend/src/app/components/calendar/calendar.component.ts:85-93 | the new month is always in 0..11; for a valid month and a step of +1 or -1, `year * 12 + month` moves by exactly that step |
| `Calendar.ChangeMonthWrapsBackward` | salon-samochodowy-frontend/src/app/components/calendar/calendar.component.ts:87-89 | one step back from January (month 0) gives December (month 11) of the previous year |
| `Calendar.ChangeMonthWrapsForward` | salon-samochodowy-frontend/src/app/components/calendar/calendar.component.ts:90-92 | one step forward from December gives January of the next year |
| `Calendar.ChangeMonthRoundTrip` | salon-samochodowy-frontend/src/app/components/calendar/calendar.component.ts:85-93 | from a valid month, a step forward then back returns to the same cursor, and so does a step back then forward |
| `Calendar.GenerateCalendar` | salon-samochodowy-frontend/src/app/components/calendar/calendar.component.ts:99-119 | for a first weekday in 0..6, every row has 7 cells, there are ceil((firstDay + daysInMonth) / 7) rows, and the rows read in order are `firstDay` blanks, days 1..daysInMonth, then the blanks that close the last week |
| `Calendar.GridCellAt` | salon-samochodowy-frontend/src/app/components/calendar/calendar.component.ts:102-116 | in such a grid, the cell at row r, column c is a blank before the 1st, day `7r + c - firstDay + 1` within the month, and a blank after the last day |
| `Calendar.FirstWeekLayout` | salon-samochodowy-frontend/src/app/components/calendar/calendar.component.ts:103-106 | when the month has at least one day, the first row starts with exactly `firstDay` blanks followed by day 1 |
| `Calendar.BlanksOnlyAtEdges` | salon-samochodowy-frontend/src/app/components/calendar/calendar.component.ts:103-116 | a blank cell is either leading padding in the first row or trailing padding after the last day in the last row |
| `Calendar.EveryWeekHasADay` | salon-samochodowy-frontend/src/app/components/calendar/calendar.component.ts:113-116 | when the month has at least one day, every row holds at least one day, so no empty week is appended |
| `Calendar.DaysReadInOrder` | salon-samochodowy-frontend/src/app/components/calendar/calendar.component.ts:105-111 | reading the non-blank cells row by row gives exactly 1, 2, ..., daysInMonth |
| `Calendar.IsUserRentExist` | salon-samochodowy-frontend/src/app/components/calendar/calendar.component.ts:64-78 | false when nobody is signed in or the id is 0; otherwise true exactly when some rental of that user has startDate <= date <= endDate |
| `Calendar.RentalBoundsInclusive` | salon-samochodowy-frontend/src/app/components/calendar/calendar.component.ts:72-76 | the first and the last instant of a user's rental window both count as rented by that user |
| `Calendar.IsRented` | salon-samochodowy-frontend/src/app/components/calendar/calendar.component.ts:137-149 | false for a padding cell; for day d, true exactly when (current year, current month, d) is among the rental dates |
| `JsArray.Some` | salon-samochodowy-frontend/src/app/components/calendar/calendar.component.ts:72-76 | `some` is true exactly when some element satisfies the predicate |
| `JsArray.FindIndex` | salon-samochodowy-frontend/src/app/services/car.service.ts:86 | `findIndex` returns -1 exactly when no element matches; otherwise it returns a matching index with no match before it |
| `JsArray.Filter` | salon-samochodowy-frontend/src/app/services/car.service.ts:100 | `filter` keeps exactly the matching elements, each with its multiplicity and in its original order, and returns the input unchanged exactly when every element matches |
| `CarService.AddCar` | salon-samochodowy-frontend/src/app/services/car.service.ts:69-78 | a successful add always publishes; the new list is one longer, has the old list as its prefix and ends with the returned car |
| `CarService.ReplaceFirstById` | salon-samochodowy-frontend/src/app/services/car.service.ts:159-164 | publishes exactly when some cached car has the id; the published list has the same length, the first car with the id is replaced and every other position is unchanged |
| `CarService.UpdateCar` | salon-samochodowy-frontend/src/app/services/car.service.ts:80-93 | when no cached car has the id, nothing is published and the cache stays as it was; otherwise only the first position with the id takes the returned car |
| `CarService.DeleteCar` | salon-samochodowy-frontend/src/app/services/car.service.ts:95-104 | no car with the id remains; every other car is kept with its multiplicity and in its original order; the list is unchanged exactly when the id was absent |
| `CarService.RefreshCar` | salon-samochodowy-frontend/src/app/services/car.service.ts:155-168 | a failed fetch publishes nothing; a successful one acts like an update with the fetched car, so only an entry with that car id can change |
| `CarService.AfterAction` | salon-samochodowy-frontend/src/app/services/car.service.ts:106-152 | after rent, return, lease or buy, the cache keeps its length and only entries with that car id can differ; nothing is published when the car is not cached |
| `CarService.AddThenDelete` | salon-samochodowy-frontend/src/app/services/car.service.ts:69-104 | deleting a just-added car whose id was not cached restores the previous cache |
| `CarService.DeleteCarDistributes` | salon-samochodowy-frontend/src/app/services/car.service.ts:99-101 | deleting from two lists joined together gives the two deletions joined together, so order is kept |
| `CarService.DeleteCarIdempotent` | salon-samochodowy-frontend/src/app/services/car.service.ts:99-101 | deleting the same id twice is the same as deleting it once |
| `CarService.UpdateCarIdempotent` | salon-samochodowy-frontend/src/app/services/car.service.ts:84-90 | repeating an update with a car that keeps the id changes nothing further |
| `CarService.UpdateCarUndo` | salon-samochodowy-frontend/src/app/services/car.service.ts:84-90 | updating again with the car that the first update replaced restores the cache |
| `CarList.OnCarsLoaded` | salon-samochodowy-frontend/src/app/components/car-list/car-list.component.ts:22-27 | on load the displayed list has the published cars element for element and in the same order, and the direction is kept |
| `CarList.Sort` | salon-samochodowy-frontend/src/app/components/car-list/car-list.component.ts:30-35 | the result is ordered by price in the given direction and is a rearrangement (same multiset) of the input |
| `CarList.SortByPrice` | salon-samochodowy-frontend/src/app/components/car-list/car-list.component.ts:29-37 | from `Asc` the displayed list ends non-decreasing by price and from `Desc` non-increasing; it is a rearrangement of itself; the direction flips and the published list is not touched |
| `CarList.FirstSortAscending` | salon-samochodowy-frontend/src/app/components/car-list/car-list.component.ts:16-32 | the component starts with no cars and the `asc` direction, so the first sort after loading orders the loaded cars by non-decreasing price, keeps them all, and leaves `desc` for the next call |
| `CarList.ValidPreserved` | salon-samochodowy-frontend/src/app/components/car-list/car-list.component.ts:22-37 | loading makes the displayed list a rearrangement of the published list, and sorting keeps it one |
| `CarList.SortByPriceTwice` | salon-samochodowy-frontend/src/app/components/car-list/car-list.component.ts:29-36 | two sorts in a row restore the direction; the second sort orders the opposite way; the published list is untouched |
| `CarList.SortedPricesUnique` | salon-samochodowy-frontend/src/app/components/car-list/car-list.component.ts:29-36 | any two price sorts of the same cars in the same direction show the same price column, so how the browser orders equally priced cars cannot change the prices shown |

## Left out

- HTTP calls, error callbacks and reactive streams are not modelled. Each cache update is the success callback taken as one atomic step; a failed add, update or delete never runs its callback and so leaves the cache alone.
- Interleaving of concurrent requests and responses is not modelled.
- The initial load (`loadInitialData`, `getCars`) is left out. It only publishes the fetched list as it is.
- `getRenterId` is left out. It is a plain GET with no cache effect.
- `updateCar` and `refreshCar` write the replaced car into the held array in place before publishing a copy. The model only returns the published list; the aliasing of the held array with subscribers is not modelled.
- Calendar: the JavaScript `Date` lookups are parameters. The weekday of the 1st and the month length come in as `firstDay` and `daysInMonth`. The Gregorian calendar and time zones are not modelled.
- Calendar: `changeMonth` ends by calling `generateCalendar` for the new month. That call is `GenerateCalendar` with the new month's lookups, so `ChangeMonth` models only the cursor update.
- Calendar: `open`, `close`, `ngOnInit`, `ngOnDestroy` and their subscriptions are left out. They are component plumbing.
- Calendar: `toDate` is left out. It ignores its argument and returns the current date.
- Calendar: `datetoDate` is left out. It only builds a JavaScript `Date`.
- Calendar.IsUserRentExist: dates are compared as instants (integers). The parsing of the rental's date strings and invalid (`NaN`) dates are not modelled.
- Calendar.IsRented: the year, month and day number are used as given. The normalisation done by `new Date(year, month, day)` is not modelled: years 0..99 map to 1900..1999, and out-of-range months and days roll over. Every day that `GenerateCalendar` places lies in 1..daysInMonth.
- Logging is not modelled. This covers the `console.error` in the no-user branch of `isUserRentExist` and the `console.log` in the rentals subscription.
- Prices are integers. Floating-point prices and `NaN` comparator results are not modelled.
- CarList.Sort: stability, which JavaScript's `Array.prototype.sort` guarantees, is deliberately not in the contract. The contract states ordering by price and the same multiset of cars. `SortedPricesUnique` shows that the displayed prices do not depend on stability.
- The backend (route handlers, ORM models, database), the authentication, customer and rental services, the HTTP interceptor and the remaining UI components are outside this model.
