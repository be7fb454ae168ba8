# Hotel availability, modelled and verified in Dafny

`HotelAvailability.java` is a small batch tool. It takes four options:
`--hotels <file> --bookings <file> --checkin YYYY-MM-DD --checkout YYYY-MM-DD`.
It then does four things in order:

1. It loads the hotel list (`name,rooms` lines) into a map of `Hotel` objects.
2. It adds every booking line (`hotel,checkin,checkout`) to the reserved-room counts of that hotel, one day at a time, in place.
3. It scans the stay `[checkin, checkout)`.
4. It prints every hotel on none of whose days the recorded count reaches its number of rooms.

This project models that core:

- `Hotel` is a class whose `reservations` map is updated in place.
- The registry is a `map<string, Hotel>`.
- The three loops (`readHotels`, `readBookings`, `checkAvailability`) are methods proved against value-level specifications.
- The argument check (`parseArgs` with `parseFileArgs` and `parseDateArgs`) is modelled, and so is `main`, which chains them.

Dates are integer day numbers. Day `d` is in a stay when `checkin <= d < checkout`.

## Files

- `wrappers.dfy`: `Option` and `Result`.
- `java_text.dfy` (`JavaText`): the parts of `String` and `Integer` the loaders use, written out exactly:
  - `startsWith("#")`;
  - `split(",")`, including Java's dropping of trailing empty fields, and `"" -> [""]`;
  - `trim()`, which removes every char `<= ' '` at either end;
  - `Integer.parseInt`: an optional sign, ASCII digits, and a 32-bit range.
- `reservations.dfy` (`Reservations`): per-day counts, adding a stay, the ledger of all hotels, and how many bookings cover a day. Also the "free throughout the stay" test the scan performs.
- `listings.dfy` (`Listings`): the hotel list and the booking list read line by line.
  - Each is a function over the prefix of lines read so far.
  - Each stops at the first line that throws, and records that line's index.
  - `ReportedAvailable` states what the whole run reports for the two lists.
- `hotel_availability.dfy` (`HotelAvailability`): the `Hotel` class and the imperative loaders, scan and `main`.
- `command_line.dfy` (`CommandLine`): the argument check.

## Where the model follows the code rather than the documented intent

- **Rooms of zero or less.** A hotel whose room count is `<= 0` is reported available on every day that has no recorded entry. The scan only stops on days that have an entry, so "no entry" is not treated as a count of 0 compared with the room count. For room counts of at least 1 the two readings agree (`Reservations.FreeMeansBelowCapacity`). `Reservations.NoRoomsStillReportedFree` exhibits the difference.
- **Negative room counts.** These are accepted, because `Integer.parseInt` accepts them.
- **A malformed line.** In either list, a malformed line ends the load. The hotels and bookings read before it are kept and used; the rest of the file is ignored. The only trace is a stack trace, which the model returns as `failed`, the index of that line.
- **An empty or inverted stay.** Only `parseArgs` rejects it. On its own, the scan reports every hotel for an empty range.
- **The `catch` at the end of `parseArgs`.** It cannot be reached. Once the loop has accepted four pairs, all four options are present and both dates parse (`CommandLine.AcceptedPairs`).
- **An argument shorter than two characters.** Length is counted in Dafny chars; Java counts UTF-16 units (see "## Left out"). `substring(2)` throws on it before any check runs, so the program stops with an uncaught exception instead of the usage text. The model reports this as `OptionTooShort`.
- **Name clashes.** A flag whose name, after its first two characters, matches an option already given is reported as repeated, even if it does not start with `--`. For example, `xxhotels` after `--hotels` is reported as repeated.

## Model

| member | source | states |
|---|---|---|
| HotelAvailability.Hotel.constructor | HotelAvailability.java:20-24 | a new hotel has the given name and room count and no reservations |
| HotelAvailability.Hotel.Reserve | HotelAvailability.java:151-157 | the day loop leaves the counts equal to the stay added to the old counts: one more on each day of `[checkin, checkout)` and nowhere else, as `Reservations.AddStayAt` states of `AddStay`; only `reservations` changes |
| HotelAvailability.ReadHotels | HotelAvailability.java:93-122 | the registry holds distinct fresh hotels, each under its own name with no reservations; the room counts and the failing line are those of `Listings.LoadHotels` on the lines |
| HotelAvailability.Book | HotelAvailability.java:146-158 | one parsed booking changes the reservations of all hotels exactly as `Reservations.ApplyBooking`: only the hotel named exactly as written, and nothing if no hotel has that name |
| HotelAvailability.ReadBookings | HotelAvailability.java:125-168 | the reservations become the old ones with every booking of `Listings.ParseBookings` applied in order; `failed` is the line at which reading stopped |
| HotelAvailability.CheckAvailability | HotelAvailability.java:171-200 | a hotel is in the result iff it is registered and no day of `[checkin, checkout)` has an entry that is at least its room count |
| HotelAvailability.ScanMatchesReport | HotelAvailability.java:180-193 | scanning the ledger that the bookings leave on empty counts finds exactly the hotels that are available after those bookings |
| HotelAvailability.LoadAndScan | HotelAvailability.java:261-264 | loading the hotel list, adding the booking list and scanning reports exactly the names `Listings.ReportedAvailable` gives for the two lists |
| HotelAvailability.Run | HotelAvailability.java:255-265 | the run goes ahead iff the arguments are valid; then each option is stored under its name with the value that followed its flag, both files exist, the stay is not empty, and the hotels reported are exactly those available for the named lists and dates; a refused run reports nothing |
| Reservations.AddStayAt | HotelAvailability.java:151-157 | adding a stay adds exactly one on each day of the half-open stay and nothing on other days; a day without an entry becomes 1; the days with entries are the old ones plus the stay's |
| Reservations.ApplyBookingAt | HotelAvailability.java:146-157 | a booking keeps the set of hotels; it adds one exactly on the days it covers of the hotel it names; other hotels are unchanged; an unknown hotel or an empty stay changes nothing |
| Reservations.ApplyAllAt | HotelAvailability.java:137-157 | after a sequence of bookings a hotel's count on a day is its old count plus the number of those bookings covering that day; a day has an entry iff it had one or some booking covers it |
| Reservations.RecordedCountsPositive | HotelAvailability.java:151-156 | starting from no reservations, every recorded count equals the number of covering bookings and is at least 1 |
| Reservations.BookingsTwice | HotelAvailability.java:137-157 | reading the same bookings twice counts each covering booking twice: counts accumulate and are never reset |
| Reservations.CoveringAppend | HotelAvailability.java:137-157 | the bookings covering a day in two lists read one after the other add up |
| Reservations.CoveringPermutation | HotelAvailability.java:137-157 | two lists holding the same bookings in any order cover every day equally often |
| Reservations.BookingOrderIrrelevant | HotelAvailability.java:137-157 | the ledger after aggregation does not depend on the order of the booking lines |
| Reservations.UnknownHotelsIgnored | HotelAvailability.java:146 | bookings naming no registered hotel can be dropped without changing any hotel's reservations |
| Reservations.FreeMeansBelowCapacity | HotelAvailability.java:183-189 | for a hotel with at least one room, passing the scan means every day's count, counting a day without an entry as 0, is below the room count; an empty stay always passes |
| Reservations.NoRoomsStillReportedFree | HotelAvailability.java:183-189 | a hotel with no rooms passes the scan on days without entries even though 0 is not below its room count |
| Reservations.FreeAfterBookings | HotelAvailability.java:183-189 | after bookings on empty counts, a hotel passes the scan iff no day of the stay is covered by at least one booking and by at least as many bookings as it has rooms |
| Listings.LoadHotelLine | HotelAvailability.java:105-120 | after a failure nothing more is read; a failure keeps what was registered and records either the earlier line or this one; a clean prefix fails on this line iff the line's step throws |
| Listings.HotelsAbortIsFinal | HotelAvailability.java:105-120 | once a hotel line has thrown, lines after it change nothing |
| Listings.HotelsNextLine | HotelAvailability.java:105-120 | after a clean prefix, the next line either registers what its step registers, or throws, and the whole list then ends with what was registered and that line's index |
| Listings.HotelsAbortKeepsPrefix | HotelAvailability.java:105-120 | when line k throws, the hotels registered are exactly those the lines before k register without failure, and reading through line k already gives the whole outcome |
| Listings.HotelsFailingLineThrows | HotelAvailability.java:109-111 | the line at which the hotel list stops is one on which splitting, indexing or `parseInt` throws |
| Listings.HotelCommentsIgnored | HotelAvailability.java:106-108 | removing the `#` lines changes neither the hotels registered nor whether the load fails |
| Listings.OnlyDeclaredHotelsRegistered | HotelAvailability.java:109-112 | a name that no line declares is never registered |
| Listings.HotelStepKeeps | HotelAvailability.java:110-112 | a line never changes the room count of a name already registered |
| Listings.FirstDeclarationWins | HotelAvailability.java:110-112 | with duplicate trimmed names, a clean load keeps the room count of the first line that declares the name |
| Listings.BookingsAbortIsFinal | HotelAvailability.java:137-167 | once a booking line has thrown, lines after it change nothing |
| Listings.BookingsAbortKeepsPrefix | HotelAvailability.java:137-167 | when booking line k throws, the bookings taken are exactly those of the lines before k, read without failure, and reading through line k gives the whole outcome |
| Listings.BookingsFailingLineThrows | HotelAvailability.java:142-144 | the line at which the booking list stops lacks a field or has a date that does not parse |
| Listings.BookingsSkipComment | HotelAvailability.java:138-140 | a `#` line after a clean prefix changes nothing |
| Listings.BookingsTakeEntry | HotelAvailability.java:142-146 | a well-formed line after a clean prefix adds its booking at the end |
| Listings.BookingsStopAt | HotelAvailability.java:142-167 | a malformed line after a clean prefix ends the list there, keeping the bookings taken before it |
| Listings.BookingCommentsIgnored | HotelAvailability.java:138-140 | removing the `#` lines changes neither the bookings taken nor whether reading fails |
| Listings.BookingsFromLines | HotelAvailability.java:137-145 | every booking taken is the parse of some line of the list |
| JavaText.JoinSplitFields | HotelAvailability.java:109 | the comma-separated fields joined again with commas give back the line |
| JavaText.SplitFieldsCommaFree | HotelAvailability.java:109 | no field contains a comma |
| JavaText.SplitFieldsJoin | HotelAvailability.java:109 | comma-free fields joined with commas split back into the same fields |
| JavaText.DropTrailingEmptySpec | HotelAvailability.java:109 | dropping trailing empty fields keeps a prefix that does not end in an empty field, and only empty fields are dropped |
| JavaText.JavaSplitJoin | HotelAvailability.java:142 | `split(",")` recovers comma-free fields written with commas, when the last field is not empty |
| JavaText.TrimSpec | HotelAvailability.java:110-111 | `trim()` gives the middle of the string, with every removed char `<= ' '` and neither end of the result `<= ' '` |
| JavaText.TrimUnchanged | HotelAvailability.java:110-111 | a string with no char `<= ' '` at either end is its own trim |
| JavaText.TrimIdempotent | HotelAvailability.java:110-111 | trimming twice is trimming once |
| JavaText.ParseInt | HotelAvailability.java:111 | a parsed capacity is a 32-bit value |
| JavaText.ParseIntShowInt | HotelAvailability.java:111 | `parseInt` reads back every 32-bit value written in decimal |
| CommandLine.ParseArgs | HotelAvailability.java:203-253 | the arguments are accepted iff they are valid, and other than eight is refused as a wrong count; on acceptance all four options are stored under their names with the value after each flag, both files exist, and the check-in date is before the check-out date |
| CommandLine.AcceptNext | HotelAvailability.java:212-236 | accepting a known, not yet given flag whose file exists or whose date parses, and storing its value under its name, keeps the loop's account of the pairs read |
| CommandLine.InvalidPair | HotelAvailability.java:218-235 | a flag that does not start with `--`, an unknown flag, a missing file or an unreadable date refuses the arguments |
| CommandLine.RepeatedPair | HotelAvailability.java:213-217 | a flag whose stored name was already given refuses the arguments |
| CommandLine.EveryOptionGiven | HotelAvailability.java:212-236 | four distinct known flags name every option |
| CommandLine.AcceptedPairs | HotelAvailability.java:238-249 | after four accepted pairs, exactly the four option names are stored, both files exist, both dates parse, and the arguments are valid iff check-in is before check-out |

## Left out

- File I/O is not modelled. `File.exists` is the parameter `fileExists`, and reading a file is the parameter `readLines`, a sequence of lines. The `IOException` path of the loaders is not modelled.
- `SimpleDateFormat` and `Calendar` are not modelled. This covers non-lenient parsing, prefix parsing, time zones, daylight-saving days and `Date` keys. Parsing a date is the parameter `parseDate`, a partial map to day numbers. Stepping a `Calendar` by one day is `+ 1`.
- Strings are sequences of Unicode scalar values, not of UTF-16 code units as in Java. A flag made of one character outside the Basic Multilingual Plane has Java length 2, so Java prints the usage text where the model returns `OptionTooShort`; both refuse the arguments.
- `Integer.parseInt` is modelled on ASCII digits only. The non-ASCII Unicode digits Java also accepts are left out.
- HotelAvailability.Hotel.Reserve: the reservation counts are unbounded integers, so 32-bit wrap-around after 2^31 bookings of one day is not modelled.
- Console output is not modelled: `System.out.println`, `printUsage`, `printStackTrace` and `System.exit`. The hotels printed are returned as a set. A refusal is an `ArgError`, and a stack trace from a loader is the index `failed`.
- The order in which `HashMap` iterates is not modelled. It only affects the order of the printed names, and the result is a set.
- The getters and the unused setters of `Hotel` are not modelled. The model reads and assigns the fields directly. `setReservations` and `hotelsMap.put` write back the same objects, which changes nothing.
- `commandLineArgs` is a static map that starts empty. It is modelled as a local map in `ParseArgs`.
