/**
 * The batch pipeline itself: hotels loaded from the hotel list, bookings added to them
 * in place, and the availability scan. Each step is proved against the value-level
 * specification in Listings and Reservations.
 */
module HotelAvailability {
  import opened Wrappers
  import opened JavaText
  import opened Reservations
  import opened Listings
  import CommandLine

  /** A hotel: its name, its number of rooms, and its reserved-room count per day. */
  class Hotel {
    var name: string
    var totalRooms: int
    var reservations: DayCounts

    /** A new hotel has no reservations. */
    constructor (name: string, totalRooms: int)
      ensures this.name == name && this.totalRooms == totalRooms
      ensures reservations == map[]
    {
      this.name := name;
      this.totalRooms := totalRooms;
      reservations := map[];
    }

    /**
     * Books one room for every day from `checkin` up to, not including, `checkout`:
     * the inner loop of the booking loader.
     */
    method Reserve(checkin: int, checkout: int)
      modifies this`reservations
      ensures reservations == AddStay(old(reservations), checkin, checkout)
    {
      var day := checkin;
      while day < checkout
        invariant day == checkin || checkin < day <= checkout
        invariant reservations == AddStay(old(reservations), checkin, day)
        decreases checkout - day
      {
        if day !in reservations {
          reservations := reservations[day := 1];
        } else {
          reservations := reservations[day := reservations[day] + 1];
        }
        day := day + 1;
      }
    }
  }

  /** No two names share one hotel object. */
  ghost predicate Distinct(hotels: map<string, Hotel>)
  {
    forall a, b :: a in hotels && b in hotels && a != b ==> hotels[a] != hotels[b]
  }

  /** The room count of every hotel, by name. */
  ghost function Capacities(hotels: map<string, Hotel>): map<string, int>
    reads hotels.Values
  {
    map name | name in hotels :: hotels[name].totalRooms
  }

  /** The reservations of every hotel, by name. */
  ghost function ReservationsOf(hotels: map<string, Hotel>): Ledger
    reads hotels.Values
  {
    map name | name in hotels :: hotels[name].reservations
  }

  /** Registering one more hotel adds its room count under its name. */
  lemma CapacitiesAdd(hotels: map<string, Hotel>, name: string, hotel: Hotel)
    ensures Capacities(hotels[name := hotel]) == Capacities(hotels)[name := hotel.totalRooms]
  {
  }

  /**
   * Loads the hotel list: each new trimmed name gets a new hotel with the parsed room
   * count and no reservations; a name already loaded is skipped; the first line that
   * throws ends the load, keeping what was loaded before it (`failed` is its index).
   */
  method ReadHotels(lines: seq<string>) returns (hotels: map<string, Hotel>, failed: Option<nat>)
    ensures Distinct(hotels)
    ensures forall name :: name in hotels ==> fresh(hotels[name])
    ensures forall name :: name in hotels ==> hotels[name].name == name && hotels[name].reservations == map[]
    ensures Capacities(hotels) == LoadHotels(lines).capacities
    ensures failed == LoadHotels(lines).failed
  {
    hotels := map[];
    var i := 0;
    while i < |lines|
      invariant 0 <= i <= |lines|
      invariant LoadHotels(lines[..i]) == HotelLoad(Capacities(hotels), None)
      invariant Distinct(hotels)
      invariant forall name :: name in hotels ==> fresh(hotels[name])
      invariant forall name :: name in hotels ==> hotels[name].name == name && hotels[name].reservations == map[]
    {
      var line := lines[i];
      HotelsNextLine(lines, i);
      if IsComment(line) {
        i := i + 1;
        continue;
      }
      var fields := JavaSplit(line);
      if |fields| == 0 {
        return hotels, Some(i);
      }
      var name := Trim(fields[0]);
      if name !in hotels {
        if |fields| < 2 {
          return hotels, Some(i);
        }
        var capacity := ParseInt(Trim(fields[1]));
        if capacity.None? {
          return hotels, Some(i);
        }
        var hotel := new Hotel(name, capacity.value);
        CapacitiesAdd(hotels, name, hotel);
        hotels := hotels[name := hotel];
      }
      i := i + 1;
    }
    assert lines[..i] == lines;
    failed := None;
  }

  /**
   * One parsed booking: the hotel named exactly as written, if loaded, gets one room on
   * each day of the stay; every other hotel is left as it is.
   */
  method Book(hotels: map<string, Hotel>, booking: Booking)
    requires Distinct(hotels)
    modifies hotels.Values`reservations
    ensures ReservationsOf(hotels) == ApplyBooking(old(ReservationsOf(hotels)), booking)
  {
    if booking.hotel in hotels {
      var hotel := hotels[booking.hotel];
      hotel.Reserve(booking.checkin, booking.checkout);
      forall name | name in hotels && name != booking.hotel
        ensures hotels[name].reservations == old(hotels[name].reservations)
      {
        assert hotels[name] != hotel;
      }
    }
  }

  /**
   * Adds the booking list to the hotels in place: for each booking line naming a loaded
   * hotel exactly (untrimmed), one room on each day of its stay; lines naming no loaded
   * hotel are ignored; the first line that throws ends the pass, keeping the updates made
   * before it (`failed` is its index). Names and room counts do not change.
   */
  method ReadBookings(hotels: map<string, Hotel>, lines: seq<string>, parseDate: string -> Option<int>)
    returns (failed: Option<nat>)
    requires Distinct(hotels)
    modifies hotels.Values`reservations
    ensures ReservationsOf(hotels) == ApplyAll(old(ReservationsOf(hotels)), ParseBookings(lines, parseDate).bookings)
    ensures failed == ParseBookings(lines, parseDate).failed
  {
    var i := 0;
    while i < |lines|
      invariant 0 <= i <= |lines|
      invariant ParseBookings(lines[..i], parseDate).failed.None?
      invariant ReservationsOf(hotels) == ApplyAll(old(ReservationsOf(hotels)), ParseBookings(lines[..i], parseDate).bookings)
    {
      var line := lines[i];
      ghost var before := ParseBookings(lines[..i], parseDate).bookings;
      if IsComment(line) {
        BookingsSkipComment(lines, i, parseDate);
        i := i + 1;
        continue;
      }
      var fields := JavaSplit(line);
      if |fields| < 2 {
        BookingsStopAt(lines, i, parseDate);
        return Some(i);
      }
      var checkin := parseDate(fields[1]);
      if checkin.None? || |fields| < 3 {
        BookingsStopAt(lines, i, parseDate);
        return Some(i);
      }
      var checkout := parseDate(fields[2]);
      if checkout.None? {
        BookingsStopAt(lines, i, parseDate);
        return Some(i);
      }
      var booking := Booking(fields[0], checkin.value, checkout.value);
      BookingsTakeEntry(lines, i, parseDate, booking);
      ApplyAllSnoc(old(ReservationsOf(hotels)), before, booking);
      Book(hotels, booking);
      i := i + 1;
    }
    assert lines[..i] == lines;
    failed := None;
  }

  /**
   * The availability scan: every hotel on none of whose days in `[checkin, checkout)`
   * the recorded count reaches its room count. A day without an entry never stops a hotel.
   */
  method CheckAvailability(hotels: map<string, Hotel>, checkin: int, checkout: int) returns (available: set<string>)
    ensures forall name :: name in available <==>
      name in hotels && FreeThroughout(hotels[name].reservations, hotels[name].totalRooms, checkin, checkout)
  {
    available := {};
    var remaining := hotels.Keys;
    while remaining != {}
      invariant remaining <= hotels.Keys
      invariant forall name :: name in available <==>
        name in hotels && name !in remaining
        && FreeThroughout(hotels[name].reservations, hotels[name].totalRooms, checkin, checkout)
      decreases remaining
    {
      var name :| name in remaining;
      var totalRooms := hotels[name].totalRooms;
      var roomsPerDay := hotels[name].reservations;
      var isAvailable := true;
      var day := checkin;
      while day < checkout
        invariant day == checkin || checkin < day <= checkout
        invariant forall d :: checkin <= d < day ==> !FullOn(roomsPerDay, totalRooms, d)
        invariant !isAvailable ==> day < checkout && FullOn(roomsPerDay, totalRooms, day)
        decreases checkout - day
      {
        if day in roomsPerDay && roomsPerDay[day] >= totalRooms {
          isAvailable := false;
          break;
        }
        day := day + 1;
      }
      if !isAvailable {
        assert FullOn(roomsPerDay, totalRooms, day);
      }
      assert isAvailable <==> FreeThroughout(roomsPerDay, totalRooms, checkin, checkout);
      if isAvailable {
        available := available + {name};
      }
      remaining := remaining - {name};
    }
  }

  /** Scanning the ledger the bookings leave on an empty one finds exactly the hotels available after them. */
  lemma ScanMatchesReport(capacities: map<string, int>, bookings: seq<Booking>, checkin: int, checkout: int,
                          start: Ledger, ledger: Ledger, name: string)
    requires start.Keys == capacities.Keys && forall hotel :: hotel in start ==> start[hotel] == map[]
    requires ledger == ApplyAll(start, bookings)
    ensures name in capacities ==> name in ledger
    ensures (name in capacities && FreeThroughout(ledger[name], capacities[name], checkin, checkout))
        <==> AvailableAfter(capacities, bookings, checkin, checkout, name)
  {
    if name in capacities {
      FreeAfterBookings(start, bookings, name, capacities[name], checkin, checkout);
      if AvailableAfter(capacities, bookings, checkin, checkout, name) {
        forall day | checkin <= day < checkout
          ensures !(Covering(bookings, name, day) > 0 && Covering(bookings, name, day) >= capacities[name])
        {
        }
      }
      if FreeThroughout(ledger[name], capacities[name], checkin, checkout) {
        forall day | checkin <= day < checkout
          ensures !(Covering(bookings, name, day) > 0 && Covering(bookings, name, day) >= capacities[name])
        {
        }
      }
    }
  }

  /**
   * The body of `main` once the arguments are accepted: load the hotel list, add the
   * booking list to it, and scan the stay. The hotels reported are exactly those the two
   * lists make available.
   */
  method LoadAndScan(hotelLines: seq<string>, bookingLines: seq<string>, parseDate: string -> Option<int>,
                     checkin: int, checkout: int)
    returns (available: set<string>)
    ensures forall name :: name in available <==>
      ReportedAvailable(hotelLines, bookingLines, parseDate, checkin, checkout, name)
  {
    var hotels, hotelsFailed := ReadHotels(hotelLines);
    ghost var start := ReservationsOf(hotels);
    ghost var capacities := Capacities(hotels);
    assert start.Keys == capacities.Keys && forall hotel :: hotel in start ==> start[hotel] == map[];
    var bookingsFailed := ReadBookings(hotels, bookingLines, parseDate);
    available := CheckAvailability(hotels, checkin, checkout);
    ghost var bookings := ParseBookings(bookingLines, parseDate).bookings;
    ghost var ledger := ReservationsOf(hotels);
    forall name
      ensures name in available <==> ReportedAvailable(hotelLines, bookingLines, parseDate, checkin, checkout, name)
    {
      if name in hotels {
        assert hotels[name].totalRooms == capacities[name];
        assert hotels[name].reservations == ledger[name];
      }
      ScanMatchesReport(capacities, bookings, checkin, checkout, start, ledger, name);
    }
  }

  /**
   * `main`: the arguments are checked first and a refusal ends the run; otherwise the
   * hotel list and the booking list they name are loaded, and the stay they give is
   * scanned. Reading a file is the parameter `readLines`.
   */
  method Run(args: seq<string>, fileExists: string -> bool, parseDate: string -> Option<int>,
             readLines: string -> seq<string>)
    returns (parsed: Result<CommandLine.Config, CommandLine.ArgError>, available: set<string>)
    ensures parsed.Success? <==> CommandLine.ValidArgs(args, fileExists, parseDate)
    ensures parsed.Success? ==> parsed.value.Keys == CommandLine.OptionNames
    ensures parsed.Success? ==> forall k: nat :: k < 4 ==>
      && |CommandLine.FlagAt(args, k)| >= 2
      && CommandLine.OptionName(CommandLine.FlagAt(args, k)) in parsed.value
      && parsed.value[CommandLine.OptionName(CommandLine.FlagAt(args, k))] == CommandLine.ValueAt(args, k)
    ensures parsed.Success? ==>
      && fileExists(parsed.value["hotels"]) && fileExists(parsed.value["bookings"])
      && CommandLine.DateBefore(parseDate(parsed.value["checkin"]), parseDate(parsed.value["checkout"]))
    ensures parsed.Failure? ==> available == {}
    ensures parsed.Success? ==> forall name :: name in available <==>
      ReportedAvailable(readLines(parsed.value["hotels"]), readLines(parsed.value["bookings"]), parseDate,
                        parseDate(parsed.value["checkin"]).value, parseDate(parsed.value["checkout"]).value, name)
  {
    parsed := CommandLine.ParseArgs(args, fileExists, parseDate);
    if parsed.Failure? {
      return parsed, {};
    }
    var config := parsed.value;
    available := LoadAndScan(readLines(config["hotels"]), readLines(config["bookings"]), parseDate,
                             parseDate(config["checkin"]).value, parseDate(config["checkout"]).value);
  }
}
