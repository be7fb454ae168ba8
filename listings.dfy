/**
 * What the two loaders make of their input lines, as values. Both read the lines in
 * order, skip comment lines, and stop for good at the first line that throws; the
 * effects of the lines before it are kept.
 */
module Listings {
  import opened Wrappers
  import opened JavaText
  import opened Reservations

  /** The lines that are not comments, in their order. */
  function NonComments(lines: seq<string>): (kept: seq<string>)
    ensures |kept| <= |lines|
    ensures forall k :: 0 <= k < |kept| ==> !IsComment(kept[k])
  {
    if |lines| == 0 then []
    else
      var init := NonComments(lines[..|lines| - 1]);
      if IsComment(lines[|lines| - 1]) then init else init + [lines[|lines| - 1]]
  }

  // ---------------------------------------------------------------- hotel list

  /** The trimmed first field of a non-comment hotel line; None when `split` gives no field. */
  function HotelName(line: string): Option<string>
  {
    if IsComment(line) then None
    else
      var fields := JavaSplit(line);
      if |fields| == 0 then None else Some(Trim(fields[0]))
  }

  /** The trimmed second field of a hotel line read as an `int`; None when it is missing or does not parse. */
  function HotelCapacity(line: string): Option<int>
  {
    var fields := JavaSplit(line);
    if |fields| < 2 then None else ParseInt(Trim(fields[1]))
  }

  /**
   * One line of the hotel list against the capacities registered so far: a comment or
   * an already registered name leaves them as they are; a new name is registered with
   * its capacity; None when the line throws (no field, or a capacity that is missing or
   * does not parse). The capacity of an already registered name is never read.
   */
  function HotelStep(capacities: map<string, int>, line: string): Option<map<string, int>>
  {
    if IsComment(line) then Some(capacities)
    else
      match HotelName(line)
      case None => None
      case Some(name) =>
        if name in capacities then Some(capacities)
        else
          match HotelCapacity(line)
          case None => None
          case Some(capacity) => Some(capacities[name := capacity])
  }

  /** The registered capacities, and the index of the line that threw, if one did. */
  datatype HotelLoad = HotelLoad(capacities: map<string, int>, failed: Option<nat>)

  /** One more line of the hotel list, unless an earlier line has already thrown. */
  function LoadHotelLine(prev: HotelLoad, line: string, index: nat): (r: HotelLoad)
    ensures prev.failed.Some? ==> r == prev
    ensures r.failed.Some? ==> r.failed == prev.failed || r.failed == Some(index)
    ensures r.failed.Some? ==> r.capacities == prev.capacities
    ensures prev.failed.None? ==> (r.failed.Some? <==> HotelStep(prev.capacities, line).None?)
  {
    if prev.failed.Some? then prev
    else
      match HotelStep(prev.capacities, line)
      case None => HotelLoad(prev.capacities, Some(index))
      case Some(capacities) => HotelLoad(capacities, None)
  }

  /** The hotel list read line by line, stopping at the first line that throws. */
  function LoadHotels(lines: seq<string>): (r: HotelLoad)
    ensures r.failed.Some? ==> r.failed.value < |lines|
  {
    if |lines| == 0 then HotelLoad(map[], None)
    else LoadHotelLine(LoadHotels(lines[..|lines| - 1]), lines[|lines| - 1], |lines| - 1)
  }

  /** Once a line has thrown, no later line is read. */
  lemma {:induction false} HotelsAbortIsFinal(lines: seq<string>, more: seq<string>)
    requires LoadHotels(lines).failed.Some?
    ensures LoadHotels(lines + more) == LoadHotels(lines)
    decreases |more|
  {
    if |more| == 0 {
      assert lines + more == lines;
    } else {
      HotelsAbortIsFinal(lines, more[..|more| - 1]);
      assert (lines + more)[..|lines + more| - 1] == lines + more[..|more| - 1];
    }
  }

  /** The first `k` lines of the first `k + 1` lines are the first `k` lines, and line `k` is the last. */
  lemma PrefixOfPrefix(lines: seq<string>, k: nat)
    requires k < |lines|
    ensures |lines[..k + 1]| == k + 1 && lines[..k + 1][..k] == lines[..k] && lines[..k + 1][k] == lines[k]
  {
  }

  /** A list is its first `i` lines followed by the rest. */
  lemma PrefixAndRest(lines: seq<string>, i: nat)
    requires i <= |lines|
    ensures lines[..i] + lines[i..] == lines
  {
  }

  /**
   * Reading one more hotel line after a clean prefix: the step either registers what it
   * registers, or throws, and then the whole list stops there with what was registered.
   */
  lemma HotelsNextLine(lines: seq<string>, i: nat)
    requires i < |lines| && LoadHotels(lines[..i]).failed.None?
    ensures var before := LoadHotels(lines[..i]);
      match HotelStep(before.capacities, lines[i])
      case Some(capacities) => LoadHotels(lines[..i + 1]) == HotelLoad(capacities, None)
      case None => LoadHotels(lines) == HotelLoad(before.capacities, Some(i))
  {
    PrefixOfPrefix(lines, i);
    assert LoadHotels(lines[..i + 1]) == LoadHotelLine(LoadHotels(lines[..i]), lines[i], i);
    if HotelStep(LoadHotels(lines[..i]).capacities, lines[i]).None? {
      HotelsAbortIsFinal(lines[..i + 1], lines[i + 1..]);
      PrefixAndRest(lines, i + 1);
    }
  }

  /** The line that makes a clean load fail is one on which the step throws. */
  lemma HotelsLastLineThrows(lines: seq<string>)
    requires |lines| > 0
    requires LoadHotels(lines[..|lines| - 1]).failed.None? && LoadHotels(lines).failed.Some?
    ensures LoadHotels(lines).failed == Some(|lines| - 1)
    ensures LoadHotels(lines).capacities == LoadHotels(lines[..|lines| - 1]).capacities
    ensures HotelStep(LoadHotels(lines[..|lines| - 1]).capacities, lines[|lines| - 1]).None?
  {
    var init := lines[..|lines| - 1];
    assert LoadHotels(lines) == LoadHotelLine(LoadHotels(init), lines[|lines| - 1], |lines| - 1);
  }

  /**
   * When line k throws, what is registered is exactly what the lines before it
   * registered, and those lines loaded without a failure; reading up to line k
   * already gives the whole outcome.
   */
  lemma {:induction false} HotelsAbortKeepsPrefix(lines: seq<string>, k: nat)
    requires LoadHotels(lines).failed == Some(k)
    ensures k < |lines|
    ensures LoadHotels(lines[..k]) == HotelLoad(LoadHotels(lines).capacities, None)
    ensures LoadHotels(lines[..k + 1]) == LoadHotels(lines)
  {
    var init := lines[..|lines| - 1];
    var prev := LoadHotels(init);
    assert LoadHotels(lines) == LoadHotelLine(prev, lines[|lines| - 1], |lines| - 1);
    if prev.failed.Some? {
      HotelsAbortKeepsPrefix(init, k);
      assert init[..k] == lines[..k];
      assert init[..k + 1] == lines[..k + 1];
    } else {
      HotelsLastLineThrows(lines);
      assert lines[..k + 1] == lines;
    }
  }

  /** The line at which the hotel list stops is one on which the step throws. */
  lemma HotelsFailingLineThrows(lines: seq<string>, k: nat)
    requires LoadHotels(lines).failed == Some(k)
    ensures k < |lines| && HotelStep(LoadHotels(lines[..k]).capacities, lines[k]).None?
  {
    HotelsAbortKeepsPrefix(lines, k);
    var upto := lines[..k + 1];
    assert upto[..k] == lines[..k];
    HotelsLastLineThrows(upto);
  }

  /** Comment lines make no difference: the same hotels are registered, and a failure happens either way or not at all. */
  lemma {:induction false} HotelCommentsIgnored(lines: seq<string>)
    ensures LoadHotels(lines).capacities == LoadHotels(NonComments(lines)).capacities
    ensures LoadHotels(lines).failed.Some? <==> LoadHotels(NonComments(lines)).failed.Some?
  {
    if |lines| > 0 {
      var init := lines[..|lines| - 1];
      var last := lines[|lines| - 1];
      HotelCommentsIgnored(init);
      if !IsComment(last) {
        var kept := NonComments(init) + [last];
        assert kept[..|kept| - 1] == NonComments(init);
      }
    }
  }

  /** A name that no line of the list declares is never registered. */
  lemma {:induction false} OnlyDeclaredHotelsRegistered(lines: seq<string>, name: string)
    requires forall j :: 0 <= j < |lines| ==> HotelName(lines[j]) != Some(name)
    ensures name !in LoadHotels(lines).capacities
  {
    if |lines| > 0 {
      var init := lines[..|lines| - 1];
      assert forall j :: 0 <= j < |init| ==> init[j] == lines[j];
      OnlyDeclaredHotelsRegistered(init, name);
    }
  }

  /** Registering never changes a capacity already registered. */
  lemma HotelStepKeeps(capacities: map<string, int>, line: string, name: string)
    requires HotelStep(capacities, line).Some? && name in capacities
    ensures name in HotelStep(capacities, line).value
    ensures HotelStep(capacities, line).value[name] == capacities[name]
  {
  }

  /**
   * First occurrence wins: when the list loads without failure, the first line that
   * declares a name decides its capacity, whatever later lines with that name say.
   */
  lemma {:induction false} FirstDeclarationWins(lines: seq<string>, name: string, j: nat)
    requires LoadHotels(lines).failed.None?
    requires j < |lines| && HotelName(lines[j]) == Some(name)
    requires forall i :: 0 <= i < j ==> HotelName(lines[i]) != Some(name)
    ensures name in LoadHotels(lines).capacities
    ensures Some(LoadHotels(lines).capacities[name]) == HotelCapacity(lines[j])
  {
    var init := lines[..|lines| - 1];
    var last := lines[|lines| - 1];
    var prev := LoadHotels(init);
    assert prev.failed.None?;
    if j == |lines| - 1 {
      assert forall i :: 0 <= i < |init| ==> init[i] == lines[i];
      OnlyDeclaredHotelsRegistered(init, name);
    } else {
      assert forall i :: 0 <= i <= j ==> init[i] == lines[i];
      FirstDeclarationWins(init, name, j);
      HotelStepKeeps(prev.capacities, last, name);
    }
  }

  // -------------------------------------------------------------- booking list

  /** What one booking line is. */
  datatype BookingLine = Comment | Entry(booking: Booking) | Malformed

  /**
   * One line of the booking list, in the order the code reads it: a comment is skipped;
   * otherwise the second and third fields must exist and parse as dates, or the line
   * throws; the first field is the hotel name as written, without trimming.
   */
  function ParseBookingLine(line: string, parseDate: string -> Option<int>): BookingLine
  {
    if IsComment(line) then Comment
    else
      var fields := JavaSplit(line);
      if |fields| < 2 then Malformed
      else
        match parseDate(fields[1])
        case None => Malformed
        case Some(checkin) =>
          if |fields| < 3 then Malformed
          else
            match parseDate(fields[2])
            case None => Malformed
            case Some(checkout) => Entry(Booking(fields[0], checkin, checkout))
  }

  /** The bookings read, in order, and the index of the line that threw, if one did. */
  datatype BookingLoad = BookingLoad(bookings: seq<Booking>, failed: Option<nat>)

  /** One more line of the booking list, unless an earlier line has already thrown. */
  function LoadBookingLine(prev: BookingLoad, parsed: BookingLine, index: nat): BookingLoad
  {
    if prev.failed.Some? then prev
    else
      match parsed
      case Comment => prev
      case Entry(b) => BookingLoad(prev.bookings + [b], None)
      case Malformed => BookingLoad(prev.bookings, Some(index))
  }

  /** The booking list read line by line, stopping at the first line that throws. */
  function ParseBookings(lines: seq<string>, parseDate: string -> Option<int>): (r: BookingLoad)
    ensures |r.bookings| <= |lines|
    ensures r.failed.Some? ==> r.failed.value < |lines|
  {
    if |lines| == 0 then BookingLoad([], None)
    else LoadBookingLine(ParseBookings(lines[..|lines| - 1], parseDate), ParseBookingLine(lines[|lines| - 1], parseDate), |lines| - 1)
  }

  /** Once a booking line has thrown, no later line is read. */
  lemma {:induction false} BookingsAbortIsFinal(lines: seq<string>, more: seq<string>, parseDate: string -> Option<int>)
    requires ParseBookings(lines, parseDate).failed.Some?
    ensures ParseBookings(lines + more, parseDate) == ParseBookings(lines, parseDate)
    decreases |more|
  {
    if |more| == 0 {
      assert lines + more == lines;
    } else {
      BookingsAbortIsFinal(lines, more[..|more| - 1], parseDate);
      assert (lines + more)[..|lines + more| - 1] == lines + more[..|more| - 1];
    }
  }

  /** The line that makes a clean read of the booking list fail is malformed, and adds nothing. */
  lemma BookingsLastLineThrows(lines: seq<string>, parseDate: string -> Option<int>)
    requires |lines| > 0
    requires ParseBookings(lines[..|lines| - 1], parseDate).failed.None? && ParseBookings(lines, parseDate).failed.Some?
    ensures ParseBookings(lines, parseDate).failed == Some(|lines| - 1)
    ensures ParseBookings(lines, parseDate).bookings == ParseBookings(lines[..|lines| - 1], parseDate).bookings
    ensures ParseBookingLine(lines[|lines| - 1], parseDate).Malformed?
  {
    var init := lines[..|lines| - 1];
    assert ParseBookings(lines, parseDate)
        == LoadBookingLine(ParseBookings(init, parseDate), ParseBookingLine(lines[|lines| - 1], parseDate), |lines| - 1);
  }

  /**
   * When booking line k throws, the bookings taken are exactly those of the lines before
   * it, which read without a failure; reading up to line k already gives the whole outcome.
   */
  lemma {:induction false} BookingsAbortKeepsPrefix(lines: seq<string>, parseDate: string -> Option<int>, k: nat)
    requires ParseBookings(lines, parseDate).failed == Some(k)
    ensures k < |lines|
    ensures ParseBookings(lines[..k], parseDate) == BookingLoad(ParseBookings(lines, parseDate).bookings, None)
    ensures ParseBookings(lines[..k + 1], parseDate) == ParseBookings(lines, parseDate)
  {
    var init := lines[..|lines| - 1];
    var prev := ParseBookings(init, parseDate);
    assert ParseBookings(lines, parseDate) == LoadBookingLine(prev, ParseBookingLine(lines[|lines| - 1], parseDate), |lines| - 1);
    if prev.failed.Some? {
      BookingsAbortKeepsPrefix(init, parseDate, k);
      assert init[..k] == lines[..k];
      assert init[..k + 1] == lines[..k + 1];
    } else {
      BookingsLastLineThrows(lines, parseDate);
      assert lines[..k + 1] == lines;
    }
  }

  /** The line at which the booking list stops is malformed. */
  lemma BookingsFailingLineThrows(lines: seq<string>, parseDate: string -> Option<int>, k: nat)
    requires ParseBookings(lines, parseDate).failed == Some(k)
    ensures k < |lines| && ParseBookingLine(lines[k], parseDate).Malformed?
  {
    BookingsAbortKeepsPrefix(lines, parseDate, k);
    var upto := lines[..k + 1];
    PrefixOfPrefix(lines, k);
    BookingsLastLineThrows(upto, parseDate);
  }

  /** A comment line after a clean prefix changes nothing. */
  lemma BookingsSkipComment(lines: seq<string>, i: nat, parseDate: string -> Option<int>)
    requires i < |lines| && ParseBookings(lines[..i], parseDate).failed.None?
    requires ParseBookingLine(lines[i], parseDate) == Comment
    ensures ParseBookings(lines[..i + 1], parseDate) == ParseBookings(lines[..i], parseDate)
  {
    PrefixOfPrefix(lines, i);
    assert ParseBookings(lines[..i + 1], parseDate)
        == LoadBookingLine(ParseBookings(lines[..i], parseDate), ParseBookingLine(lines[i], parseDate), i);
  }

  /** A well-formed line after a clean prefix adds its booking. */
  lemma BookingsTakeEntry(lines: seq<string>, i: nat, parseDate: string -> Option<int>, b: Booking)
    requires i < |lines| && ParseBookings(lines[..i], parseDate).failed.None?
    requires ParseBookingLine(lines[i], parseDate) == Entry(b)
    ensures ParseBookings(lines[..i + 1], parseDate) == BookingLoad(ParseBookings(lines[..i], parseDate).bookings + [b], None)
  {
    PrefixOfPrefix(lines, i);
    assert ParseBookings(lines[..i + 1], parseDate)
        == LoadBookingLine(ParseBookings(lines[..i], parseDate), ParseBookingLine(lines[i], parseDate), i);
  }

  /** A malformed line after a clean prefix is where the whole list stops, keeping the bookings before it. */
  lemma BookingsStopAt(lines: seq<string>, i: nat, parseDate: string -> Option<int>)
    requires i < |lines| && ParseBookings(lines[..i], parseDate).failed.None?
    requires ParseBookingLine(lines[i], parseDate) == Malformed
    ensures ParseBookings(lines, parseDate) == BookingLoad(ParseBookings(lines[..i], parseDate).bookings, Some(i))
  {
    PrefixOfPrefix(lines, i);
    assert ParseBookings(lines[..i + 1], parseDate)
        == LoadBookingLine(ParseBookings(lines[..i], parseDate), ParseBookingLine(lines[i], parseDate), i);
    BookingsAbortIsFinal(lines[..i + 1], lines[i + 1..], parseDate);
    PrefixAndRest(lines, i + 1);
  }

  /** Comment lines make no difference: the same bookings are taken, and a failure happens either way or not at all. */
  lemma {:induction false} BookingCommentsIgnored(lines: seq<string>, parseDate: string -> Option<int>)
    ensures ParseBookings(lines, parseDate).bookings == ParseBookings(NonComments(lines), parseDate).bookings
    ensures ParseBookings(lines, parseDate).failed.Some? <==> ParseBookings(NonComments(lines), parseDate).failed.Some?
  {
    if |lines| > 0 {
      var init := lines[..|lines| - 1];
      var last := lines[|lines| - 1];
      BookingCommentsIgnored(init, parseDate);
      if !IsComment(last) {
        var kept := NonComments(init) + [last];
        assert kept[..|kept| - 1] == NonComments(init);
      }
    }
  }

  /** Every booking taken comes from a well-formed line of the list. */
  lemma {:induction false} BookingsFromLines(lines: seq<string>, parseDate: string -> Option<int>, k: nat)
    requires k < |ParseBookings(lines, parseDate).bookings|
    ensures exists j :: 0 <= j < |lines| && ParseBookingLine(lines[j], parseDate) == Entry(ParseBookings(lines, parseDate).bookings[k])
  {
    var init := lines[..|lines| - 1];
    var prev := ParseBookings(init, parseDate);
    if k < |prev.bookings| {
      BookingsFromLines(init, parseDate, k);
      var j :| 0 <= j < |init| && ParseBookingLine(init[j], parseDate) == Entry(prev.bookings[k]);
      assert lines[j] == init[j];
    } else {
      assert ParseBookingLine(lines[|lines| - 1], parseDate) == Entry(ParseBookings(lines, parseDate).bookings[k]);
    }
  }

  /**
   * A registered hotel is available for `[checkin, checkout)` when on no day of the range
   * the bookings taken for it are at least one and at least its capacity.
   */
  predicate AvailableAfter(capacities: map<string, int>, bookings: seq<Booking>, checkin: int, checkout: int, name: string)
  {
    && name in capacities
    && forall day :: checkin <= day < checkout ==>
         !(Covering(bookings, name, day) > 0 && Covering(bookings, name, day) >= capacities[name])
  }

  /** What the run reports for the two lists: availability after the bookings the booking list yields. */
  predicate ReportedAvailable(hotelLines: seq<string>, bookingLines: seq<string>, parseDate: string -> Option<int>,
                              checkin: int, checkout: int, name: string)
  {
    AvailableAfter(LoadHotels(hotelLines).capacities, ParseBookings(bookingLines, parseDate).bookings, checkin, checkout, name)
  }
}
