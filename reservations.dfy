/**
 * What the booking aggregation and the availability scan compute, as values:
 * per-day reservation counts, stays over half-open day ranges, and the ledger of
 * all hotels' counts. Dates are day numbers; `checkin <= day < checkout` is a stay.
 */
module Reservations {

  /** Reserved rooms per day; a day without an entry has no reservation recorded. */
  type DayCounts = map<int, int>

  /** Every hotel's day counts, keyed by hotel name. */
  type Ledger = map<string, DayCounts>

  /** One booking line after parsing: the hotel name exactly as written, and the stay. */
  datatype Booking = Booking(hotel: string, checkin: int, checkout: int)

  /** The count recorded for `day`, zero when the day has no entry. */
  function Count(counts: DayCounts, day: int): int
  {
    if day in counts then counts[day] else 0
  }

  predicate InStay(day: int, checkin: int, checkout: int)
  {
    checkin <= day < checkout
  }

  /**
   * One stay added to a hotel's counts, day by day from `checkin` up to but not
   * including `checkout`; a day without an entry gets the entry 1.
   */
  function AddStay(counts: DayCounts, checkin: int, checkout: int): DayCounts
    decreases checkout - checkin
  {
    if checkout <= checkin then counts
    else
      var before := AddStay(counts, checkin, checkout - 1);
      before[checkout - 1 := Count(before, checkout - 1) + 1]
  }

  /**
   * A stay adds exactly one on every day of `[checkin, checkout)` and nothing
   * elsewhere; the days that get an entry are the old ones and the stay's.
   */
  lemma {:induction false} AddStayAt(counts: DayCounts, checkin: int, checkout: int, day: int)
    ensures Count(AddStay(counts, checkin, checkout), day)
         == Count(counts, day) + (if InStay(day, checkin, checkout) then 1 else 0)
    ensures day in AddStay(counts, checkin, checkout) <==> day in counts || InStay(day, checkin, checkout)
    decreases checkout - checkin
  {
    if checkin < checkout {
      AddStayAt(counts, checkin, checkout - 1, day);
    }
  }

  /** A booking for a registered hotel adds its stay to that hotel; any other booking changes nothing. */
  function ApplyBooking(ledger: Ledger, b: Booking): Ledger
  {
    if b.hotel in ledger then ledger[b.hotel := AddStay(ledger[b.hotel], b.checkin, b.checkout)]
    else ledger
  }

  /** The bookings applied one after the other, first to last. */
  function ApplyAll(ledger: Ledger, bookings: seq<Booking>): Ledger
  {
    if |bookings| == 0 then ledger
    else ApplyBooking(ApplyAll(ledger, bookings[..|bookings| - 1]), bookings[|bookings| - 1])
  }

  /** Does booking `b` occupy a room of `hotel` on `day`? */
  predicate Covers(b: Booking, hotel: string, day: int)
  {
    b.hotel == hotel && InStay(day, b.checkin, b.checkout)
  }

  /** How many of the bookings occupy a room of `hotel` on `day`. */
  function Covering(bookings: seq<Booking>, hotel: string, day: int): nat
  {
    if |bookings| == 0 then 0
    else
      Covering(bookings[..|bookings| - 1], hotel, day)
      + (if Covers(bookings[|bookings| - 1], hotel, day) then 1 else 0)
  }

  /** One more booking at the end is applied after all the others. */
  lemma ApplyAllSnoc(ledger: Ledger, bookings: seq<Booking>, b: Booking)
    ensures ApplyAll(ledger, bookings + [b]) == ApplyBooking(ApplyAll(ledger, bookings), b)
  {
    assert (bookings + [b])[..|bookings|] == bookings;
  }

  /**
   * One booking: the hotels stay the same; the booked hotel gains exactly one on each
   * day of its stay and nowhere else (an empty or inverted stay changes nothing);
   * every other hotel is untouched, and a booking naming no registered hotel changes nothing.
   */
  lemma ApplyBookingAt(ledger: Ledger, b: Booking, hotel: string, day: int)
    ensures ApplyBooking(ledger, b).Keys == ledger.Keys
    ensures hotel in ledger ==>
      Count(ApplyBooking(ledger, b)[hotel], day) == Count(ledger[hotel], day) + (if Covers(b, hotel, day) then 1 else 0)
    ensures hotel in ledger && Covers(b, hotel, day) ==> day in ApplyBooking(ledger, b)[hotel]
    ensures hotel in ledger && hotel != b.hotel ==> ApplyBooking(ledger, b)[hotel] == ledger[hotel]
    ensures b.hotel !in ledger || b.checkout <= b.checkin ==> ApplyBooking(ledger, b) == ledger
  {
    if b.hotel in ledger {
      AddStayAt(ledger[b.hotel], b.checkin, b.checkout, day);
    }
  }

  /**
   * After a sequence of bookings, a registered hotel's count on a day is its old count
   * plus the number of bookings that occupy it that day, and the day has an entry
   * exactly when it had one or some booking occupies it.
   */
  lemma {:induction false} ApplyAllAt(ledger: Ledger, bookings: seq<Booking>, hotel: string, day: int)
    ensures ApplyAll(ledger, bookings).Keys == ledger.Keys
    ensures hotel in ledger ==>
      Count(ApplyAll(ledger, bookings)[hotel], day) == Count(ledger[hotel], day) + Covering(bookings, hotel, day)
    ensures hotel in ledger ==>
      (day in ApplyAll(ledger, bookings)[hotel] <==> day in ledger[hotel] || Covering(bookings, hotel, day) > 0)
  {
    if |bookings| > 0 {
      var init := bookings[..|bookings| - 1];
      var last := bookings[|bookings| - 1];
      ApplyAllAt(ledger, init, hotel, day);
      var before := ApplyAll(ledger, init);
      if last.hotel in before {
        AddStayAt(before[last.hotel], last.checkin, last.checkout, day);
      }
    }
  }

  /**
   * Starting from hotels without reservations, every recorded count is the number of
   * bookings occupying that day, hence at least one.
   */
  lemma RecordedCountsPositive(ledger: Ledger, bookings: seq<Booking>, hotel: string, day: int)
    requires hotel in ledger && ledger[hotel] == map[]
    ensures hotel in ApplyAll(ledger, bookings)
    ensures day in ApplyAll(ledger, bookings)[hotel] ==>
      ApplyAll(ledger, bookings)[hotel][day] == Covering(bookings, hotel, day) >= 1
  {
    ApplyAllAt(ledger, bookings, hotel, day);
  }

  /** Reading the same bookings twice counts every stay twice: nothing is deduplicated. */
  lemma BookingsTwice(ledger: Ledger, bookings: seq<Booking>, hotel: string, day: int)
    requires hotel in ledger
    ensures hotel in ApplyAll(ApplyAll(ledger, bookings), bookings)
    ensures Count(ApplyAll(ApplyAll(ledger, bookings), bookings)[hotel], day)
         == Count(ledger[hotel], day) + 2 * Covering(bookings, hotel, day)
  {
    ApplyAllAt(ledger, bookings, hotel, day);
    ApplyAllAt(ApplyAll(ledger, bookings), bookings, hotel, day);
  }

  lemma {:induction false} CoveringAppend(a: seq<Booking>, b: seq<Booking>, hotel: string, day: int)
    ensures Covering(a + b, hotel, day) == Covering(a, hotel, day) + Covering(b, hotel, day)
    decreases |b|
  {
    if |b| == 0 {
      assert a + b == a;
    } else {
      CoveringAppend(a, b[..|b| - 1], hotel, day);
      assert (a + b)[..|a + b| - 1] == a + b[..|b| - 1];
    }
  }

  /** Taking one booking out of the sequence lowers the count by what that booking contributes. */
  lemma CoveringRemove(b: seq<Booking>, j: int, hotel: string, day: int)
    requires 0 <= j < |b|
    ensures Covering(b, hotel, day)
         == Covering(b[..j] + b[j + 1..], hotel, day) + (if Covers(b[j], hotel, day) then 1 else 0)
  {
    assert b == b[..j] + [b[j]] + b[j + 1..];
    CoveringAppend(b[..j], [b[j]], hotel, day);
    CoveringAppend(b[..j] + [b[j]], b[j + 1..], hotel, day);
    CoveringAppend(b[..j], b[j + 1..], hotel, day);
    assert [b[j]][..0] == [];
  }

  /** The number of bookings occupying a day depends only on which bookings there are, not on their order. */
  lemma {:induction false} CoveringPermutation(a: seq<Booking>, b: seq<Booking>, hotel: string, day: int)
    requires multiset(a) == multiset(b)
    ensures Covering(a, hotel, day) == Covering(b, hotel, day)
    decreases |a|
  {
    if |a| == 0 {
      assert |b| == |multiset(b)| == 0;
    } else {
      var last := a[|a| - 1];
      var init := a[..|a| - 1];
      assert a == init + [last];
      assert last in multiset(b);
      var j :| 0 <= j < |b| && b[j] == last;
      var rest := b[..j] + b[j + 1..];
      assert b == b[..j] + [last] + b[j + 1..];
      assert multiset(init) == multiset(rest) by {
        assert multiset(b) == multiset(b[..j]) + multiset{last} + multiset(b[j + 1..]);
        assert multiset(rest) == multiset(b[..j]) + multiset(b[j + 1..]);
        assert multiset(a) == multiset(init) + multiset{last};
        assert multiset(init) == multiset(a) - multiset{last};
        assert multiset(rest) == multiset(b) - multiset{last};
      }
      CoveringPermutation(init, rest, hotel, day);
      CoveringRemove(b, j, hotel, day);
    }
  }

  /** The aggregated ledger does not depend on the order in which the bookings come. */
  lemma BookingOrderIrrelevant(ledger: Ledger, a: seq<Booking>, b: seq<Booking>)
    requires multiset(a) == multiset(b)
    ensures ApplyAll(ledger, a) == ApplyAll(ledger, b)
  {
    var la, lb := ApplyAll(ledger, a), ApplyAll(ledger, b);
    ApplyAllAt(ledger, a, "", 0);
    ApplyAllAt(ledger, b, "", 0);
    forall hotel | hotel in ledger ensures la[hotel] == lb[hotel] {
      forall day ensures (day in la[hotel] <==> day in lb[hotel]) && (day in la[hotel] ==> la[hotel][day] == lb[hotel][day]) {
        ApplyAllAt(ledger, a, hotel, day);
        ApplyAllAt(ledger, b, hotel, day);
        CoveringPermutation(a, b, hotel, day);
      }
      assert la[hotel].Keys == lb[hotel].Keys;
    }
  }

  /** The bookings that name a hotel in `names`, in their order. */
  function KnownBookings(bookings: seq<Booking>, names: set<string>): (known: seq<Booking>)
    ensures forall k :: 0 <= k < |known| ==> known[k].hotel in names
  {
    if |bookings| == 0 then []
    else
      var init := KnownBookings(bookings[..|bookings| - 1], names);
      if bookings[|bookings| - 1].hotel in names then init + [bookings[|bookings| - 1]] else init
  }

  /** Bookings that name no registered hotel have no effect at all. */
  lemma {:induction false} UnknownHotelsIgnored(ledger: Ledger, bookings: seq<Booking>)
    ensures ApplyAll(ledger, bookings) == ApplyAll(ledger, KnownBookings(bookings, ledger.Keys))
  {
    if |bookings| > 0 {
      var init := bookings[..|bookings| - 1];
      var last := bookings[|bookings| - 1];
      UnknownHotelsIgnored(ledger, init);
      ApplyAllAt(ledger, init, "", 0);
      var known := KnownBookings(init, ledger.Keys);
      if last.hotel in ledger {
        assert (known + [last])[..|known + [last]| - 1] == known;
      }
    }
  }

  /**
   * The scan's test for one day, as the code makes it: the day is full when it has an
   * entry and that entry reaches the hotel's room count.
   */
  predicate FullOn(counts: DayCounts, totalRooms: int, day: int)
  {
    day in counts && counts[day] >= totalRooms
  }

  /** No day of `[checkin, checkout)` is full: the hotel is reported available. */
  predicate FreeThroughout(counts: DayCounts, totalRooms: int, checkin: int, checkout: int)
  {
    forall day :: checkin <= day < checkout ==> !FullOn(counts, totalRooms, day)
  }

  /**
   * For a hotel with at least one room, the code's rule agrees with the design's:
   * available exactly when every day's count, zero if absent, is below the room count.
   * An empty range leaves every hotel available.
   */
  lemma FreeMeansBelowCapacity(counts: DayCounts, totalRooms: int, checkin: int, checkout: int)
    requires totalRooms >= 1
    ensures FreeThroughout(counts, totalRooms, checkin, checkout)
        <==> forall day :: checkin <= day < checkout ==> Count(counts, day) < totalRooms
    ensures checkout <= checkin ==> FreeThroughout(counts, totalRooms, checkin, checkout)
  {
    if FreeThroughout(counts, totalRooms, checkin, checkout) {
      forall day | checkin <= day < checkout ensures Count(counts, day) < totalRooms {
        assert !FullOn(counts, totalRooms, day);
      }
    }
    if forall day :: checkin <= day < checkout ==> Count(counts, day) < totalRooms {
      forall day | checkin <= day < checkout ensures !FullOn(counts, totalRooms, day) {
        assert Count(counts, day) < totalRooms;
      }
    }
  }

  /**
   * Where the two rules part: a hotel without rooms and without reservations is still
   * reported available by the code's rule, though no day's count is below its room count.
   */
  lemma NoRoomsStillReportedFree(totalRooms: int, checkin: int, checkout: int)
    requires totalRooms <= 0 && checkin < checkout
    ensures FreeThroughout(map[], totalRooms, checkin, checkout)
    ensures !(Count(map[], checkin) < totalRooms)
  {
  }

  /**
   * End to end, for a hotel that starts without reservations: it is reported available
   * exactly when no day of the range is occupied by at least one booking and by at
   * least as many bookings as it has rooms.
   */
  lemma FreeAfterBookings(ledger: Ledger, bookings: seq<Booking>, hotel: string, totalRooms: int, checkin: int, checkout: int)
    requires hotel in ledger && ledger[hotel] == map[]
    ensures hotel in ApplyAll(ledger, bookings)
    ensures FreeThroughout(ApplyAll(ledger, bookings)[hotel], totalRooms, checkin, checkout)
        <==> forall day :: checkin <= day < checkout ==>
               !(Covering(bookings, hotel, day) > 0 && Covering(bookings, hotel, day) >= totalRooms)
  {
    ApplyAllAt(ledger, bookings, hotel, checkin);
    var counts := ApplyAll(ledger, bookings)[hotel];
    if FreeThroughout(counts, totalRooms, checkin, checkout) {
      forall day | checkin <= day < checkout
        ensures !(Covering(bookings, hotel, day) > 0 && Covering(bookings, hotel, day) >= totalRooms)
      {
        ApplyAllAt(ledger, bookings, hotel, day);
        assert !FullOn(counts, totalRooms, day);
      }
    } else {
      var day :| checkin <= day < checkout && FullOn(counts, totalRooms, day);
      ApplyAllAt(ledger, bookings, hotel, day);
      assert Covering(bookings, hotel, day) > 0 && Covering(bookings, hotel, day) >= totalRooms;
    }
  }
}
