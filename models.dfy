/** The entities of the reservation store: dining tables, bookings, the
    date and time-slot values they carry, and the database context that
    holds both sets and assigns booking identities. */
module Models {

  /** A .NET `DateTime` is a count of 100-nanosecond ticks since
      0001-01-01 00:00; a `TimeSpan` is a signed count of ticks. */
  const TicksPerDay: nat := 864_000_000_000

  type DateTime = nat
  type TimeSpan = int

  /** `DateTime.Date`: midnight at the start of the same day. */
  function Date(d: DateTime): (r: DateTime)
    ensures r % TicksPerDay == 0
    ensures r <= d < r + TicksPerDay
  {
    d - d % TicksPerDay
  }

  predicate IsLeapYear(year: int) {
    year % 4 == 0 && (year % 100 != 0 || year % 400 == 0)
  }

  function DaysInMonth(year: int, month: int): (r: nat)
    requires 1 <= month <= 12
    ensures 28 <= r <= 31
  {
    if month == 2 then (if IsLeapYear(year) then 29 else 28)
    else if month == 4 || month == 6 || month == 9 || month == 11 then 30
    else 31
  }

  /** Days of `year` that lie before the first of `month`: .NET's
      cumulative month table, one day more from March on in a leap year. */
  function DaysBeforeMonth(year: int, month: int): (r: nat)
    requires 1 <= month <= 12
    ensures r == [0, 31, 59, 90, 120, 151, 181, 212, 243, 273, 304, 334][month - 1]
                 + (if month > 2 && IsLeapYear(year) then 1 else 0)
  {
    if month == 1 then 0 else DaysBeforeMonth(year, month - 1) + DaysInMonth(year, month - 1)
  }

  /** `new DateTime(year, month, day)`: midnight of that day of the
      proleptic Gregorian calendar, counted the way .NET counts it. */
  function DateTimeOf(year: int, month: int, day: int): (r: DateTime)
    requires 1 <= year <= 9999 && 1 <= month <= 12 && 1 <= day <= DaysInMonth(year, month)
    ensures Date(r) == r
  {
    var y := year - 1;
    (y * 365 + y / 4 - y / 100 + y / 400 + DaysBeforeMonth(year, month) + day - 1) * TicksPerDay
  }

  /** A dining table; `availability` false means it has been reserved. */
  datatype DinningTable = DinningTable(dinningTableId: int, seatingCapacity: int, availability: bool)

  /** A reservation of one table for one day and one time slot. */
  datatype Booking = Booking(bookingId: int, dinningTableId: int, reservationDate: DateTime, timeSlot: TimeSpan)

  /** The contents of the database: its two sets, in storage order, and the
      next value of the identity column of `Bookings`. */
  datatype DbState = DbState(dinningTables: seq<DinningTable>, bookings: seq<Booking>, nextBookingId: int)

  predicate HasTable(tables: seq<DinningTable>, tableId: int) {
    exists i :: 0 <= i < |tables| && tables[i].dinningTableId == tableId
  }

  predicate DistinctTableIds(tables: seq<DinningTable>) {
    forall i, j :: 0 <= i < j < |tables| ==> tables[i].dinningTableId != tables[j].dinningTableId
  }

  predicate DistinctBookingIds(bookings: seq<Booking>) {
    forall i, j :: 0 <= i < j < |bookings| ==> bookings[i].bookingId != bookings[j].bookingId
  }

  /** What the relational store guarantees: primary keys are unique, the
      identity column is ahead of every booking id it has handed out, and
      every booking's foreign key names a stored table. */
  predicate ValidState(s: DbState) {
    && DistinctTableIds(s.dinningTables)
    && DistinctBookingIds(s.bookings)
    && 1 <= s.nextBookingId
    && (forall i :: 0 <= i < |s.bookings| ==> s.bookings[i].bookingId < s.nextBookingId)
    && (forall i :: 0 <= i < |s.bookings| ==> HasTable(s.dinningTables, s.bookings[i].dinningTableId))
  }

  /** The database context shared by the controllers. */
  class ApplicationDbContext {
    var dinningTables: seq<DinningTable>
    var bookings: seq<Booking>
    var nextBookingId: int

    function State(): DbState
      reads this
    {
      DbState(dinningTables, bookings, nextBookingId)
    }

    predicate Valid()
      reads this
    {
      ValidState(State())
    }

    /** A database seeded with `tables` and no bookings. */
    constructor (tables: seq<DinningTable>)
      requires DistinctTableIds(tables)
      ensures Valid()
      ensures State() == DbState(tables, [], 1)
    {
      dinningTables := tables;
      bookings := [];
      nextBookingId := 1;
    }
  }
}
