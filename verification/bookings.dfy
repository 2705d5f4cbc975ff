/**
 * The bookings table and the two scheduling rules of the appointment app:
 * opening a doctor's day with an `Initial` row (checkupdate) and appending the
 * next 15-minute `Patient` slot after the doctor's latest row (booked).
 * The table is append-only; a row's id is its position counted from 1.
 */
module Bookings {
  import opened Wrappers
  import Clock

  /** The `mode` column: the only three values the application writes or filters on. */
  datatype Mode = Initial | Patient | Completed

  /** One row of the bookings table. */
  datatype Booking = Booking(
    id: int,
    userid: int,
    doctorid: int,
    doctorname: string,
    username: string,
    date: string,       // "%d/%m/%y"
    starttime: string,  // "%H:%M:%S"
    endtime: string,    // "%H:%M:%S"
    timetaken: string,  // minutes, as text
    mode: Mode)

  /** A row of the doctors table; only its id and name reach the bookings table. */
  datatype Doctor = Doctor(id: int, username: string, specialty: string)

  /** A row of the users (patients) table. */
  datatype User = User(id: int, username: string)

  /** Why a `booked` request fails before anything is written. */
  datatype BookingError =
    | UnknownDoctor      // Doctor.query...first() is None; `.username` raises
    | UnknownUser        // User.query...first() is None; `.username` raises
    | NoPreviousBooking  // the doctor has no row at all; `last_booking.endtime` raises
    | MalformedEndTime   // strptime rejects the latest row's endtime

  /** Ids as the store assigns them to a table that is only ever appended to: 1, 2, 3, ... */
  ghost predicate Numbered(rows: seq<Booking>)
  {
    forall i :: 0 <= i < |rows| ==> rows[i].id == i + 1
  }

  /** `checkupdate` sets the opening row to 10:00:00 of the current day. */
  const OpeningTime: Clock.TimeOfDay := 10 * 3600

  /** The label the opening row carries in its patient-name column. */
  const InitialLabel: string := "Initial Booking"

  /**
   * The position of the doctor's latest row, the query
   * `filter_by(doctorid=d).order_by(Booking.id.desc()).first()`.
   */
  function LatestFor(rows: seq<Booking>, doctorId: int): (r: Option<nat>)
    ensures r.None? <==> forall i :: 0 <= i < |rows| ==> rows[i].doctorid != doctorId
    ensures r.Some? ==> r.value < |rows| && rows[r.value].doctorid == doctorId
    ensures r.Some? ==> forall j :: r.value < j < |rows| ==> rows[j].doctorid != doctorId
    ensures r.Some? && Numbered(rows) ==>
      forall j :: 0 <= j < |rows| && rows[j].doctorid == doctorId ==> rows[j].id <= rows[r.value].id
  {
    if |rows| == 0 then None
    else if rows[|rows| - 1].doctorid == doctorId then Some(|rows| - 1)
    else LatestFor(rows[..|rows| - 1], doctorId)
  }

  /** The row `checkupdate` inserts to open `doctor`'s day. */
  function InitialRow(id: int, doctor: Doctor, today: string): (b: Booking)
    ensures b.id == id && b.mode == Initial && b.date == today && b.timetaken == "0"
    ensures b.userid == doctor.id && b.doctorid == doctor.id
    ensures b.doctorname == doctor.username && b.username == "Initial Booking"
    ensures b.starttime == "10:00:00" && b.endtime == "10:00:00"
    ensures Clock.Parse(b.endtime) == Some(OpeningTime)
  {
    OpeningTimeText();
    Clock.ParseFormat(OpeningTime);
    Booking(id, doctor.id, doctor.id, doctor.username, InitialLabel, today,
            Clock.Format(OpeningTime), Clock.Format(OpeningTime), "0", Initial)
  }

  /** `checkupdate` writes a row when the doctor has none, or the latest one is not dated today. */
  predicate NeedsOpening(rows: seq<Booking>, doctorId: int, today: string)
  {
    match LatestFor(rows, doctorId)
    case None => true
    case Some(k) => rows[k].date != today
  }

  /** The table after `checkupdate(doctor)` on the day whose "%d/%m/%y" string is `today`. */
  function OpenDay(rows: seq<Booking>, doctor: Doctor, today: string): (r: seq<Booking>)
    ensures rows <= r && |r| <= |rows| + 1
    ensures Numbered(rows) ==> Numbered(r)
  {
    if NeedsOpening(rows, doctor.id, today) then rows + [InitialRow(|rows| + 1, doctor, today)]
    else rows
  }

  /**
   * The row `booked` appends, or why the request fails: the doctor and the
   * patient are looked up first, then the doctor's latest row is read and
   * its end time parsed; the new slot starts where that row ends.
   */
  function NextSlot(rows: seq<Booking>, doctorId: int, userId: int, today: string,
                    doctors: map<int, Doctor>, users: map<int, User>): (r: Result<Booking, BookingError>)
    ensures r == Failure(UnknownDoctor) <==> doctorId !in doctors
    ensures r == Failure(UnknownUser) <==> doctorId in doctors && userId !in users
    ensures r == Failure(NoPreviousBooking) <==>
      doctorId in doctors && userId in users && LatestFor(rows, doctorId).None?
    ensures r == Failure(MalformedEndTime) <==>
      doctorId in doctors && userId in users && LatestFor(rows, doctorId).Some? &&
      Clock.Parse(rows[LatestFor(rows, doctorId).value].endtime).None?
  {
    if doctorId !in doctors then Failure(UnknownDoctor)
    else if userId !in users then Failure(UnknownUser)
    else match LatestFor(rows, doctorId)
      case None => Failure(NoPreviousBooking)
      case Some(k) =>
        match Clock.Parse(rows[k].endtime)
        case None => Failure(MalformedEndTime)
        case Some(t) =>
          Success(Booking(|rows| + 1, userId, doctorId, doctors[doctorId].username,
                          users[userId].username, today, rows[k].endtime,
                          Clock.Format(Clock.AddSlot(t)), "15", Patient))
  }

  /** The table after a `booked` request: the new row appended, or nothing on failure. */
  function AfterBooking(rows: seq<Booking>, r: Result<Booking, BookingError>): seq<Booking>
  {
    if r.Success? then rows + [r.value] else rows
  }

  // ---------------------------------------------------------------------------
  // The day-open rule

  /** The opening row's time columns read "10:00:00". */
  lemma OpeningTimeText()
    ensures Clock.Format(OpeningTime) == "10:00:00"
  {
    assert Clock.DigitChar(0) == '0' && Clock.DigitChar(1) == '1';
    assert Clock.Pad2(10) == "10" && Clock.Pad2(0) == "00";
  }

  /** A doctor without bookings gets exactly one row: the opening row of today. */
  lemma FirstTouchOpensDay(rows: seq<Booking>, doctor: Doctor, today: string)
    requires LatestFor(rows, doctor.id).None?
    ensures OpenDay(rows, doctor, today) ==
      rows + [Booking(|rows| + 1, doctor.id, doctor.id, doctor.username, "Initial Booking",
                      today, "10:00:00", "10:00:00", "0", Initial)]
  {
  }

  /**
   * The day-open rule decides on the doctor's latest row alone: the table is
   * left as it is exactly when that row exists and is dated today, and
   * otherwise grows by the opening row.
   */
  lemma OpenDayDecides(rows: seq<Booking>, doctor: Doctor, today: string)
    ensures OpenDay(rows, doctor, today) == rows <==>
      (LatestFor(rows, doctor.id).Some? && rows[LatestFor(rows, doctor.id).value].date == today)
    ensures OpenDay(rows, doctor, today) != rows ==>
      OpenDay(rows, doctor, today) == rows + [InitialRow(|rows| + 1, doctor, today)]
  {
    if NeedsOpening(rows, doctor.id, today) {
      assert |OpenDay(rows, doctor, today)| == |rows| + 1;
    }
  }

  /** After the day-open rule the doctor's latest row is dated today. */
  lemma OpenDayAnchors(rows: seq<Booking>, doctor: Doctor, today: string)
    ensures var r := OpenDay(rows, doctor, today);
      LatestFor(r, doctor.id).Some? && r[LatestFor(r, doctor.id).value].date == today
  {
    var r := OpenDay(rows, doctor, today);
    if NeedsOpening(rows, doctor.id, today) {
      assert r[|r| - 1].doctorid == doctor.id;
    }
  }

  /** Opening the same doctor's day twice on one day writes no second row. */
  lemma OpenDayIdempotent(rows: seq<Booking>, doctor: Doctor, today: string)
    ensures OpenDay(OpenDay(rows, doctor, today), doctor, today) == OpenDay(rows, doctor, today)
  {
    OpenDayAnchors(rows, doctor, today);
  }

  /** Appending a row for one doctor does not change which row is latest for any other. */
  lemma {:induction false} LatestForOther(rows: seq<Booking>, b: Booking, doctorId: int)
    requires b.doctorid != doctorId
    ensures LatestFor(rows + [b], doctorId) == LatestFor(rows, doctorId)
  {
    assert (rows + [b])[..|rows|] == rows;
  }

  /** Opening one doctor's day leaves every other doctor's latest row where it was. */
  lemma OpenDayOtherDoctors(rows: seq<Booking>, doctor: Doctor, today: string, other: int)
    requires other != doctor.id
    ensures LatestFor(OpenDay(rows, doctor, today), other) == LatestFor(rows, other)
  {
    if NeedsOpening(rows, doctor.id, today) {
      LatestForOther(rows, InitialRow(|rows| + 1, doctor, today), other);
    }
  }

  /** At most one opening row per doctor and date. */
  ghost predicate OneOpeningPerDay(rows: seq<Booking>)
  {
    forall i, j ::
      (0 <= i < j < |rows| && rows[i].mode == Initial && rows[j].mode == Initial &&
       rows[i].doctorid == rows[j].doctorid) ==> rows[i].date != rows[j].date
  }

  /**
   * The calendar has not gone back for this doctor: once one of the doctor's
   * rows is dated `today`, so is every later row of the doctor.
   */
  ghost predicate DayNotPassed(rows: seq<Booking>, doctorId: int, today: string)
  {
    forall i, j ::
      (0 <= i < j < |rows| && rows[i].doctorid == doctorId && rows[i].date == today &&
       rows[j].doctorid == doctorId) ==> rows[j].date == today
  }

  /**
   * While the calendar only moves forward, the day-open rule never writes a
   * second opening row for the same doctor and date.
   */
  lemma OpenDayKeepsOneOpening(rows: seq<Booking>, doctor: Doctor, today: string)
    requires OneOpeningPerDay(rows) && DayNotPassed(rows, doctor.id, today)
    ensures OneOpeningPerDay(OpenDay(rows, doctor, today))
  {
    if NeedsOpening(rows, doctor.id, today) {
      var r := OpenDay(rows, doctor, today);
      if LatestFor(rows, doctor.id).Some? {
        var k := LatestFor(rows, doctor.id).value;
        forall i | 0 <= i < k && rows[i].doctorid == doctor.id
          ensures rows[i].date != today
        {
          assert rows[k].date != today;
        }
      }
      assert r[|rows|].mode == Initial && r[|rows|].doctorid == doctor.id && r[|rows|].date == today;
    }
  }

  /** A booked slot is a Patient row, so it never adds an opening row. */
  lemma BookingKeepsOneOpening(rows: seq<Booking>, doctorId: int, userId: int, today: string,
                               doctors: map<int, Doctor>, users: map<int, User>)
    requires OneOpeningPerDay(rows)
    ensures OneOpeningPerDay(AfterBooking(rows, NextSlot(rows, doctorId, userId, today, doctors, users)))
  {
    var r := NextSlot(rows, doctorId, userId, today, doctors, users);
    if r.Success? {
      assert AfterBooking(rows, r)[|rows|].mode == Patient;
    }
  }

  // ---------------------------------------------------------------------------
  // The next-slot rule

  /**
   * A successful booking is a `Patient` row for the given patient and doctor,
   * named after both, dated today, lasting "15" minutes and starting where
   * the doctor's latest row ends; it gets the next id.
   */
  lemma NextSlotRow(rows: seq<Booking>, doctorId: int, userId: int, today: string,
                    doctors: map<int, Doctor>, users: map<int, User>)
    requires NextSlot(rows, doctorId, userId, today, doctors, users).Success?
    ensures var b := NextSlot(rows, doctorId, userId, today, doctors, users).value;
      && LatestFor(rows, doctorId).Some?
      && b.starttime == rows[LatestFor(rows, doctorId).value].endtime
      && b.mode == Patient && b.timetaken == "15" && b.date == today
      && b.userid == userId && b.doctorid == doctorId
      && b.doctorname == doctors[doctorId].username && b.username == users[userId].username
      && b.id == |rows| + 1
  {
  }

  /**
   * A successful booking ends 15 minutes after it starts on the clock
   * (modulo a day), and its end time is written zero-padded, so that the
   * next booking can read it back.
   */
  lemma NextSlotTiming(rows: seq<Booking>, doctorId: int, userId: int, today: string,
                       doctors: map<int, Doctor>, users: map<int, User>)
    requires NextSlot(rows, doctorId, userId, today, doctors, users).Success?
    ensures var b := NextSlot(rows, doctorId, userId, today, doctors, users).value;
      && Clock.Parse(b.starttime).Some?
      && Clock.ZeroPadded(b.endtime)
      && Clock.Parse(b.endtime) == Some(Clock.AddSlot(Clock.Parse(b.starttime).value))
  {
    var k := LatestFor(rows, doctorId).value;
    var t := Clock.Parse(rows[k].endtime).value;
    var b := NextSlot(rows, doctorId, userId, today, doctors, users).value;
    assert b.starttime == rows[k].endtime && b.endtime == Clock.Format(Clock.AddSlot(t));
    Clock.ParseFormat(Clock.AddSlot(t));
  }

  /** The booked row becomes the doctor's latest, and ids stay consecutive. */
  lemma NextSlotBecomesLatest(rows: seq<Booking>, doctorId: int, userId: int, today: string,
                              doctors: map<int, Doctor>, users: map<int, User>)
    requires NextSlot(rows, doctorId, userId, today, doctors, users).Success?
    ensures var b := NextSlot(rows, doctorId, userId, today, doctors, users).value;
      && LatestFor(rows + [b], doctorId) == Some(|rows|)
      && (Numbered(rows) ==> Numbered(rows + [b]))
  {
    var b := NextSlot(rows, doctorId, userId, today, doctors, users).value;
    NextSlotRow(rows, doctorId, userId, today, doctors, users);
    assert (rows + [b])[|rows|] == b;
  }

  /**
   * Two bookings in a row for one doctor give back-to-back slots: the second
   * always succeeds when both accounts exist, starts exactly where the first
   * ends, and ends 15 minutes after that.
   */
  lemma BackToBack(rows: seq<Booking>, doctorId: int, user1: int, user2: int, day1: string, day2: string,
                   doctors: map<int, Doctor>, users: map<int, User>)
    requires NextSlot(rows, doctorId, user1, day1, doctors, users).Success?
    requires user2 in users
    ensures var first := NextSlot(rows, doctorId, user1, day1, doctors, users).value;
      var second := NextSlot(rows + [first], doctorId, user2, day2, doctors, users);
      && second.Success?
      && second.value.starttime == first.endtime
      && Clock.Parse(second.value.starttime) == Some(Clock.AddSlot(Clock.Parse(first.starttime).value))
      && Clock.Parse(second.value.endtime) == Some(Clock.AddSlot(Clock.Parse(first.endtime).value))
  {
    NextSlotTiming(rows, doctorId, user1, day1, doctors, users);
    NextSlotBecomesLatest(rows, doctorId, user1, day1, doctors, users);
    var first := NextSlot(rows, doctorId, user1, day1, doctors, users).value;
    var rows' := rows + [first];
    assert LatestFor(rows', doctorId) == Some(|rows|) && rows'[|rows|] == first;
    assert Clock.Parse(first.endtime).Some?;
    assert doctorId in doctors;
    assert NextSlot(rows', doctorId, user2, day2, doctors, users).Success?;
    NextSlotRow(rows', doctorId, user2, day2, doctors, users);
    NextSlotTiming(rows', doctorId, user2, day2, doctors, users);
  }

  /**
   * No day rollover: a slot starting at 23:45:00 or later ends earlier on the
   * clock than it starts, while the row keeps today's date.
   */
  lemma NextSlotWraps(rows: seq<Booking>, doctorId: int, userId: int, today: string,
                      doctors: map<int, Doctor>, users: map<int, User>)
    requires NextSlot(rows, doctorId, userId, today, doctors, users).Success?
    ensures var b := NextSlot(rows, doctorId, userId, today, doctors, users).value;
      var start := Clock.Parse(b.starttime).value;
      && Clock.Parse(b.endtime).Some?
      && b.date == today
      && (Clock.Parse(b.endtime).value < start <==> start >= 23 * 3600 + 45 * 60)
  {
    NextSlotTiming(rows, doctorId, userId, today, doctors, users);
    NextSlotRow(rows, doctorId, userId, today, doctors, users);
  }

  /**
   * The worked example: a doctor with no bookings, opened on 01/06/24 and then
   * booked, holds an Initial row 10:00:00-10:00:00 followed by a Patient row
   * 10:00:00-10:15:00.
   */
  lemma FirstDayScenario(doctor: Doctor, patient: User)
    ensures var day1 := OpenDay([], doctor, "01/06/24");
      var booked := NextSlot(day1, doctor.id, patient.id, "01/06/24",
                             map[doctor.id := doctor], map[patient.id := patient]);
      && day1 == [Booking(1, doctor.id, doctor.id, doctor.username, "Initial Booking",
                            "01/06/24", "10:00:00", "10:00:00", "0", Initial)]
      && booked == Success(Booking(2, patient.id, doctor.id, doctor.username, patient.username,
                                   "01/06/24", "10:00:00", "10:15:00", "15", Patient))
  {
    FirstTouchOpensDay([], doctor, "01/06/24");
    var day1 := OpenDay([], doctor, "01/06/24");
    assert LatestFor(day1, doctor.id) == Some(0);
    OpeningTimeText();
    Clock.ParseFormat(OpeningTime);
    assert Clock.Parse(day1[0].endtime) == Some(OpeningTime);
    TenFifteen();
  }

  /** The slot after the opening row ends at "10:15:00". */
  lemma TenFifteen()
    ensures Clock.Format(Clock.AddSlot(OpeningTime)) == "10:15:00"
  {
    assert Clock.AddSlot(OpeningTime) == 36900;
    assert Clock.DigitChar(0) == '0' && Clock.DigitChar(1) == '1' && Clock.DigitChar(5) == '5';
    assert Clock.Pad2(10) == "10" && Clock.Pad2(15) == "15" && Clock.Pad2(0) == "00";
  }
}
