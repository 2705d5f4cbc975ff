/**
 * The bookings store as the request handlers change it: an append-only table
 * that `checkupdate` and `booked` read the doctor's latest row from and then
 * add one row to. Each call runs to completion before the next starts.
 */
module Scheduler {
  import opened Wrappers
  import Clock
  import opened Bookings

  class BookingTable {
    /** The table's rows in insertion (id) order. */
    var rows: seq<Booking>

    ghost predicate Valid()
      reads this
    {
      Numbered(rows)
    }

    /** An empty store. */
    constructor ()
      ensures Valid() && rows == []
    {
      rows := [];
    }

    /**
     * `checkupdate(doctor)` on the day whose "%d/%m/%y" string is `today`:
     * opens the doctor's day with an Initial row unless the doctor's latest
     * row is already dated today.
     */
    method CheckUpdate(doctor: Doctor, today: string)
      requires Valid()
      modifies this
      ensures Valid()
      ensures rows == OpenDay(old(rows), doctor, today)
      ensures old(rows) <= rows && |rows| <= |old(rows)| + 1
    {
      var opening := Clock.Format(OpeningTime);
      var latest := LatestFor(rows, doctor.id);
      if latest.Some? {
        var booking := rows[latest.value];
        if today != booking.date {
          var initial := Booking(|rows| + 1, doctor.id, doctor.id, doctor.username, InitialLabel,
                                 today, opening, opening, "0", Initial);
          rows := rows + [initial];
        }
      } else {
        var initial := Booking(|rows| + 1, doctor.id, doctor.id, doctor.username, InitialLabel,
                               today, opening, opening, "0", Initial);
        rows := rows + [initial];
      }
    }

    /**
     * `booked(doctorid, userid)` on day `today`: appends the next 15-minute
     * Patient slot after the doctor's latest row and returns it, or returns
     * the reason the request fails, writing nothing.
     */
    method Booked(doctorId: int, userId: int, today: string,
                  doctors: map<int, Doctor>, users: map<int, User>)
      returns (r: Result<Booking, BookingError>)
      requires Valid()
      modifies this
      ensures Valid()
      ensures r == NextSlot(old(rows), doctorId, userId, today, doctors, users)
      ensures rows == AfterBooking(old(rows), r)
      ensures r.Success? ==> r.value.mode == Patient && r.value.starttime == old(rows)[LatestFor(old(rows), doctorId).value].endtime
    {
      var lastBooking := LatestFor(rows, doctorId);
      if doctorId !in doctors {
        return Failure(UnknownDoctor);
      }
      var doctorName := doctors[doctorId].username;
      if userId !in users {
        return Failure(UnknownUser);
      }
      var userName := users[userId].username;
      if lastBooking.None? {
        return Failure(NoPreviousBooking);
      }
      var startTime := rows[lastBooking.value].endtime;
      var parsed := Clock.Parse(startTime);
      if parsed.None? {
        return Failure(MalformedEndTime);
      }
      var endTime := Clock.Format(Clock.AddSlot(parsed.value));
      var booked := Booking(|rows| + 1, userId, doctorId, doctorName, userName, today,
                            startTime, endTime, "15", Patient);
      rows := rows + [booked];
      r := Success(booked);
    }
  }
}
