/**
 * The two appointment listings a patient sees: the rows booked for them that
 * are still pending (`mode == "Patient"`) and those already completed
 * (`mode == "Completed"`), each newest first.
 */
module Listings {
  import opened Bookings

  /** Strictly descending ids: newest first, and no row twice. */
  ghost predicate NewestFirst(list: seq<Booking>)
  {
    forall i, j :: 0 <= i < j < |list| ==> list[i].id > list[j].id
  }

  /**
   * `filter_by(userid=userId, mode=mode).order_by(Booking.id.desc()).all()`:
   * the user's rows in the given mode, newest first.
   */
  function Appointments(rows: seq<Booking>, userId: int, mode: Mode): (r: seq<Booking>)
    ensures forall b :: b in r <==> b in rows && b.userid == userId && b.mode == mode
    ensures Numbered(rows) ==> (forall b :: b in r ==> 1 <= b.id <= |rows|) && NewestFirst(r)
  {
    if rows == [] then []
    else
      var last := rows[|rows| - 1];
      var older := Appointments(rows[..|rows| - 1], userId, mode);
      assert rows == rows[..|rows| - 1] + [last];
      if last.userid == userId && last.mode == mode then [last] + older else older
  }

  /** The pending appointments page of a patient. */
  function MyAppointments(rows: seq<Booking>, userId: int): (r: seq<Booking>)
    ensures forall b :: b in r <==> b in rows && b.userid == userId && b.mode == Patient
    ensures forall b :: b in r ==> b.mode != Initial && b.mode != Completed
    ensures Numbered(rows) ==> NewestFirst(r)
  {
    Appointments(rows, userId, Patient)
  }

  /** The completed appointments page of a patient. */
  function CompletedAppointments(rows: seq<Booking>, userId: int): (r: seq<Booking>)
    ensures forall b :: b in r <==> b in rows && b.userid == userId && b.mode == Completed
    ensures forall b :: b in r ==> b.mode != Initial && b.mode != Patient
    ensures Numbered(rows) ==> NewestFirst(r)
  {
    Appointments(rows, userId, Completed)
  }

  /**
   * A newest-first list is determined by the rows it holds: two such lists
   * with the same members are equal, so the listings above are the only
   * answers their queries can give.
   */
  lemma {:induction false} NewestFirstUnique(a: seq<Booking>, b: seq<Booking>)
    requires NewestFirst(a) && NewestFirst(b)
    requires forall x :: x in a <==> x in b
    ensures a == b
  {
    assert b != [] ==> b[0] in a;
    if a != [] {
      assert a[0] in b;
      assert b != [];
      assert b[0] in a;
      var i :| 0 <= i < |a| && a[i] == b[0];
      var j :| 0 <= j < |b| && b[j] == a[0];
      assert a[i].id <= a[0].id && b[j].id <= b[0].id;
      assert a[0] == b[0];
      assert a == [a[0]] + a[1..] && b == [b[0]] + b[1..];
      forall x
        ensures x in a[1..] <==> x in b[1..]
      {
        if x in a[1..] {
          var k :| 1 <= k < |a| && a[k] == x;
          assert x != b[0] by { assert a[0].id > a[k].id; }
          assert x in b;
        }
        if x in b[1..] {
          var k :| 1 <= k < |b| && b[k] == x;
          assert x != a[0] by { assert b[0].id > b[k].id; }
          assert x in a;
        }
      }
      NewestFirstUnique(a[1..], b[1..]);
    }
  }

  /** Opening a doctor's day adds only an Initial row, so no patient's listing changes. */
  lemma ListingsIgnoreOpening(rows: seq<Booking>, doctor: Doctor, today: string, userId: int)
    ensures MyAppointments(OpenDay(rows, doctor, today), userId) == MyAppointments(rows, userId)
    ensures CompletedAppointments(OpenDay(rows, doctor, today), userId) == CompletedAppointments(rows, userId)
  {
    var r := OpenDay(rows, doctor, today);
    if r != rows {
      assert r[..|r| - 1] == rows;
    }
  }

  /**
   * A successful booking puts the new row at the head of the patient's
   * pending list and leaves every other listing as it was.
   */
  lemma BookingHeadsListing(rows: seq<Booking>, doctorId: int, userId: int, today: string,
                            doctors: map<int, Doctor>, users: map<int, User>, viewer: int)
    requires NextSlot(rows, doctorId, userId, today, doctors, users).Success?
    ensures var b := NextSlot(rows, doctorId, userId, today, doctors, users).value;
      var after := AfterBooking(rows, NextSlot(rows, doctorId, userId, today, doctors, users));
      && MyAppointments(after, viewer) ==
           (if viewer == userId then [b] + MyAppointments(rows, viewer) else MyAppointments(rows, viewer))
      && CompletedAppointments(after, viewer) == CompletedAppointments(rows, viewer)
  {
    var b := NextSlot(rows, doctorId, userId, today, doctors, users).value;
    var after := rows + [b];
    assert after[..|after| - 1] == rows;
  }
}
