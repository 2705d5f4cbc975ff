# Appointment scheduler model

A Dafny model of the scheduling core of a small doctor-appointment web
application (`app.py`). Patients book the next free 15-minute slot with a
doctor. Each doctor's day is opened by an automatic `Initial` row at
10:00:00. Patients list their pending (`Patient`) and `Completed`
appointments, newest first. Everything else in the application is routing,
form validation, password hashing and template rendering.

Files:

- `wrappers.dfy` (`Wrappers`): `Option` and `Result`.
- `clock.dfy` (`Clock`): times of day as seconds since midnight.
  - `Format` is `strftime("%H:%M:%S")`.
  - `Parse` is `datetime.strptime(_, "%H:%M:%S")` with its field patterns. Hours are one or two digits up to 23. Minutes and seconds are one or two digits up to 59. Anything else is rejected (None).
  - `AddSlot` adds `timedelta(minutes=15)` and keeps only the time of day.
- `bookings.dfy` (`Bookings`): the `Booking` row and the doctor and user records.
  - `LatestFor` is the "doctor's highest-id row" query.
  - `OpenDay` is the table after `checkupdate`.
  - `NextSlot` is the row `booked` appends, or the reason it fails.
  - The lemmas about both rules live here too.
- `listings.dfy` (`Listings`): the `myappointments` and `completedappointments` queries.
- `scheduler.dfy` (`Scheduler`): `BookingTable`, a class holding the append-only bookings table.
  - `CheckUpdate` and `Booked` change the table in place.
  - Each is proved equal to its specification function in `Bookings`.

"Today" is an explicit parameter holding the `"%d/%m/%y"` string of the
current date. The doctors and users tables appear only as id-to-record maps.
A row's id is its position in the table counted from 1. The table is only
ever appended to, so ids are consecutive (`Numbered`).

How the code behaves at the points that matter:

- The opening row's patient id is the doctor's own id, and its patient name is `"Initial Booking"` (app.py:170, 174).
- `booked` does not check that the doctor's day was opened. It chains off the doctor's latest row, whatever that row's date (app.py:138, 148).
- If the doctor has no row at all, `booked` fails at `last_booking.endtime` (app.py:148).
- `booked` renders the dashboard page (app.py:159). The model returns the new row instead.

## Model

| member | source | states |
|---|---|---|
| `Clock.Format` | app.py:150 | The text is zero-padded `HH:MM:SS` with every field in range, and its fields add up to the given time of day |
| `Clock.ReadField` | app.py:149 | Two leading digits are read as one field, accepted exactly when their value is at most the maximum. A single leading digit is accepted exactly when it is at most the maximum. No leading digit is rejected. The rest of the input follows the field |
| `Clock.Parse` | app.py:149 | Accepts only strings of 5 to 8 characters. An 8-character string is accepted exactly when it is zero-padded `HH:MM:SS` in range, and it then yields the time its fields spell |
| `Clock.AddSlot` | app.py:149-150 | The result is 15 minutes after the input modulo 24 hours. It is earlier than the input exactly when the input is 23:45:00 or later |
| `Clock.ParseFormat` | app.py:149-150 | Parsing a formatted time of day gives back that time |
| `Clock.FormatParse` | app.py:149-150 | A zero-padded `HH:MM:SS` string parses, and formatting the result writes the same string |
| `Clock.ParsedFormatsBack` | app.py:149-150 | For any string strptime accepts, formatting the parsed time gives that string back exactly when the string has 8 characters |
| `Clock.MidnightWrap` | app.py:149-150 | "23:45:00" parses to 85500 seconds, and the slot after it ends at "00:00:00" |
| `Bookings.LatestFor` | app.py:138 | Gives the position of the doctor's last row, with no later row of that doctor. Gives None exactly when the doctor has no row. With consecutive ids, that row has the doctor's highest id |
| `Bookings.InitialRow` | app.py:170-180 | The opening row is `Initial`, dated today, with duration "0" and patient name "Initial Booking". Its patient id and doctor id are the doctor's id, its doctor name is the doctor's name, it runs 10:00:00 to 10:00:00, and its end time parses to 10:00 |
| `Bookings.OpenDay` | app.py:164-199 | The day-open rule only appends: the old table is a prefix and the table grows by at most one row. Ids stay consecutive |
| `Bookings.OpeningTimeText` | app.py:166 | The opening row's start and end times are written "10:00:00" |
| `Bookings.FirstTouchOpensDay` | app.py:183-199 | A doctor without rows gets exactly one new row: `Initial`, dated today, 10:00:00 to 10:00:00, duration "0", patient name "Initial Booking", patient id and doctor id both the doctor's id |
| `Bookings.OpenDayDecides` | app.py:164-182 | The table is unchanged exactly when the doctor's latest row exists and is dated today. Otherwise the opening row is appended |
| `Bookings.OpenDayAnchors` | app.py:168-182 | After the rule runs, the doctor's latest row is dated today |
| `Bookings.OpenDayIdempotent` | app.py:164-182 | Running the rule twice for the same doctor and day gives the same table as running it once |
| `Bookings.LatestForOther` | app.py:138 | Appending another doctor's row does not change which row is a doctor's latest |
| `Bookings.OpenDayOtherDoctors` | app.py:164-199 | Opening one doctor's day leaves every other doctor's latest row unchanged |
| `Bookings.OpenDayKeepsOneOpening` | app.py:164-182 | While the calendar does not go back, the rule never adds a second `Initial` row for the same doctor and date |
| `Bookings.BookingKeepsOneOpening` | app.py:151-154 | A booking never adds an `Initial` row |
| `Bookings.NextSlot` | app.py:138-153 | A booking fails with the first error met, in the code's order: unknown doctor, then unknown patient, then no row for the doctor, then an end time that does not parse. Each error is returned exactly when its condition holds and the earlier ones do not |
| `Bookings.NextSlotRow` | app.py:138-153 | A successful booking is a `Patient` row dated today, with duration "15", the given patient and doctor ids and their names, and the next id. It starts at the end time of the doctor's latest row |
| `Bookings.NextSlotTiming` | app.py:148-150 | The booked slot's end time is zero-padded and parses to its start time plus 15 minutes, modulo a day |
| `Bookings.NextSlotBecomesLatest` | app.py:153-154 | The booked row becomes the doctor's latest row, and ids stay consecutive |
| `Bookings.BackToBack` | app.py:138-150 | Two bookings in a row for one doctor: the second succeeds when its patient exists. It starts exactly where the first ends and ends 15 minutes later, with no gap or overlap |
| `Bookings.NextSlotWraps` | app.py:149-150 | A slot's end time is earlier on the clock than its start exactly when it starts at 23:45:00 or later. The row keeps today's date |
| `Bookings.FirstDayScenario` | app.py:135-199 | Starting from an empty table on 01/06/24, opening then booking gives an `Initial` row 10:00:00-10:00:00 and then a `Patient` row 10:00:00-10:15:00 |
| `Bookings.TenFifteen` | app.py:149-150 | The slot after the 10:00:00 opening row ends at "10:15:00" |
| `Listings.Appointments` | app.py:103 | Holds exactly the user's rows in the given mode, in strictly descending id order |
| `Listings.MyAppointments` | app.py:103 | Holds exactly the user's `Patient` rows, newest first. No `Initial` or `Completed` row appears |
| `Listings.CompletedAppointments` | app.py:110 | Holds exactly the user's `Completed` rows, newest first. No `Initial` or `Patient` row appears |
| `Listings.NewestFirstUnique` | app.py:103 | Two newest-first lists with the same members are equal, so each listing is the only possible answer to its query |
| `Listings.ListingsIgnoreOpening` | app.py:164-199 | Opening a doctor's day changes no patient's listing, even when a patient id equals the doctor's id |
| `Listings.BookingHeadsListing` | app.py:153-154 | A booking puts the new row at the head of its patient's pending list. Every other listing is unchanged |
| `Scheduler.BookingTable.CheckUpdate` | app.py:162-199 | The new table is `OpenDay` of the old one, so it only appends, at most one row |
| `Scheduler.BookingTable.Booked` | app.py:135-159 | Returns `NextSlot` of the old table. The new table is the old one plus the booked row on success, and unchanged on failure |

## Left out

- The Flask routes, `render_template`, `flash` (including the "scheduled at" message), `redirect`, `url_for` and `login_required`. They are web plumbing. Only the table effects of `checkupdate` and `booked` are modelled.
- `print(doctor)` in `checkupdate`: console output only.
- `datetime.datetime.now()`: ambient clock. It becomes the `today` parameter. Only its date string matters, because the time of day is always replaced by 10:00:00 or never used.
- The `book` route: it looks up the doctor, calls `checkupdate` and renders a page. `CheckUpdate` takes the doctor record that lookup finds. When no doctor has the id, `checkupdate(None)` prints `None` and then raises AttributeError at `doctor.id` (app.py:163-164), before it reads or writes the table. The table is left unchanged, which the model does not represent as a separate case.
- SQLAlchemy sessions, the three SQLite stores and `commit`. The table is an in-memory sequence, and each call is atomic.
- Ids assume no row is ever deleted. Nothing in the application deletes one.
- The race between two concurrent `booked` requests that read the same latest row. Calls are modelled as sequential.
- Registration, login, bcrypt hashing, the WTForms validators and the duplicate-username checks. The same goes for all of `doctorapp.py`, which does registration and login only.
- The doctors-by-specialty page (app.py:122): a plain filter of the doctors table that does no scheduling.
- `Booking.__repr__` (app.py:51-52): it refers to a field the record does not have.
- Marking a booking `Completed`: no handler in app.py does it. The `Completed` mode is only read by the completed-appointments listing.
- The `mode` column is free text. The `Mode` type holds the only three values the application writes or compares against.
- `Clock.Parse` accepts ASCII digits only. Python's `\d` also matches other Unicode decimal digits, which no stored time ever contains.
