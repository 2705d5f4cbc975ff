/**
 * Times of day as the bookings table stores them: strings written by
 * `strftime("%H:%M:%S")` and read back by `datetime.strptime(_, "%H:%M:%S")`,
 * modelled as seconds since midnight, and the 15-minute step the scheduler
 * takes from one slot to the next.
 */
module Clock {
  import opened Wrappers

  const SecondsPerDay: int := 24 * 60 * 60
  /** `datetime.timedelta(minutes=15)` */
  const SlotSeconds: int := 15 * 60

  /** Seconds since midnight. */
  type TimeOfDay = t: int | 0 <= t < 86400

  predicate IsDigit(c: char) { '0' <= c <= '9' }

  function DigitValue(c: char): (d: nat)
    requires IsDigit(c)
    ensures d < 10
  {
    (c as int - '0' as int) as nat
  }

  function DigitChar(d: nat): (c: char)
    requires d < 10
    ensures IsDigit(c) && DigitValue(c) == d
  {
    ('0' as int + d) as char
  }

  /** The number written by two decimal digits. */
  function TwoDigits(hi: char, lo: char): (n: nat)
    requires IsDigit(hi) && IsDigit(lo)
    ensures n < 100
  {
    DigitValue(hi) * 10 + DigitValue(lo)
  }

  /** A zero-padded two-digit field, as strftime writes `%H`, `%M` and `%S`. */
  function Pad2(n: nat): (s: string)
    requires n < 100
    ensures |s| == 2 && IsDigit(s[0]) && IsDigit(s[1]) && TwoDigits(s[0], s[1]) == n
  {
    [DigitChar(n / 10), DigitChar(n % 10)]
  }

  /** The shape strftime("%H:%M:%S") always produces: "HH:MM:SS", every field zero-padded and in range. */
  predicate ZeroPadded(s: string)
  {
    && |s| == 8 && s[2] == ':' && s[5] == ':'
    && IsDigit(s[0]) && IsDigit(s[1]) && IsDigit(s[3]) && IsDigit(s[4]) && IsDigit(s[6]) && IsDigit(s[7])
    && TwoDigits(s[0], s[1]) <= 23 && TwoDigits(s[3], s[4]) <= 59 && TwoDigits(s[6], s[7]) <= 59
  }

  /** The hour, minute and second fields of a time of day. */
  lemma TimeFields(t: TimeOfDay)
    ensures t / 3600 <= 23 && t % 3600 / 60 <= 59 && t % 60 <= 59
    ensures t / 3600 * 3600 + t % 3600 / 60 * 60 + t % 60 == t
  {
    assert t % 3600 == t % 3600 / 60 * 60 + t % 3600 % 60;
    assert t % 3600 % 60 == t % 60;
  }

  /** `strftime("%H:%M:%S")` of a time of day. */
  function Format(t: TimeOfDay): (s: string)
    ensures ZeroPadded(s)
    ensures TwoDigits(s[0], s[1]) * 3600 + TwoDigits(s[3], s[4]) * 60 + TwoDigits(s[6], s[7]) == t
  {
    TimeFields(t);
    var hh, mm, ss := Pad2(t / 3600), Pad2(t % 3600 / 60), Pad2(t % 60);
    [hh[0], hh[1], ':', mm[0], mm[1], ':', ss[0], ss[1]]
  }

  /**
   * One numeric field of strptime's pattern. The two-digit alternatives of the
   * pattern are tried first; when they fail, the one-digit alternative leaves a
   * digit where ':' or the end of the input is required, so backtracking never
   * rescues a two-digit field that is out of range. Yields the value and the
   * unread rest of the input.
   */
  function ReadField(s: string, max: nat): (r: Option<(nat, string)>)
    ensures r.Some? ==> r.value.0 <= max
    ensures r.Some? ==> 1 <= |s| - |r.value.1| <= 2 && r.value.1 == s[|s| - |r.value.1|..]
    ensures r.Some? && |s| - |r.value.1| == 2 ==>
      IsDigit(s[0]) && IsDigit(s[1]) && r.value.0 == TwoDigits(s[0], s[1])
    ensures r.Some? && |s| - |r.value.1| == 1 ==> IsDigit(s[0]) && r.value.0 == DigitValue(s[0])
    ensures |s| >= 2 && IsDigit(s[0]) && IsDigit(s[1]) ==>
      (r.Some? <==> TwoDigits(s[0], s[1]) <= max) && (r.Some? ==> r.value.1 == s[2..])
    ensures |s| >= 1 && IsDigit(s[0]) && (|s| == 1 || !IsDigit(s[1])) ==> (r.Some? <==> DigitValue(s[0]) <= max)
    ensures |s| == 0 || !IsDigit(s[0]) ==> r.None?
  {
    if |s| >= 2 && IsDigit(s[0]) && IsDigit(s[1]) then
      var v := TwoDigits(s[0], s[1]);
      if v <= max then Some((v, s[2..])) else None
    else if |s| >= 1 && IsDigit(s[0]) && DigitValue(s[0]) <= max then
      Some((DigitValue(s[0]), s[1..]))
    else
      None
  }

  /** The rest of the input after a ':' separator, if it starts with one. */
  function Separator(s: string): Option<string>
  {
    if |s| > 0 && s[0] == ':' then Some(s[1..]) else None
  }

  /**
   * `datetime.strptime(s, "%H:%M:%S")` reduced to its time of day; None where
   * strptime raises ValueError. Hours run to 23 and minutes to 59; the seconds
   * pattern also admits 60 and 61, which the datetime constructor then rejects.
   */
  function Parse(s: string): (r: Option<TimeOfDay>)
    ensures r.Some? ==> 5 <= |s| <= 8
    ensures |s| == 8 ==> (r.Some? <==> ZeroPadded(s))
    ensures ZeroPadded(s) ==>
      r == Some(TwoDigits(s[0], s[1]) * 3600 + TwoDigits(s[3], s[4]) * 60 + TwoDigits(s[6], s[7]))
  {
    match ReadField(s, 23)
    case None => None
    case Some((h, rest1)) =>
      match Separator(rest1)
      case None => None
      case Some(rest2) =>
        match ReadField(rest2, 59)
        case None => None
        case Some((m, rest3)) =>
          match Separator(rest3)
          case None => None
          case Some(rest4) =>
            match ReadField(rest4, 59)
            case None => None
            case Some((sec, rest5)) =>
              if rest5 != [] then None else Some(h * 3600 + m * 60 + sec)
  }

  /**
   * Adding `timedelta(minutes=15)` to the parsed datetime and formatting only
   * `%H:%M:%S` keeps the time of day: a slot past 23:45 ends on the next day's clock.
   */
  function AddSlot(t: TimeOfDay): (r: TimeOfDay)
    ensures (r - t) % SecondsPerDay == SlotSeconds
    ensures r < t <==> t >= SecondsPerDay - SlotSeconds
  {
    (t + SlotSeconds) % SecondsPerDay
  }

  /** Reading back what strftime wrote gives the same time of day. */
  lemma ParseFormat(t: TimeOfDay)
    ensures Parse(Format(t)) == Some(t)
  {
    var s := Format(t);
    assert ReadField(s, 23) == Some((TwoDigits(s[0], s[1]), s[2..]));
    assert Separator(s[2..]) == Some(s[3..]);
    assert ReadField(s[3..], 59) == Some((TwoDigits(s[3], s[4]), s[5..]));
    assert Separator(s[5..]) == Some(s[6..]);
    assert ReadField(s[6..], 59) == Some((TwoDigits(s[6], s[7]), s[8..]));
  }

  /** Two digits are recovered from the number they write. */
  lemma Pad2TwoDigits(hi: char, lo: char)
    requires IsDigit(hi) && IsDigit(lo)
    ensures Pad2(TwoDigits(hi, lo)) == [hi, lo]
  {
    var n := TwoDigits(hi, lo);
    assert n / 10 == DigitValue(hi) && n % 10 == DigitValue(lo);
  }

  /** The fields of a time of day are recovered from its seconds count. */
  lemma SplitTime(h: nat, m: nat, sec: nat)
    requires h <= 23 && m <= 59 && sec <= 59
    ensures var t := h * 3600 + m * 60 + sec;
      t / 3600 == h && t % 3600 / 60 == m && t % 60 == sec
  {
    var t := h * 3600 + m * 60 + sec;
    assert t == h * 3600 + (m * 60 + sec) && m * 60 + sec < 3600;
    assert t % 3600 == m * 60 + sec;
    assert t == (h * 60 + m) * 60 + sec;
  }

  /** A zero-padded time string parses, and formatting its value writes it back unchanged. */
  lemma FormatParse(s: string)
    requires ZeroPadded(s)
    ensures Parse(s).Some? && Format(Parse(s).value) == s
  {
    var h, m, sec := TwoDigits(s[0], s[1]), TwoDigits(s[3], s[4]), TwoDigits(s[6], s[7]);
    SplitTime(h, m, sec);
    Pad2TwoDigits(s[0], s[1]);
    Pad2TwoDigits(s[3], s[4]);
    Pad2TwoDigits(s[6], s[7]);
    assert s == [s[0], s[1], ':', s[3], s[4], ':', s[6], s[7]];
  }

  /** A string strptime accepts is written back unchanged exactly when it is eight characters long. */
  lemma ParsedFormatsBack(s: string, t: TimeOfDay)
    requires Parse(s) == Some(t)
    ensures Format(t) == s <==> |s| == 8
  {
    if |s| == 8 {
      FormatParse(s);
    }
  }

  /** The last slot before midnight: 23:45:00 plus fifteen minutes reads 00:00:00. */
  lemma MidnightWrap()
    ensures Parse("23:45:00") == Some(85500)
    ensures Format(AddSlot(85500)) == "00:00:00"
  {
    ParseLastSlot();
    assert AddSlot(85500) == 0;
    FormatMidnight();
  }

  lemma ParseLastSlot()
    ensures Parse("23:45:00") == Some(85500)
  {
    var s := "23:45:00";
    assert s[0] == '2' && s[1] == '3' && s[3] == '4' && s[4] == '5' && s[6] == '0' && s[7] == '0';
    assert TwoDigits('2', '3') == 23 && TwoDigits('4', '5') == 45 && TwoDigits('0', '0') == 0;
  }

  lemma FormatMidnight()
    ensures Format(0) == "00:00:00"
  {
    assert DigitChar(0) == '0';
    assert Pad2(0) == "00";
  }
}
