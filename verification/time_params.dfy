/**
 * The two request parameters derived from the wall clock: the base date
 * (`YYYYMMDD`) and the base time (an `HH30` observation slot).
 * The clock itself is not read here: today's date and the current hour and
 * minute are parameters.
 */
module TimeParams {
  import opened Wrappers
  import opened Digits

  /** A calendar date as Python's `datetime.date` holds it. */
  datatype Date = Date(year: nat, month: nat, day: nat)

  predicate IsLeapYear(y: nat) {
    (y % 4 == 0 && y % 100 != 0) || y % 400 == 0
  }

  function DaysInMonth(y: nat, m: nat): nat
    requires 1 <= m <= 12
  {
    if m == 2 then (if IsLeapYear(y) then 29 else 28)
    else if m == 4 || m == 6 || m == 9 || m == 11 then 30
    else 31
  }

  /** The dates `datetime.date` can represent (years 1 to 9999, proleptic Gregorian). */
  predicate ValidDate(d: Date) {
    1 <= d.year <= 9999 && 1 <= d.month <= 12 && 1 <= d.day <= DaysInMonth(d.year, d.month)
  }

  /** `today.strftime("%Y%m%d")`: eight digits, year then month then day. */
  function CurrentDate(today: Date): (r: string)
    requires ValidDate(today)
    ensures |r| == 8 && AllDigits(r)
  {
    ZeroPad(today.year, 4) + ZeroPad(today.month, 2) + ZeroPad(today.day, 2)
  }

  /** Reads a `YYYYMMDD` string back into its three fields. */
  function DecodeDate(s: string): (r: Option<Date>)
    ensures r.Some? <==> |s| == 8 && AllDigits(s)
  {
    if |s| == 8 && AllDigits(s) then
      Some(Date(ParseDecimal(s[..4]), ParseDecimal(s[4..6]), ParseDecimal(s[6..])))
    else None
  }

  /** The base date can be read back: no two dates share a rendering. */
  lemma CurrentDateDecodes(today: Date)
    requires ValidDate(today)
    ensures DecodeDate(CurrentDate(today)) == Some(today)
  {
    var y, m, d := ZeroPad(today.year, 4), ZeroPad(today.month, 2), ZeroPad(today.day, 2);
    var s := CurrentDate(today);
    assert s[..4] == y && s[4..6] == m && s[6..] == d;
    ParseZeroPad(today.year, 4);
    ParseZeroPad(today.month, 2);
    ParseZeroPad(today.day, 2);
  }

  /** Every eight-digit string that names a valid date is the base date of that date. */
  lemma DecodedDateRenders(s: string)
    requires DecodeDate(s).Some? && ValidDate(DecodeDate(s).value)
    ensures CurrentDate(DecodeDate(s).value) == s
  {
    ZeroPadParse(s[..4]);
    ZeroPadParse(s[4..6]);
    ZeroPadParse(s[6..]);
    assert s == s[..4] + s[4..6] + s[6..];
  }

  /**
   * `get_valid_base_time` with the clock passed in: before minute 40 the
   * previous hour's `HH30` slot (`"2330"` at hour 0), from minute 40 on the
   * current hour's. The hour part is the zero-padded hour, one hour back
   * (modulo a day) before minute 40.
   */
  function ValidBaseTime(hour: nat, minute: nat): (r: string)
    requires hour < 24 && minute < 60
    ensures |r| == 4 && AllDigits(r) && r[2..] == "30"
    ensures ParseDecimal(r[..2]) == if minute >= 40 then hour else (hour + 23) % 24
    ensures ParseDecimal(r[..2]) < 24
  {
    var slotHour := if minute >= 40 then hour else if hour > 0 then hour - 1 else 23;
    ParseZeroPad(slotHour, 2);
    var r := if minute < 40 then (if hour > 0 then ZeroPad(hour - 1, 2) + "30" else "2330")
             else ZeroPad(hour, 2) + "30";
    assert r[..2] == ZeroPad(slotHour, 2);
    r
  }

  /** Minutes from the slot `slotHour`:30 back-counted to `hour`:`minute`, across midnight if needed. */
  function MinutesSince(slotHour: nat, hour: nat, minute: nat): (m: nat)
    ensures m < 24 * 60
  {
    (hour * 60 + minute - (slotHour * 60 + 30)) % (24 * 60)
  }

  /**
   * The slot chosen is the latest `HH30` mark that lies at least 10 minutes in
   * the past, and it is the only `HH30` mark between 10 and 69 minutes back.
   */
  lemma BaseTimeIsLatestPublishedSlot(hour: nat, minute: nat, other: nat)
    requires hour < 24 && minute < 60 && other < 24
    ensures 10 <= MinutesSince(ParseDecimal(ValidBaseTime(hour, minute)[..2]), hour, minute) < 70
    ensures 10 <= MinutesSince(other, hour, minute) < 70 ==> other == ParseDecimal(ValidBaseTime(hour, minute)[..2])
  {
    var h := ParseDecimal(ValidBaseTime(hour, minute)[..2]);
    assert h == if minute >= 40 then hour else (hour + 23) % 24;
    var now := hour * 60 + minute;
    WithinOneDay(now - (h * 60 + 30));
    WithinOneDay(now - (other * 60 + 30));
  }

  /** Reduction modulo a day of a difference between two times of the same day. */
  lemma WithinOneDay(d: int)
    requires -(24 * 60) < d < 24 * 60
    ensures d % (24 * 60) == if d < 0 then d + 24 * 60 else d
  {
  }

  /** The three clock readings the behaviour is usually illustrated with. */
  lemma BaseTimeExamples()
    ensures ValidBaseTime(10, 15) == "0930"
    ensures ValidBaseTime(10, 45) == "1030"
    ensures ValidBaseTime(0, 10) == "2330"
    ensures ValidBaseTime(23, 59) == "2330"
  {
  }
}
