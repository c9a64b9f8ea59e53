/**
 Schedule conditions: what a `weekday(...)` / `hour(...)` condition means, the time window the
 parser makes of it, and the moments at which billing lets a rule with that window apply.
 */
module Schedules {
  import opened GoStrings

  // ---------- Moments ----------

  /** Local weekday (1 Monday .. 7 Sunday) and minute of the day. */
  datatype LocalTime = LocalTime(weekday: int, minute: int)

  predicate ValidTime(t: LocalTime) {
    1 <= t.weekday <= 7 && 0 <= t.minute < 24 * 60
  }

  // ---------- The condition ----------

  datatype DayOp = DayAtLeast | DayAtMost | DayExactly

  /** One `weekday(tz) op value` comparison. */
  datatype DayTest = DayTest(op: DayOp, value: nat)

  /** One `hour(tz) > start && hour(tz) < end` clause; either bound may be inclusive. */
  datatype HourTest = HourTest(startIncluded: bool, start: nat, endIncluded: bool, end: nat)

  /** The parts found in a schedule condition. `hours` is None when the text has no `hour(` at all. */
  datatype Schedule = Schedule(zone: string, days: seq<DayTest>, hours: Option<seq<HourTest>>)

  predicate DayHolds(test: DayTest, weekday: int) {
    match test.op
    case DayAtLeast => weekday >= test.value
    case DayAtMost => weekday <= test.value
    case DayExactly => weekday == test.value
  }

  predicate HourHolds(test: HourTest, hour: int) {
    && (if test.startIncluded then hour >= test.start else hour > test.start)
    && (if test.endIncluded then hour <= test.end else hour < test.end)
  }

  predicate DaysHold(days: seq<DayTest>, weekday: int) {
    forall i :: 0 <= i < |days| ==> DayHolds(days[i], weekday)
  }

  predicate HoursHold(hours: seq<HourTest>, hour: int) {
    exists i :: 0 <= i < |hours| && HourHolds(hours[i], hour)
  }

  /** The condition evaluated directly: every weekday comparison and one of the hour clauses. */
  predicate Holds(s: Schedule, t: LocalTime) {
    DaysHold(s.days, t.weekday) && (s.hours.Some? ==> HoursHold(s.hours.value, t.minute / 60))
  }

  // ---------- Parsing ----------

  /** The last value in 0..7 given for an operator; 0 when there is none. */
  function LastValue(days: seq<DayTest>, op: DayOp): (r: nat)
    ensures r <= 7
  {
    if days == [] then 0
    else
      var last := days[|days| - 1];
      if last.op == op && last.value <= 7 then last.value else LastValue(days[..|days| - 1], op)
  }

  function Between(lower: nat, upper: nat): (r: seq<int>)
    ensures forall d :: d in r <==> lower <= d <= upper
    ensures |r| == if lower <= upper then upper - lower + 1 else 0
    decreases upper + 1 - lower
  {
    if lower > upper then [] else [lower] + Between(lower + 1, upper)
  }

  lemma {:induction false} BetweenExtends(lower: nat, upper: nat)
    requires lower <= upper
    ensures Between(lower, upper) == (if upper == 0 then [] else Between(lower, upper - 1)) + [upper]
    decreases upper - lower
  {
    if lower < upper {
      BetweenExtends(lower + 1, upper);
    }
  }

  /** The weekday list of a condition; empty means every day. */
  function Weekdays(days: seq<DayTest>): seq<int> {
    var lower, upper, exact := LastValue(days, DayAtLeast), LastValue(days, DayAtMost), LastValue(days, DayExactly);
    if exact > 0 then [exact]
    else if lower == 0 && upper == 0 then []
    else Between(if lower == 0 then 1 else lower, if upper == 0 then 7 else upper)
  }

  method ParseBillingWeekdays(days: seq<DayTest>) returns (r: seq<int>)
    ensures r == Weekdays(days)
  {
    if |days| == 0 {
      return [];
    }
    var lower, upper, exact := 0, 0, 0;
    for i := 0 to |days|
      invariant lower == LastValue(days[..i], DayAtLeast)
      invariant upper == LastValue(days[..i], DayAtMost)
      invariant exact == LastValue(days[..i], DayExactly)
    {
      assert days[..i + 1][..i] == days[..i];
      if days[i].value > 7 {
        continue;
      }
      match days[i].op {
        case DayAtLeast => lower := days[i].value;
        case DayAtMost => upper := days[i].value;
        case DayExactly => exact := days[i].value;
      }
    }
    assert days[..|days|] == days;
    if exact > 0 {
      return [exact];
    }
    if lower == 0 && upper == 0 {
      return [];
    }
    if lower == 0 {
      lower := 1;
    }
    if upper == 0 {
      upper := 7;
    }
    if lower > upper {
      return [];
    }
    r := [];
    var day := lower;
    while day <= upper
      invariant lower <= day <= upper + 1
      invariant r == if day == lower then [] else Between(lower, day - 1)
    {
      BetweenExtends(lower, day);
      r := r + [day];
      day := day + 1;
    }
  }

  datatype HourError = Unsupported | OutOfRange | CoversNoHour

  /** The half-open hour range of a clause: an inclusive end moves up by one, and 24 is the last end. */
  function EndOf(test: HourTest): nat {
    var end := if test.endIncluded then test.end + 1 else test.end;
    if end > 24 then 24 else end
  }

  predicate InRange(test: HourTest) {
    test.start <= 24 && test.end <= 24
  }

  /** The clauses that leave at least one hour, as [start, end) pairs. */
  function Ranges(hours: seq<HourTest>): (r: seq<(nat, nat)>)
    ensures forall p :: p in r
              <==> exists i :: 0 <= i < |hours| && hours[i].start < EndOf(hours[i])
                     && p == (hours[i].start, EndOf(hours[i]))
  {
    if hours == [] then []
    else
      var last := hours[|hours| - 1];
      var front := Ranges(hours[..|hours| - 1]);
      assert forall i :: 0 <= i < |hours| - 1 ==> hours[..|hours| - 1][i] == hours[i];
      if last.start < EndOf(last) then front + [(last.start, EndOf(last))] else front
  }

  /** Read with an inclusive start, the clause holds at some hour of the day. */
  predicate LeavesAnHour(test: HourTest) {
    exists h :: 0 <= h <= 23 && HourHolds(test.(startIncluded := true), h)
  }

  /** No number of any clause is above 24, and some clause leaves an hour. */
  predicate HoursReadable(hours: seq<HourTest>) {
    && (forall i :: 0 <= i < |hours| ==> hours[i].start <= 24 && hours[i].end <= 24)
    && exists i :: 0 <= i < |hours| && LeavesAnHour(hours[i])
  }

  /** Clauses that are written with `hour(` have to be readable. */
  predicate Readable(s: Schedule) {
    s.hours.Some? ==> HoursReadable(s.hours.value)
  }

  function HourRanges(hours: Option<seq<HourTest>>): Result<seq<(nat, nat)>, HourError> {
    if hours.None? then Ok([])
    else if hours.value == [] then Err(Unsupported)
    else if exists i :: 0 <= i < |hours.value| && !InRange(hours.value[i]) then Err(OutOfRange)
    else if Ranges(hours.value) == [] then Err(CoversNoHour)
    else Ok(Ranges(hours.value))
  }

  method ParseBillingHourRanges(hours: Option<seq<HourTest>>) returns (r: Result<seq<(nat, nat)>, HourError>)
    ensures r == HourRanges(hours)
  {
    if hours.None? {
      return Ok([]);
    }
    var matches := hours.value;
    if |matches| == 0 {
      return Err(Unsupported);
    }
    var ranges := [];
    for i := 0 to |matches|
      invariant ranges == Ranges(matches[..i])
      invariant forall j :: 0 <= j < i ==> InRange(matches[j])
    {
      assert matches[..i + 1][..i] == matches[..i];
      var start, end := matches[i].start, matches[i].end;
      if start > 24 || end > 24 {
        assert !InRange(matches[i]);
        return Err(OutOfRange);
      }
      if matches[i].endIncluded {
        end := end + 1;
      }
      if end > 24 {
        end := 24;
      }
      if start >= end {
        continue;
      }
      ranges := ranges + [(start, end)];
    }
    assert matches[..|matches|] == matches;
    if |ranges| == 0 {
      return Err(CoversNoHour);
    }
    r := Ok(ranges);
  }

  lemma {:induction false} RangeLeavesAnHour(test: HourTest)
    ensures test.start < EndOf(test) <==> LeavesAnHour(test)
  {
    var h: int := test.start;
    assert test.start < EndOf(test) ==> HourHolds(test.(startIncluded := true), h);
  }

  /** The hour clauses are taken exactly when they are readable; otherwise the error names what is wrong with them. */
  lemma {:induction false} HoursTakenIff(hours: seq<HourTest>)
    ensures HourRanges(Some(hours)).Ok? <==> HoursReadable(hours)
    ensures HourRanges(Some(hours)) == Err(Unsupported) <==> hours == []
    ensures HourRanges(Some(hours)) == Err(OutOfRange)
       <==> exists i :: 0 <= i < |hours| && (hours[i].start > 24 || hours[i].end > 24)
    ensures HourRanges(Some(hours)).Ok? ==> HourRanges(Some(hours)).value == Ranges(hours)
  {
    forall i | 0 <= i < |hours|
      ensures hours[i].start < EndOf(hours[i]) <==> LeavesAnHour(hours[i])
      ensures InRange(hours[i]) <==> hours[i].start <= 24 && hours[i].end <= 24
    {
      RangeLeavesAnHour(hours[i]);
    }
    if Ranges(hours) != [] {
      assert Ranges(hours)[0] in Ranges(hours);
    }
    if i :| 0 <= i < |hours| && LeavesAnHour(hours[i]) {
      assert (hours[i].start, EndOf(hours[i])) in Ranges(hours);
    }
  }

  lemma {:induction false} ReadableIff(s: Schedule)
    ensures HourRanges(s.hours).Ok? <==> Readable(s)
  {
    if s.hours.Some? {
      HoursTakenIff(s.hours.value);
    }
  }

  // ---------- Clock texts ----------

  function Digit(n: nat): char
    requires n <= 9
  {
    ('0' as int + n) as char
  }

  function DigitValue(c: char): Option<nat> {
    if '0' <= c <= '9' then Some(c as int - '0' as int) else None
  }

  /** `%02d:00`. */
  function FormatHour(hour: nat): string
    requires hour <= 24
  {
    [Digit(hour / 10), Digit(hour % 10), ':', '0', '0']
  }

  /** Minutes of a strict "HH:MM" text; hours stop at 23. */
  function ParseClock(text: string): Option<nat> {
    var s := Trim(text);
    if |s| != 5 || s[2] != ':' then None
    else
      var h1, h2, m1, m2 := DigitValue(s[0]), DigitValue(s[1]), DigitValue(s[3]), DigitValue(s[4]);
      if h1.None? || h2.None? || m1.None? || m2.None? then None
      else
        var hour, minute := h1.value * 10 + h2.value, m1.value * 10 + m2.value;
        if hour > 23 || minute > 59 then None else Some(hour * 60 + minute)
  }

  /** A formatted hour is read back as its minutes, except for 24, which no clock accepts. */
  lemma {:induction false} ClockRoundTrip(hour: nat)
    requires hour <= 24
    ensures ParseClock(FormatHour(hour)) == if hour <= 23 then Some(hour * 60) else None
  {
    var s := FormatHour(hour);
    assert !IsSpace(Digit(hour / 10));
    assert Trimmed(s);
  }

  const DIGITS := "0123456789"

  /** A text is a clock exactly when it is two digits up to 23, a colon and two digits up to 59. */
  lemma {:induction false} ClockIff(text: string, hour: nat, minute: nat)
    requires hour <= 99 && minute <= 99
    requires Trim(text) == [DIGITS[hour / 10], DIGITS[hour % 10], ':', DIGITS[minute / 10], DIGITS[minute % 10]]
    ensures ParseClock(text) == if hour <= 23 && minute <= 59 then Some(hour * 60 + minute) else None
  {
    DigitIsRead(hour / 10);
    DigitIsRead(hour % 10);
    DigitIsRead(minute / 10);
    DigitIsRead(minute % 10);
  }

  lemma {:induction false} DigitIsRead(n: nat)
    requires n <= 9
    ensures Digit(n) == DIGITS[n] && DigitValue(DIGITS[n]) == Some(n)
  {
  }

  /** Every text that is read as a clock is of that form. */
  lemma {:induction false} ClockIsWritten(text: string) returns (hour: nat, minute: nat)
    requires ParseClock(text).Some?
    ensures hour <= 23 && minute <= 59 && ParseClock(text) == Some(hour * 60 + minute)
    ensures Trim(text) == [DIGITS[hour / 10], DIGITS[hour % 10], ':', DIGITS[minute / 10], DIGITS[minute % 10]]
  {
    var s := Trim(text);
    var h1 := CharIsDigit(s[0]);
    var h2 := CharIsDigit(s[1]);
    var m1 := CharIsDigit(s[3]);
    var m2 := CharIsDigit(s[4]);
    hour, minute := h1 * 10 + h2, m1 * 10 + m2;
    TwoDigits(h1, h2);
    TwoDigits(m1, m2);
    assert s == [s[0], s[1], s[2], s[3], s[4]];
  }

  lemma {:induction false} TwoDigits(a: nat, b: nat)
    requires b <= 9
    ensures (a * 10 + b) / 10 == a && (a * 10 + b) % 10 == b
  {
  }

  lemma {:induction false} CharIsDigit(c: char) returns (n: nat)
    requires DigitValue(c).Some?
    ensures n <= 9 && DigitValue(c) == Some(n) && c == DIGITS[n]
  {
    n := DigitValue(c).value;
    DigitIsRead(n);
    assert Digit(n) == c;
  }

  // ---------- Time windows ----------

  /** A `conditions.time` block. */
  datatype Window = Window(zone: string, weekdays: seq<int>, ranges: seq<(string, string)>)

  predicate ClockValid(range: (string, string)) {
    ParseClock(range.0).Some? && ParseClock(range.1).Some?
  }

  /** `Window.Validate`; `zones` are the names the time-zone database knows. */
  predicate Valid(w: Window, zones: set<string>) {
    && (Trim(w.zone) != "" ==> Trim(w.zone) in zones)
    && (forall d :: d in w.weekdays ==> 1 <= d <= 7)
    && (forall r :: r in w.ranges ==> ClockValid(r))
  }

  /** `Window.IsZero`: no ranges, and no weekdays or all seven of them. */
  predicate IsZero(w: Window) {
    w.ranges == [] && (w.weekdays == [] || |set d | d in w.weekdays| == 7)
  }

  /** `matchesClock`: equal ends are the whole day, a start behind the end crosses midnight. */
  predicate InClock(minute: int, start: int, end: int) {
    if start == end then true
    else if start < end then start <= minute < end
    else minute >= start || minute < end
  }

  predicate Covers(ranges: seq<(string, string)>, minute: int) {
    exists i :: 0 <= i < |ranges| && ClockValid(ranges[i])
                && InClock(minute, ParseClock(ranges[i].0).value, ParseClock(ranges[i].1).value)
  }

  /** `Window.Allows` for the local time of the window's zone. */
  predicate Allows(w: Window, t: LocalTime) {
    IsZero(w)
    || ((w.weekdays == [] || t.weekday in w.weekdays) && (w.ranges == [] || Covers(w.ranges, t.minute)))
  }

  /** `matchesTimeCondition`: an invalid block never applies. */
  predicate Admits(w: Window, zones: set<string>, t: LocalTime) {
    Valid(w, zones) && Allows(w, t)
  }

  /** A range is read around the clock: a minute is in it when it comes sooner after the start than the end does. */
  lemma {:induction false} InClockIff(minute: int, start: int, end: int)
    requires 0 <= minute < 24 * 60 && 0 <= start < 24 * 60 && 0 <= end < 24 * 60
    ensures InClock(minute, start, end)
       <==> start == end || (minute - start) % (24 * 60) < (end - start) % (24 * 60)
  {
  }

  function ClockRanges(ranges: seq<(nat, nat)>): seq<(string, string)>
    requires forall r :: r in ranges ==> r.0 <= 24 && r.1 <= 24
  {
    seq(|ranges|,
        i requires 0 <= i < |ranges| =>
          (assert ranges[i] in ranges; (FormatHour(ranges[i].0), FormatHour(ranges[i].1))))
  }

  /** `parseBillingScheduleCondition`, with the window as it reaches a price rule. */
  function ParseSchedule(s: Schedule): (r: Result<Window, HourError>)
    ensures r.Ok? <==> Readable(s)
  {
    ReadableIff(s);
    match HourRanges(s.hours)
    case Err(e) => Err(e)
    case Ok(ranges) => Ok(Window(s.zone, Weekdays(s.days), ClockRanges(ranges)))
  }

  // ---------- Weekdays are exact ----------

  predicate WeekdayAccepted(days: seq<DayTest>, weekday: int) {
    Weekdays(days) == [] || weekday in Weekdays(days)
  }

  /** The written forms: nothing, one comparison, or one lower and one upper bound. */
  predicate DayForm(days: seq<DayTest>) {
    || |days| <= 1
    || (|days| == 2 && days[0].op == DayAtLeast && days[1].op == DayAtMost)
    || (|days| == 2 && days[0].op == DayAtMost && days[1].op == DayAtLeast)
  }

  function Bound(days: seq<DayTest>, op: DayOp, otherwise: nat): nat {
    if |days| > 0 && days[0].op == op then days[0].value
    else if |days| > 1 && days[1].op == op then days[1].value
    else otherwise
  }

  /** The lower bound is at most 7, the upper one at least 1, and they do not cross. */
  predicate DaysInOrder(days: seq<DayTest>) {
    if |days| == 1 && days[0].op == DayExactly then 1 <= days[0].value <= 7
    else
      var lower, upper := Bound(days, DayAtLeast, 0), Bound(days, DayAtMost, 7);
      lower <= 7 && upper >= 1 && lower <= upper
  }

  lemma {:induction false} LastOfTwo(days: seq<DayTest>, op: DayOp)
    requires DayForm(days)
    ensures LastValue(days, op) == var b := Bound(days, op, 0); if b <= 7 then b else 0
  {
    if |days| > 0 {
      assert days[..|days| - 1] == if |days| == 1 then [] else [days[0]];
      assert LastValue([], op) == 0;
      if |days| == 2 {
        assert [days[0]][..0] == [];
      }
    }
  }

  /** Crossed bounds exclude every day. */
  lemma {:induction false} CrossedDaysNeverHold(days: seq<DayTest>, d: int)
    requires DayForm(days) && !DaysInOrder(days) && 1 <= d <= 7
    ensures !DaysHold(days, d)
  {
    assert DaysHold(days, d) ==> DayHolds(days[0], d);
    assert |days| > 1 ==> (DaysHold(days, d) ==> DayHolds(days[1], d));
  }

  /** For every written form, the weekday list is exact if and only if the bounds are in order. */
  lemma {:induction false} WeekdaysExactIff(days: seq<DayTest>)
    requires DayForm(days)
    ensures (forall d :: 1 <= d <= 7 ==> (WeekdayAccepted(days, d) <==> DaysHold(days, d))) <==> DaysInOrder(days)
  {
    LastOfTwo(days, DayAtLeast);
    LastOfTwo(days, DayAtMost);
    LastOfTwo(days, DayExactly);
    if DaysInOrder(days) {
      forall d | 1 <= d <= 7
        ensures WeekdayAccepted(days, d) <==> DaysHold(days, d)
      {
        assert |days| > 0 ==> (DaysHold(days, d) ==> DayHolds(days[0], d));
        assert |days| > 1 ==> (DaysHold(days, d) ==> DayHolds(days[1], d));
      }
    } else {
      var d := SomeDayAccepted(days);
      CrossedDaysNeverHold(days, d);
    }
  }

  /** Whatever the comparisons say, the parsed list lets some day through. */
  lemma {:induction false} SomeDayAccepted(days: seq<DayTest>) returns (d: int)
    ensures 1 <= d <= 7 && WeekdayAccepted(days, d)
  {
    var w := Weekdays(days);
    if w == [] {
      d := 1;
    } else {
      d := w[0];
      assert d in w;
    }
  }

  // ---------- Hours are exact ----------

  predicate HourAccepted(hours: seq<HourTest>, hour: int) {
    exists r :: r in Ranges(hours) && r.0 <= hour < r.1
  }

  lemma {:induction false} ClauseAccepted(hours: seq<HourTest>, i: nat, hour: int)
    requires i < |hours| && hours[i].start <= hour < EndOf(hours[i])
    ensures HourAccepted(hours, hour)
  {
    assert (hours[i].start, EndOf(hours[i])) in Ranges(hours);
  }

  /** The parser never loses an hour the condition holds at. */
  lemma {:induction false} HeldHourAccepted(hours: seq<HourTest>, hour: int)
    requires 0 <= hour <= 23 && HoursHold(hours, hour)
    ensures HourAccepted(hours, hour)
  {
    var i :| 0 <= i < |hours| && HourHolds(hours[i], hour);
    ClauseAccepted(hours, i, hour);
  }

  /** The start hour of every exclusive lower bound is an hour the condition holds at anyway. */
  predicate StartsCovered(hours: seq<HourTest>) {
    forall i :: 0 <= i < |hours| && !hours[i].startIncluded && hours[i].start < EndOf(hours[i]) ==>
      HoursHold(hours, hours[i].start)
  }

  /** The parsed ranges are exact if and only if the exclusive starts are covered: the parser reads `>` as `>=`. */
  lemma {:induction false} HoursExactIff(hours: seq<HourTest>)
    ensures (forall h :: 0 <= h <= 23 ==> (HourAccepted(hours, h) <==> HoursHold(hours, h))) <==> StartsCovered(hours)
  {
    if StartsCovered(hours) {
      forall h | 0 <= h <= 23
        ensures HourAccepted(hours, h) <==> HoursHold(hours, h)
      {
        if HoursHold(hours, h) {
          HeldHourAccepted(hours, h);
        }
        if HourAccepted(hours, h) {
          var r :| r in Ranges(hours) && r.0 <= h < r.1;
          var i :| 0 <= i < |hours| && hours[i].start < EndOf(hours[i]) && r == (hours[i].start, EndOf(hours[i]));
          assert h != hours[i].start || hours[i].startIncluded ==> HourHolds(hours[i], h);
        }
      }
    } else {
      var i :| 0 <= i < |hours| && !hours[i].startIncluded && hours[i].start < EndOf(hours[i])
               && !HoursHold(hours, hours[i].start);
      ClauseAccepted(hours, i, hours[i].start);
    }
  }

  // ---------- The whole condition ----------

  /** Some clause, once clamped, runs to the end of the day. */
  predicate ReachesMidnight(hours: seq<HourTest>) {
    exists i :: 0 <= i < |hours| && hours[i].start < EndOf(hours[i]) && EndOf(hours[i]) == 24
  }

  /** A condition in one of the written forms, which the parser takes, with a known time zone. */
  predicate Written(s: Schedule, zones: set<string>) {
    && Trimmed(s.zone) && s.zone in zones
    && DayForm(s.days) && Readable(s)
  }

  /** A written condition that is billed as it reads. */
  predicate Supported(s: Schedule, zones: set<string>) {
    && Written(s, zones) && DaysInOrder(s.days)
    && (s.hours.Some? ==> StartsCovered(s.hours.value) && !ReachesMidnight(s.hours.value))
  }

  lemma {:induction false} WeekdaysInRange(days: seq<DayTest>)
    ensures forall d :: d in Weekdays(days) ==> 1 <= d <= 7
  {
  }

  /** Seven different weekdays are all the weekdays. */
  lemma {:induction false} FullWeek(weekdays: seq<int>, day: int)
    requires forall d :: d in weekdays ==> 1 <= d <= 7
    requires |set d | d in weekdays| == 7 && 1 <= day <= 7
    ensures day in weekdays
  {
    var have := set d | d in weekdays;
    var all := {1, 2, 3, 4, 5, 6, 7};
    forall d | d in have
      ensures d in all
    {
      assert d in weekdays;
    }
    if day !in have {
      SubsetSize(have, all - {day});
    }
  }

  /**
   A window admits a time exactly when its zone is known, its weekdays and clocks are well-formed, and it names
   neither other weekdays only nor other times only; the shortcut for windows that restrict nothing adds nothing.
   */
  lemma {:induction false} AdmitsWindowIff(w: Window, zones: set<string>, t: LocalTime)
    requires ValidTime(t)
    ensures Admits(w, zones, t)
       <==> && (Trim(w.zone) == "" || Trim(w.zone) in zones)
            && (forall d :: d in w.weekdays ==> 1 <= d <= 7)
            && (forall r :: r in w.ranges ==> ParseClock(r.0).Some? && ParseClock(r.1).Some?)
            && (w.weekdays == [] || t.weekday in w.weekdays)
            && (w.ranges == [] || exists r :: r in w.ranges && ClockValid(r)
                                              && InClock(t.minute, ParseClock(r.0).value, ParseClock(r.1).value))
  {
    if Valid(w, zones) && IsZero(w) && w.weekdays != [] {
      FullWeek(w.weekdays, t.weekday);
    }
    assert forall i :: 0 <= i < |w.ranges| ==> w.ranges[i] in w.ranges;
  }

  lemma {:induction false} SubsetSize(a: set<int>, b: set<int>)
    requires a <= b
    ensures |a| <= |b|
  {
    assert b == a + (b - a);
  }

  /** The clock texts of a range cover exactly the minutes of its hours. */
  lemma {:induction false} CoversIffAccepted(ranges: seq<(nat, nat)>, minute: int)
    requires forall r :: r in ranges ==> r.0 < r.1 <= 23
    requires 0 <= minute < 24 * 60
    ensures forall p :: p in ClockRanges(ranges) ==> ClockValid(p)
    ensures Covers(ClockRanges(ranges), minute) <==> exists r :: r in ranges && r.0 <= minute / 60 < r.1
  {
    var clocks := ClockRanges(ranges);
    forall i | 0 <= i < |ranges|
      ensures ClockValid(clocks[i])
      ensures InClock(minute, ParseClock(clocks[i].0).value, ParseClock(clocks[i].1).value)
              <==> ranges[i].0 <= minute / 60 < ranges[i].1
    {
      assert ranges[i] in ranges;
      ClockRoundTrip(ranges[i].0);
      ClockRoundTrip(ranges[i].1);
    }
    if r :| r in ranges && r.0 <= minute / 60 < r.1 {
      var i :| 0 <= i < |ranges| && ranges[i] == r;
      assert InClock(minute, ParseClock(clocks[i].0).value, ParseClock(clocks[i].1).value);
    }
    if Covers(clocks, minute) {
      var i :| 0 <= i < |clocks| && ClockValid(clocks[i])
               && InClock(minute, ParseClock(clocks[i].0).value, ParseClock(clocks[i].1).value);
      assert ranges[i] in ranges;
    }
  }

  /** A range that ends at 24 makes the whole block invalid. */
  lemma {:induction false} MidnightInvalidates(s: Schedule, zones: set<string>)
    requires ParseSchedule(s).Ok? && s.hours.Some? && ReachesMidnight(s.hours.value)
    ensures !Valid(ParseSchedule(s).value, zones)
  {
    var hours := s.hours.value;
    var i :| 0 <= i < |hours| && hours[i].start < EndOf(hours[i]) && EndOf(hours[i]) == 24;
    var r := (hours[i].start, EndOf(hours[i]));
    var ranges := Ranges(hours);
    assert r in ranges;
    var k :| 0 <= k < |ranges| && ranges[k] == r;
    var clocks := ParseSchedule(s).value.ranges;
    ClockRoundTrip(24);
    assert clocks[k] in clocks && !ClockValid(clocks[k]);
  }

  /** Without a clause up to midnight, the window admits exactly the parsed days and hours. */
  lemma {:induction false} AdmitsIff(s: Schedule, zones: set<string>, t: LocalTime)
    requires Written(s, zones) && (s.hours.Some? ==> !ReachesMidnight(s.hours.value)) && ValidTime(t)
    ensures ParseSchedule(s).Ok?
    ensures Admits(ParseSchedule(s).value, zones, t)
       <==> WeekdayAccepted(s.days, t.weekday) && (s.hours.Some? ==> HourAccepted(s.hours.value, t.minute / 60))
  {
    var w := ParseSchedule(s).value;
    WeekdaysInRange(s.days);
    if s.hours.None? {
      assert w.ranges == [];
      if w.weekdays != [] && IsZero(w) {
        FullWeek(w.weekdays, t.weekday);
      }
    } else {
      var ranges := Ranges(s.hours.value);
      assert forall r :: r in ranges ==> r.0 < r.1 <= 23;
      CoversIffAccepted(ranges, t.minute);
      assert w.ranges != [];
    }
  }

  /** A supported condition holds at exactly the local times its window admits. */
  lemma {:induction false} SupportedIsExact(s: Schedule, zones: set<string>, t: LocalTime)
    requires Supported(s, zones) && ValidTime(t)
    ensures ParseSchedule(s).Ok?
    ensures Admits(ParseSchedule(s).value, zones, t) <==> Holds(s, t)
  {
    AdmitsIff(s, zones, t);
    WeekdaysExactIff(s.days);
    assert WeekdayAccepted(s.days, t.weekday) <==> DaysHold(s.days, t.weekday);
    if s.hours.Some? {
      HoursExactIff(s.hours.value);
      assert HourAccepted(s.hours.value, t.minute / 60) <==> HoursHold(s.hours.value, t.minute / 60);
    }
  }

  /** The condition holds at some local time only if its weekday bounds are in order and its clauses leave an hour. */
  predicate Satisfiable(s: Schedule) {
    DaysInOrder(s.days) && (s.hours.Some? ==> exists h :: 0 <= h <= 23 && HoursHold(s.hours.value, h))
  }

  lemma {:induction false} SatisfiableIff(s: Schedule)
    requires DayForm(s.days)
    ensures Satisfiable(s) <==> exists t :: ValidTime(t) && Holds(s, t)
  {
    if Satisfiable(s) {
      var d := SomeDayAccepted(s.days);
      WeekdaysExactIff(s.days);
      var h := 0;
      if s.hours.Some? {
        h :| 0 <= h <= 23 && HoursHold(s.hours.value, h);
      }
      var t := LocalTime(d, h * 60);
      assert ValidTime(t) && Holds(s, t);
    } else if t :| ValidTime(t) && Holds(s, t) {
      if !DaysInOrder(s.days) {
        CrossedDaysNeverHold(s.days, t.weekday);
      }
    }
  }

  /** Some hour is accepted, and one at which the clauses do not hold if an exclusive start is not covered. */
  lemma {:induction false} AcceptedHour(hours: seq<HourTest>) returns (h: int)
    requires Ranges(hours) != []
    ensures 0 <= h <= 23 && HourAccepted(hours, h)
    ensures !StartsCovered(hours) ==> !HoursHold(hours, h)
  {
    if StartsCovered(hours) {
      var r := Ranges(hours)[0];
      assert r in Ranges(hours) && r.0 <= r.0 < r.1;
      h := r.0;
    } else {
      var i :| 0 <= i < |hours| && !hours[i].startIncluded && hours[i].start < EndOf(hours[i])
               && !HoursHold(hours, hours[i].start);
      ClauseAccepted(hours, i, hours[i].start);
      h := hours[i].start;
    }
  }

  /**
   When the days or the exclusive starts are misread, the window admits a time at which the condition does not hold.
   */
  lemma {:induction false} MisreadTime(s: Schedule, zones: set<string>) returns (t: LocalTime)
    requires Written(s, zones) && (s.hours.Some? ==> !ReachesMidnight(s.hours.value)) && !Supported(s, zones)
    ensures ValidTime(t) && Admits(ParseSchedule(s).value, zones, t) && !Holds(s, t)
  {
    var d := SomeDayAccepted(s.days);
    var h := 0;
    assert ParseSchedule(s).Ok?;
    if s.hours.Some? {
      h := AcceptedHour(s.hours.value);
    }
    t := LocalTime(d, h * 60);
    AdmitsIff(s, zones, t);
    if !DaysInOrder(s.days) {
      CrossedDaysNeverHold(s.days, d);
    }
  }

  /**
   A written condition is billed at exactly the local times it holds at if and only if its weekday bounds are
   in order, its exclusive starts are covered, and no clause runs to the end of the day: that end is
   written "24:00", which the window check refuses, so the rule never applies. A condition that never
   holds may have such a clause.
   */
  lemma {:induction false} ScheduleExactIff(s: Schedule, zones: set<string>)
    requires Written(s, zones)
    ensures (forall t :: ValidTime(t) ==> (Admits(ParseSchedule(s).value, zones, t) <==> Holds(s, t)))
       <==> if s.hours.Some? && ReachesMidnight(s.hours.value) then !Satisfiable(s)
            else DaysInOrder(s.days) && (s.hours.Some? ==> StartsCovered(s.hours.value))
  {
    if s.hours.Some? && ReachesMidnight(s.hours.value) {
      MidnightInvalidates(s, zones);
      SatisfiableIff(s);
    } else if Supported(s, zones) {
      forall t | ValidTime(t)
        ensures Admits(ParseSchedule(s).value, zones, t) <==> Holds(s, t)
      {
        SupportedIsExact(s, zones, t);
      }
    } else {
      var t := MisreadTime(s, zones);
    }
  }
}
