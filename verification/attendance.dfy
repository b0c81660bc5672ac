/** The admin attendance page: the status counters over the fetched
    records, the late-arrival classifier that also reads check-in times,
    day-by-day navigation, and the query the page sends. */
module Attendance {
  import opened Wrappers
  import opened Seqs
  import opened Decimal
  import opened Js

  /** The two fields of an attendance record the page computes with */
  datatype Record = Record(status: string, checkIn: string)

  // ---------------------------------------------------------------------
  // Counters

  predicate IsPresent(r: Record) { r.status == "Present" }
  predicate IsAbsent(r: Record) { r.status == "Absent" }
  predicate IsLate(r: Record) { r.status == "Late" }
  predicate IsOnLeave(r: Record) { r.status == "Half Day" || r.status == "On Leave" || r.status == "Leave" }

  datatype Counters = Counters(present: nat, absent: nat, late: nat, onLeave: nat)

  /** `presentCount`, `absentCount`, `lateCount` and `onLeaveCount` */
  function Count(rs: seq<Record>): (c: Counters)
    ensures c.present + c.absent + c.late + c.onLeave <= |rs|
    ensures c.present == 0 <==> forall i :: 0 <= i < |rs| ==> rs[i].status != "Present"
    ensures c.late == 0 <==> forall i :: 0 <= i < |rs| ==> rs[i].status != "Late"
  {
    CountersBounded(rs);
    Counters(CountIf(rs, IsPresent), CountIf(rs, IsAbsent), CountIf(rs, IsLate), CountIf(rs, IsOnLeave))
  }

  /** The four statuses are distinct, so no record is counted twice */
  lemma {:induction false} CountersBounded(rs: seq<Record>)
    ensures CountIf(rs, IsPresent) + CountIf(rs, IsAbsent) + CountIf(rs, IsLate) + CountIf(rs, IsOnLeave) <= |rs|
    decreases |rs|
  {
    if |rs| > 0 {
      CountersBounded(rs[1..]);
    }
  }

  /** Adding a record raises exactly the counter of its status */
  lemma CountAppend(rs: seq<Record>, r: Record)
    ensures var (c, c') := (Count(rs), Count(rs + [r]));
      && c'.present == c.present + (if IsPresent(r) then 1 else 0)
      && c'.absent == c.absent + (if IsAbsent(r) then 1 else 0)
      && c'.late == c.late + (if IsLate(r) then 1 else 0)
      && c'.onLeave == c.onLeave + (if IsOnLeave(r) then 1 else 0)
  {
    CountIfAppend(rs, [r], IsPresent);
    CountIfAppend(rs, [r], IsAbsent);
    CountIfAppend(rs, [r], IsLate);
    CountIfAppend(rs, [r], IsOnLeave);
  }

  // ---------------------------------------------------------------------
  // calculatedLate

  /** The check-in test for a `'Present'` record: the text is split at the
      first space into a time and a period, the time at colons into hour
      and minute, each read with `Number`. A missing minute is `undefined`,
      which no comparison holds for, as for NaN. */
  predicate LateByClock(checkIn: string) {
    var pieces := Split(checkIn, ' ');
    var period := if |pieces| > 1 then Some(pieces[1]) else None;
    var hm := Split(pieces[0], ':');
    var h := NumberOf(hm[0]);
    var m := if |hm| > 1 then NumberOf(hm[1]) else NaN;
    || (period == Some("AM") && NumEq(h, 9) && NumGt(m, 15))
    || (period == Some("AM") && NumGt(h, 9) && !NumEq(h, 12))
    || period == Some("PM")
  }

  /** The record counts towards `calculatedLate` */
  predicate CountedLate(r: Record) {
    || r.status == "Late"
    || (r.status == "Present" && r.checkIn != "-" && LateByClock(r.checkIn))
  }

  /** `calculatedLate`: at least `lateCount`, and no more than the records */
  function CalculatedLate(rs: seq<Record>): (n: nat)
    ensures CountIf(rs, IsLate) <= n <= |rs|
    ensures n == 0 ==> forall i :: 0 <= i < |rs| ==> rs[i].status != "Late"
  {
    CountIfMonotone(rs, IsLate, CountedLate);
    CountIf(rs, CountedLate)
  }

  /** Only `'Late'` and `'Present'` records can count, and a `'Present'`
      record without a check-in (`'-'`) never does */
  lemma CountedLateByStatus(r: Record)
    ensures r.status == "Late" ==> CountedLate(r)
    ensures r.status != "Late" && r.status != "Present" ==> !CountedLate(r)
    ensures r.status == "Present" && r.checkIn == "-" ==> !CountedLate(r)
  {
  }

  lemma NoSpaceOrColonInDigits(s: string)
    requires AllDigits(s)
    ensures ' ' !in s && ':' !in s
  {
  }

  /** How a check-in text `hh:mm <period>` is read: hour and minute as
      numbers, and the period */
  lemma ReadCheckIn(hh: string, mm: string, period: string)
    requires AllDigits(hh) && AllDigits(mm) && ' ' !in period
    ensures var pieces := Split(hh + ":" + mm + " " + period, ' ');
      && |pieces| == 2 && pieces[1] == period
      && Split(pieces[0], ':') == [hh, mm]
      && NumberOf(hh) == Num(Value(hh)) && NumberOf(mm) == Num(Value(mm))
  {
    NoSpaceOrColonInDigits(hh);
    NoSpaceOrColonInDigits(mm);
    var time := hh + ":" + mm;
    assert ' ' !in time;
    assert hh + ":" + mm + " " + period == time + [' '] + period;
    SplitAtSeparator(time, ' ', period);
    SplitNoSeparator(period, ' ');
    assert time == hh + [':'] + mm;
    SplitAtSeparator(hh, ':', mm);
    SplitNoSeparator(mm, ':');
  }

  /** A morning check-in is late when after 9:15 or in the 10 or 11 o'clock
      hour; 12 AM and every hour before 9 are not */
  lemma MorningRule(hh: string, mm: string)
    requires AllDigits(hh) && AllDigits(mm)
    ensures CountedLate(Record("Present", hh + ":" + mm + " AM"))
        <==> (Value(hh) == 9 && Value(mm) > 15) || (Value(hh) > 9 && Value(hh) != 12)
  {
    var t := hh + ":" + mm + " AM";
    ReadCheckIn(hh, mm, "AM");
    assert t == hh + ":" + mm + " " + "AM";
    var pieces := Split(t, ' ');
    var hm := Split(pieces[0], ':');
    assert hm[0] == hh && hm[1] == mm;
    assert t != "-" by { assert |t| >= 4; }
    assert LateByClock(t) <==> (Value(hh) == 9 && Value(mm) > 15) || (Value(hh) > 9 && Value(hh) != 12);
  }

  /** Every afternoon check-in is late, 12 PM included */
  lemma AfternoonRule(hh: string, mm: string)
    requires AllDigits(hh) && AllDigits(mm)
    ensures CountedLate(Record("Present", hh + ":" + mm + " PM"))
  {
    var t := hh + ":" + mm + " PM";
    ReadCheckIn(hh, mm, "PM");
    assert t == hh + ":" + mm + " " + "PM";
    assert Split(t, ' ')[1] == "PM";
    assert t != "-" by { assert |t| >= 4; }
  }

  /** The 9:15 threshold, on times as the page renders them */
  lemma MorningThreshold()
    ensures !CountedLate(Record("Present", "9:15 AM"))
    ensures CountedLate(Record("Present", "9:16 AM"))
  {
    MorningRule("9", "15");
    assert "9" + ":" + "15" + " AM" == "9:15 AM";
    MorningRule("9", "16");
    assert "9" + ":" + "16" + " AM" == "9:16 AM";
  }

  /** The 12 o'clock hour: after midnight is on time, after noon is late */
  lemma TwelveOClock()
    ensures !CountedLate(Record("Present", "12:30 AM"))
    ensures CountedLate(Record("Present", "12:05 PM"))
  {
    MorningRule("12", "30");
    assert "12" + ":" + "30" + " AM" == "12:30 AM";
    AfternoonRule("12", "05");
    assert "12" + ":" + "05" + " PM" == "12:05 PM";
  }

  // ---------------------------------------------------------------------
  // Day navigation

  /** Local time in milliseconds; a day is 86 400 000 of them (the model
      has no daylight-saving shifts) */
  type Instant = int

  const DayMillis := 24 * 60 * 60 * 1000

  function DayOf(t: Instant): int {
    t / DayMillis
  }

  /** `subDays(selected, 1)` */
  function PrevDay(t: Instant): (t': Instant)
    ensures DayOf(t') == DayOf(t) - 1 && t' % DayMillis == t % DayMillis
  {
    t - DayMillis
  }

  /** `addDays(selected, 1)` */
  function NextDay(t: Instant): (t': Instant)
    ensures DayOf(t') == DayOf(t) + 1 && t' % DayMillis == t % DayMillis
  {
    t + DayMillis
  }

  lemma PrevNextInverse(t: Instant)
    ensures NextDay(PrevDay(t)) == t && PrevDay(NextDay(t)) == t
  {
  }

  /** `isToday(selected) || isFuture(addDays(selected, 1))` */
  predicate NextDisabled(selected: Instant, now: Instant) {
    DayOf(selected) == DayOf(now) || NextDay(selected) > now
  }

  /** The next button is disabled on today's date and on any later one,
      and enabled two or more days back */
  lemma NextDisabledWhen(selected: Instant, now: Instant)
    ensures DayOf(selected) >= DayOf(now) ==> NextDisabled(selected, now)
    ensures DayOf(selected) <= DayOf(now) - 2 ==> !NextDisabled(selected, now)
  {
    if DayOf(selected) > DayOf(now) {
      assert selected >= DayOf(selected) * DayMillis;
      assert now < (DayOf(now) + 1) * DayMillis;
    }
    if DayOf(selected) <= DayOf(now) - 2 {
      assert selected < (DayOf(selected) + 1) * DayMillis;
      assert now >= DayOf(now) * DayMillis;
    }
  }

  /** Yesterday can also be disabled: a page opened late in the evening and
      still open after midnight keeps that evening's time of day, and a day
      later it is still in the future */
  lemma NextDisabledOnYesterday()
    ensures var (selected, now) := (DayMillis - 60000, DayMillis + 60000);
      DayOf(selected) == DayOf(now) - 1 && NextDisabled(selected, now)
  {
  }

  /** Navigation never selects a moment in the future: going back always
      keeps the selection in the past, and going forward is only possible
      while a day later is not in the future */
  lemma NavigationStaysInPast(selected: Instant, now: Instant)
    requires selected <= now
    ensures PrevDay(selected) <= now
    ensures !NextDisabled(selected, now) ==> NextDay(selected) <= now
  {
  }

  // ---------------------------------------------------------------------
  // The query

  datatype ViewMode = Daily | History

  function ModeName(m: ViewMode): string {
    match m
    case Daily => "daily"
    case History => "history"
  }

  /** The query parameters in the order they are appended; `date` is the
      selected day as `yyyy-MM-dd` */
  function QueryParams(mode: ViewMode, date: string, month: string, year: string): (ps: seq<(string, string)>)
    ensures |ps| >= 1 && ps[0] == ("mode", ModeName(mode))
    ensures mode == Daily ==> ps[1..] == [("date", date)]
    ensures mode == History ==> ps[1..] == [("month", month), ("year", year)]
  {
    [("mode", ModeName(mode))] + if mode == Daily then [("date", date)] else [("month", month), ("year", year)]
  }

  /** `URLSearchParams.get`: the first value under a key */
  function Lookup(ps: seq<(string, string)>, key: string): (v: Option<string>)
    ensures v.None? <==> forall i :: 0 <= i < |ps| ==> ps[i].0 != key
    ensures v.Some? ==> exists i :: 0 <= i < |ps| && ps[i] == (key, v.value)
                                   && forall j :: 0 <= j < i ==> ps[j].0 != key
  {
    if |ps| == 0 then None
    else if ps[0].0 == key then Some(ps[0].1)
    else
      assert forall i :: 1 <= i < |ps| ==> ps[i] == ps[1..][i - 1];
      var v := Lookup(ps[1..], key);
      if v.Some? then
        var i :| 0 <= i < |ps[1..]| && ps[1..][i] == (key, v.value)
                 && forall j :: 0 <= j < i ==> ps[1..][j].0 != key;
        assert ps[i + 1] == (key, v.value);
        assert forall j :: 0 <= j < i + 1 ==> ps[j].0 != key;
        v
      else v
  }

  /** The daily query carries the date and no month or year; the history
      query carries month and year and never a date */
  lemma QueryCarries(mode: ViewMode, date: string, month: string, year: string)
    ensures var ps := QueryParams(mode, date, month, year);
      && Lookup(ps, "mode") == Some(ModeName(mode))
      && (Lookup(ps, "date").Some? <==> mode == Daily)
      && (mode == Daily ==> Lookup(ps, "date") == Some(date) && Lookup(ps, "month").None? && Lookup(ps, "year").None?)
      && (mode == History ==> Lookup(ps, "month") == Some(month) && Lookup(ps, "year") == Some(year))
  {
    var ps := QueryParams(mode, date, month, year);
    if mode == History {
      assert "mode" != "year" by { assert "mode"[0] != "year"[0]; }
      assert "month" != "year";
      assert Lookup(ps[1..][1..], "year") == Some(year);
    }
  }
}
