/** The employee dashboard's attendance widget: the `HH:MM:SS` timer text,
    the sync of the clocked-in state from browser storage, the elapsed-time
    tick, the clock-in/clock-out handlers with their in-flight flag, and the
    relative time of activity items. Clocks are millisecond timestamps
    passed in as parameters. */
module Dashboard {
  import opened Wrappers
  import opened Decimal
  import opened Js

  type Millis = int

  // ---------------------------------------------------------------------
  // formatTime

  /** Hours, minutes and seconds of a duration */
  datatype Clock = Clock(hours: nat, minutes: nat, seconds: nat)

  /** The split `formatTime` makes: whole hours, then whole minutes of the
      rest, then seconds */
  function SplitSeconds(total: nat): (c: Clock)
    ensures c.minutes < 60 && c.seconds < 60
    ensures c.hours * 3600 + c.minutes * 60 + c.seconds == total
  {
    Clock(total / 3600, (total % 3600) / 60, total % 60)
  }

  /** The split is the only one with minutes and seconds below 60 */
  lemma SplitSecondsUnique(total: nat, c: Clock)
    requires c.minutes < 60 && c.seconds < 60
    requires c.hours * 3600 + c.minutes * 60 + c.seconds == total
    ensures c == SplitSeconds(total)
  {
    var d := SplitSeconds(total);
    assert c.minutes * 60 + c.seconds < 3600;
    assert d.minutes * 60 + d.seconds < 3600;
    assert c.hours == d.hours;
    assert c.minutes * 60 + c.seconds == d.minutes * 60 + d.seconds;
  }

  /** `formatTime(totalSeconds)`: each field zero-padded to two digits and
      joined with colons; hours beyond 99 keep all their digits */
  function FormatTime(total: nat): (r: string)
    ensures |r| >= 8 && r[|r| - 6] == ':' && r[|r| - 3] == ':'
    ensures total < 360000 ==> |r| == 8
  {
    var c := SplitSeconds(total);
    var hh, mm, ss := Pad2(FromNat(c.hours)), Pad2(FromNat(c.minutes)), Pad2(FromNat(c.seconds));
    assert |mm| == 2 && |ss| == 2;
    assert total < 360000 ==> c.hours < 100;
    hh + ":" + mm + ":" + ss
  }

  /** Text of the form `<digits>:<2 digits>:<2 digits>` */
  predicate ClockShaped(t: string) {
    && |t| >= 8 && t[|t| - 6] == ':' && t[|t| - 3] == ':'
    && AllDigits(t[..|t| - 6]) && AllDigits(t[|t| - 5..|t| - 3]) && AllDigits(t[|t| - 2..])
  }

  /** The number of seconds a timer text shows */
  function ReadClock(t: string): nat
    requires ClockShaped(t)
  {
    Value(t[..|t| - 6]) * 3600 + Value(t[|t| - 5..|t| - 3]) * 60 + Value(t[|t| - 2..])
  }

  /** The timer text shows exactly the elapsed seconds */
  lemma FormatTimeRoundTrip(total: nat)
    ensures ClockShaped(FormatTime(total)) && ReadClock(FormatTime(total)) == total
  {
    var c := SplitSeconds(total);
    var hh, mm, ss := Pad2(FromNat(c.hours)), Pad2(FromNat(c.minutes)), Pad2(FromNat(c.seconds));
    Pad2Value(FromNat(c.hours));
    Pad2Value(FromNat(c.minutes));
    Pad2Value(FromNat(c.seconds));
    ValueOfFromNat(c.hours);
    ValueOfFromNat(c.minutes);
    ValueOfFromNat(c.seconds);
    ClockFields(hh, mm, ss);
    assert FormatTime(total) == hh + ":" + mm + ":" + ss;
  }

  /** The fields of a joined timer text are where they were put */
  lemma ClockFields(hh: string, mm: string, ss: string)
    requires |hh| >= 2 && |mm| == 2 && |ss| == 2
    requires AllDigits(hh) && AllDigits(mm) && AllDigits(ss)
    ensures var t := hh + ":" + mm + ":" + ss;
      ClockShaped(t) && ReadClock(t) == Value(hh) * 3600 + Value(mm) * 60 + Value(ss)
  {
    ClockSlices(hh, mm, ss);
    ClockOfFields(hh + ":" + mm + ":" + ss, hh, mm, ss);
  }

  lemma ClockOfFields(t: string, hh: string, mm: string, ss: string)
    requires |t| >= 8 && t[|t| - 6] == ':' && t[|t| - 3] == ':'
    requires t[..|t| - 6] == hh && t[|t| - 5..|t| - 3] == mm && t[|t| - 2..] == ss
    requires AllDigits(hh) && AllDigits(mm) && AllDigits(ss)
    ensures ClockShaped(t) && ReadClock(t) == Value(hh) * 3600 + Value(mm) * 60 + Value(ss)
  {
  }

  lemma ClockSlices(hh: string, mm: string, ss: string)
    requires |mm| == 2 && |ss| == 2
    ensures var t := hh + ":" + mm + ":" + ss;
      && |t| == |hh| + 6 && t[|t| - 6] == ':' && t[|t| - 3] == ':'
      && t[..|t| - 6] == hh && t[|t| - 5..|t| - 3] == mm && t[|t| - 2..] == ss
  {
    var rest := ":" + mm + ":" + ss;
    var t := hh + rest;
    assert t == hh + ":" + mm + ":" + ss;
    assert |rest| == 6 && rest[0] == ':' && rest[3] == ':';
    assert rest[1..3] == mm && rest[4..] == ss;
    assert t[..|t| - 6] == hh;
    assert t[|t| - 5..|t| - 3] == rest[1..3];
    assert t[|t| - 2..] == rest[4..];
  }

  /** Different durations show different timer texts */
  lemma FormatTimeInjective(a: nat, b: nat)
    ensures FormatTime(a) == FormatTime(b) <==> a == b
  {
    FormatTimeRoundTrip(a);
    FormatTimeRoundTrip(b);
  }

  // ---------------------------------------------------------------------
  // Elapsed time

  /** `Math.floor((now - start) / 1000)` */
  function Elapsed(now: Millis, start: Millis): (r: int)
    ensures r * 1000 <= now - start < r * 1000 + 1000
    ensures now >= start ==> r >= 0
  {
    (now - start) / 1000
  }

  /** The tick never moves backwards while the clock does not */
  lemma ElapsedMonotone(start: Millis, now1: Millis, now2: Millis)
    requires now1 <= now2
    ensures Elapsed(now1, start) <= Elapsed(now2, start)
  {
  }

  // ---------------------------------------------------------------------
  // The widget's state

  /** The two browser-storage keys the widget shares with other pages */
  datatype Storage = Storage(status: Option<string>, startTime: Option<string>)

  const ClockedIn := "clocked_in"

  /** `isCheckedIn`, `startTime` (a number or null), `elapsedSeconds` and
      `isClockingIn` */
  datatype Widget = Widget(checkedIn: bool, startTime: Option<JsNumber>, elapsed: int, clockingIn: bool)

  const Initial := Widget(false, None, 0, false)

  /** `checkStatus`: checked in exactly when the stored status is
      `"clocked_in"` and a start time is stored; the start time is read with
      `parseInt`. Otherwise the timer is cleared. */
  function CheckStatus(w: Widget, st: Storage): (w': Widget)
    ensures w'.checkedIn <==> st.status == Some(ClockedIn) && Given(st.startTime)
    ensures w'.checkedIn ==> w'.startTime == Some(ParseInt(st.startTime.value)) && w'.elapsed == w.elapsed
    ensures !w'.checkedIn ==> w'.startTime.None? && w'.elapsed == 0
    ensures w'.clockingIn == w.clockingIn
  {
    if st.status == Some(ClockedIn) && Given(st.startTime) then
      w.(checkedIn := true, startTime := Some(ParseInt(st.startTime.value)))
    else
      w.(checkedIn := false, startTime := None, elapsed := 0)
  }

  /** A number is truthy unless it is 0 or NaN */
  predicate TruthyNumber(x: Option<JsNumber>) {
    x.Some? && x.value.Num? && x.value.value != 0
  }

  /** The timer: while checked in with a truthy start, elapsed follows the
      clock; otherwise nothing changes */
  function Tick(w: Widget, now: Millis): (w': Widget)
    ensures w.checkedIn && TruthyNumber(w.startTime) ==> w' == w.(elapsed := Elapsed(now, w.startTime.value.value))
    ensures !(w.checkedIn && TruthyNumber(w.startTime)) ==> w' == w
  {
    if w.checkedIn && TruthyNumber(w.startTime) then w.(elapsed := Elapsed(now, w.startTime.value.value))
    else w
  }

  // ---------------------------------------------------------------------
  // Clocking in and out

  /** What a handler learns from its request: an ok response, an error
      response with an optional `message`, or a rejected fetch */
  datatype Response = ResponseOk | ResponseError(message: Option<string>) | FetchFailed

  datatype Notice = NoNotice | ShowSuccess(text: string) | ShowError(text: string)

  /** The first half of either handler: ignored while a request is in
      flight, otherwise it raises the flag and sends a request */
  function Begin(w: Widget): (res: (Widget, bool))
    ensures w.clockingIn ==> res == (w, false)
    ensures !w.clockingIn ==> res == (w.(clockingIn := true), true)
  {
    if w.clockingIn then (w, false) else (w.(clockingIn := true), true)
  }

  /** A second click while a request is in flight sends nothing */
  lemma DoubleClickSendsOnce(w: Widget)
    ensures var (w1, sent1) := Begin(w);
      var (w2, sent2) := Begin(w1);
      !sent2 && w2 == w1
  {
  }

  /** The second half of `handleClockIn`: on success the widget is checked
      in from `now` and both storage keys are written; on an error response
      the message (or a default) is shown; a rejected fetch shows nothing.
      The in-flight flag is cleared in every case. */
  function FinishClockIn(w: Widget, st: Storage, resp: Response, now: nat): (res: (Widget, Storage, Notice))
    ensures !res.0.clockingIn
    ensures resp == ResponseOk ==>
      && res.0 == Widget(true, Some(Num(now)), w.elapsed, false)
      && res.1 == Storage(Some(ClockedIn), Some(FromNat(now)))
      && res.2 == ShowSuccess("Clocked In Successfully!")
    ensures resp != ResponseOk ==> res.0 == w.(clockingIn := false) && res.1 == st
    ensures resp.ResponseError? ==> res.2 == ShowError(OrDefault(resp.message, "Clock In Failed"))
    ensures resp == FetchFailed ==> res.2 == NoNotice
  {
    match resp
    case ResponseOk =>
      (Widget(true, Some(Num(now)), w.elapsed, false), Storage(Some(ClockedIn), Some(FromNat(now))),
       ShowSuccess("Clocked In Successfully!"))
    case ResponseError(message) =>
      (w.(clockingIn := false), st, ShowError(OrDefault(message, "Clock In Failed")))
    case FetchFailed =>
      (w.(clockingIn := false), st, NoNotice)
  }

  /** The second half of `handleClockOut`: on success the widget is checked
      out, the timer reset and both storage keys removed */
  function FinishClockOut(w: Widget, st: Storage, resp: Response): (res: (Widget, Storage, Notice))
    ensures !res.0.clockingIn
    ensures resp == ResponseOk ==>
      && res.0 == Widget(false, None, 0, false)
      && res.1 == Storage(None, None)
      && res.2 == ShowSuccess("Clocked Out Successfully!")
    ensures resp != ResponseOk ==> res.0 == w.(clockingIn := false) && res.1 == st
    ensures resp.ResponseError? ==> res.2 == ShowError(OrDefault(resp.message, "Clock Out Failed"))
    ensures resp == FetchFailed ==> res.2 == NoNotice
  {
    match resp
    case ResponseOk =>
      (Widget(false, None, 0, false), Storage(None, None), ShowSuccess("Clocked Out Successfully!"))
    case ResponseError(message) =>
      (w.(clockingIn := false), st, ShowError(OrDefault(message, "Clock Out Failed")))
    case FetchFailed =>
      (w.(clockingIn := false), st, NoNotice)
  }

  /** What a clock-in writes to storage, the next sync reads back: the
      widget stays checked in with the same start */
  lemma ClockInSurvivesSync(w: Widget, st: Storage, now: nat)
    ensures var (w1, st1, _) := FinishClockIn(w, st, ResponseOk, now);
      CheckStatus(w1, st1) == w1
  {
    ParseIntFromNat(now);
  }

  /** After a clock-out the next sync keeps the widget checked out */
  lemma ClockOutSurvivesSync(w: Widget, st: Storage)
    ensures var (w1, st1, _) := FinishClockOut(w, st, ResponseOk);
      CheckStatus(w1, st1) == w1
  {
  }

  /** A clock-in, one tick later, shows the seconds since the clock-in */
  lemma TimerAfterClockIn(w: Widget, st: Storage, now: nat, later: Millis)
    requires now != 0
    ensures var (w1, _, _) := FinishClockIn(w, st, ResponseOk, now);
      Tick(w1, later).elapsed == Elapsed(later, now)
  {
  }

  // ---------------------------------------------------------------------
  // formatActivityTime

  const HourMillis := 1000 * 60 * 60

  /** The label of an activity item: within the hour, a number of whole
      hours ago, or (from a day on) the locale date of the item */
  datatype ActivityLabel = JustNow | HoursAgo(hours: nat) | OnDate(at: Millis)

  /** `formatActivityTime`: whole hours since `created`, floored */
  function FormatActivityTime(created: Millis, now: Millis): (r: ActivityLabel)
    ensures r == JustNow <==> now - created < HourMillis
    ensures r.HoursAgo? <==> HourMillis <= now - created < 24 * HourMillis
    ensures r.HoursAgo? ==> 1 <= r.hours < 24 && r.hours * HourMillis <= now - created < (r.hours + 1) * HourMillis
    ensures r.OnDate? <==> now - created >= 24 * HourMillis
    ensures r.OnDate? ==> r.at == created
  {
    var hours := (now - created) / HourMillis;
    if hours < 1 then JustNow
    else if hours < 24 then HoursAgo(hours)
    else OnDate(created)
  }

  /** The text of the first two labels: "Just now", and the hour count in
      decimal followed by "h ago"; the third is locale-dependent */
  function LabelText(l: ActivityLabel): (t: Option<string>)
    ensures t.None? <==> l.OnDate?
    ensures l == JustNow ==> t == Some("Just now")
    ensures l.HoursAgo? ==>
      var n := |t.value| - 5;
      && n >= 1 && t.value[n..] == "h ago"
      && AllDigits(t.value[..n]) && Value(t.value[..n]) == l.hours
  {
    match l
    case JustNow => Some("Just now")
    case HoursAgo(h) =>
      var d := FromNat(h);
      ValueOfFromNat(h);
      assert (d + "h ago")[..|d|] == d;
      assert (d + "h ago")[|d|..] == "h ago";
      Some(d + "h ago")
    case OnDate(_) => None
  }

  function Rank(l: ActivityLabel): nat {
    match l
    case JustNow => 0
    case HoursAgo(h) => h
    case OnDate(_) => 24
  }

  /** As time passes an item's label only ages: just now, then 1h, 2h, ...
      23h ago, then its date */
  lemma ActivityLabelAges(created: Millis, now1: Millis, now2: Millis)
    requires now1 <= now2
    ensures Rank(FormatActivityTime(created, now1)) <= Rank(FormatActivityTime(created, now2))
  {
  }
}
