/**
 * Break windows derived from one roster record (break_scheduler_gui.py,
 * lines 105-121): a shift starts at 08:00 and lasts `hours`; a first Tea
 * break, a Lunch break and a second Tea break are switched on by the
 * thresholds 4 and 7.5 hours and by the lunch marker.
 *
 * Times are minutes after midnight of the shift's day, as exact reals; the
 * schedule shows them as `%H:%M`, which drops seconds and wraps at midnight.
 */
module Breaks {
  import opened Wrappers
  import opened Text

  datatype Kind = Tea | Lunch

  datatype Window = Window(kind: Kind, start: real, end: real)

  /** One row of the schedule: date, name, type, start, end. */
  datatype Entry = Entry(date: string, name: string, kind: string, start: string, end: string)

  /** All five fields hold something: what the manual form insists on before it saves a row. */
  predicate Filled(e: Entry) {
    e.date != [] && e.name != [] && e.kind != [] && e.start != [] && e.end != []
  }

  /** 08:00, the fixed start of every shift. */
  const ShiftStart: real := 480.0

  function ShiftEnd(hours: real): real {
    ShiftStart + 60.0 * hours
  }

  /**
   * The windows of one record, in the order the importer adds them.
   * They never overlap and each one ends after it starts.
   */
  function Windows(hours: real, hasLunch: bool): (ws: seq<Window>)
    ensures |ws| <= 3
    ensures forall k :: 0 <= k < |ws| ==> ws[k].start < ws[k].end
    ensures forall a, b :: 0 <= a < b < |ws| ==> ws[a].end <= ws[b].start
  {
    var tea := if hours >= 4.0 then
      var t1 := ShiftStart + 120.0;
      [Window(Tea, t1, t1 + 15.0)]
    else [];
    var lunch := if hasLunch then
      var l := ShiftStart + 240.0;
      [Window(Lunch, l, l + 30.0)]
    else [];
    var tea2 := if hours >= 7.5 && hasLunch then
      var t2End := ShiftEnd(hours) - 60.0;
      [Window(Tea, t2End - 15.0, t2End)]
    else [];
    tea + lunch + tea2
  }

  /** The first Tea break, 10:00 to 10:15, is there exactly when the shift lasts 4 hours or more. */
  lemma TeaBreak(hours: real, hasLunch: bool)
    ensures var ws := Windows(hours, hasLunch);
      hours >= 4.0 <==> (|ws| > 0 && ws[0] == Window(Tea, 600.0, 615.0))
  {
  }

  /** The Lunch break, 12:00 to 12:30, is there exactly when the record has the lunch marker, whatever the hours. */
  lemma LunchBreak(hours: real, hasLunch: bool)
    ensures var ws := Windows(hours, hasLunch);
      hasLunch <==> Window(Lunch, 720.0, 750.0) in ws
    ensures forall w :: w in Windows(hours, hasLunch) && w.kind == Lunch ==> w == Window(Lunch, 720.0, 750.0)
  {
  }

  /**
   * The second Tea break is there exactly when the shift lasts 7.5 hours or
   * more and the record has lunch; it is then the last of three windows and
   * ends one hour before the end of the shift, 15 minutes after it starts.
   */
  lemma SecondTeaBreak(hours: real, hasLunch: bool)
    ensures var ws := Windows(hours, hasLunch);
      (hours >= 7.5 && hasLunch) <==> |ws| == 3
    ensures var ws := Windows(hours, hasLunch);
      |ws| == 3 ==> ws[2] == Window(Tea, ShiftEnd(hours) - 75.0, ShiftEnd(hours) - 60.0)
  {
  }

  /** A record emits nothing exactly when it is under 4 hours and has no lunch. */
  lemma NoBreaks(hours: real, hasLunch: bool)
    ensures Windows(hours, hasLunch) == [] <==> hours < 4.0 && !hasLunch
  {
  }

  /** From 4.5 hours on, every window lies inside the shift. */
  lemma WindowsWithinShift(hours: real, hasLunch: bool)
    requires hours >= 4.5
    ensures forall w :: w in Windows(hours, hasLunch) ==> ShiftStart <= w.start && w.end <= ShiftEnd(hours)
  {
  }

  /** A short shift with the lunch marker still gets its Lunch break at 12:00, after the shift has ended. */
  lemma LunchAfterShortShift()
    ensures Window(Lunch, 720.0, 750.0) in Windows(2.0, true)
    ensures ShiftEnd(2.0) < 720.0
  {
    assert Windows(2.0, true) == [Window(Lunch, 720.0, 750.0)];
  }

  // ---------------------------------------------------------------------------
  // %H:%M
  // ---------------------------------------------------------------------------

  /** `strftime("%H:%M")` of a time `m` minutes after midnight of the shift's day. */
  function Clock(m: real): (r: string)
    ensures |r| == 5 && r[2] == ':'
    ensures forall k :: 0 <= k < 5 && k != 2 ==> IsDigit(r[k])
    ensures r[0] <= '2' && (r[0] == '2' ==> r[1] <= '3') && r[3] <= '5'
  {
    var t := m.Floor % 1440;
    TwoDigits(t / 60);
    TwoDigits(t % 60);
    Decimal(t / 60, 2) + ":" + Decimal(t % 60, 2)
  }

  /** The hour field reads as less than 24 and the minute field as less than 60. */
  lemma ClockFields(m: real)
    ensures var r := Clock(m); DecimalValue(r[..2]) < 24 && DecimalValue(r[3..]) < 60
  {
    ClockRoundTrip(m);
  }

  /** Reads `HH:MM` back as minutes after midnight; fails on anything else. */
  function ClockMinutes(s: string): Option<int>
  {
    if |s| == 5 && s[2] == ':' && (forall k :: 0 <= k < 5 && k != 2 ==> IsDigit(s[k])) then
      var h := DecimalValue(s[..2]);
      var m := DecimalValue(s[3..]);
      Some(h * 60 + m)
    else None
  }

  /** The time shown is the whole minute of the day the window starts or ends in. */
  lemma {:induction false} ClockRoundTrip(m: real)
    ensures ClockMinutes(Clock(m)) == Some(m.Floor % 1440)
  {
    var t := m.Floor % 1440;
    var s := Clock(m);
    assert s[..2] == Decimal(t / 60, 2);
    assert s[3..] == Decimal(t % 60, 2);
    DecimalRoundTrip(t / 60, 2);
    DecimalRoundTrip(t % 60, 2);
  }

  /** Hour `h` and minute `m` of the day are shown as the two digits of each. */
  lemma ClockAt(h: nat, m: nat)
    requires h < 24 && m < 60
    ensures Clock((60 * h + m) as real) == [DigitChar(h / 10), DigitChar(h % 10), ':', DigitChar(m / 10), DigitChar(m % 10)]
  {
    var t := 60 * h + m;
    assert (t as real).Floor == t;
    assert t % 1440 == t && t / 60 == h && t % 60 == m;
    TwoDigits(h);
    TwoDigits(m);
  }

  /** `%H:%M` shows the time of day only: a day later reads the same. */
  lemma ClockIsDaily(m: real)
    ensures Clock(m + 1440.0) == Clock(m)
  {
    assert (m + 1440.0).Floor == m.Floor + 1440;
    assert (m.Floor + 1440) % 1440 == m.Floor % 1440;
  }

  /** The first Tea break is shown as 10:00-10:15. */
  lemma FirstTeaShown()
    ensures Clock(600.0) == "10:00" && Clock(615.0) == "10:15"
  {
    ClockAt(10, 0);
    ClockAt(10, 15);
    assert DigitChar(0) == '0' && DigitChar(1) == '1' && DigitChar(5) == '5';
  }

  /** The Lunch break is shown as 12:00-12:30. */
  lemma LunchShown()
    ensures Clock(720.0) == "12:00" && Clock(750.0) == "12:30"
  {
    ClockAt(12, 0);
    ClockAt(12, 30);
    assert DigitChar(0) == '0' && DigitChar(1) == '1' && DigitChar(2) == '2' && DigitChar(3) == '3';
  }

  /** The second Tea break of an 8-hour shift is shown as 14:45-15:00. */
  lemma SecondTeaShownAtEight()
    ensures Clock(885.0) == "14:45" && Clock(900.0) == "15:00"
  {
    ClockAt(14, 45);
    ClockAt(15, 0);
    assert DigitChar(0) == '0' && DigitChar(1) == '1' && DigitChar(4) == '4' && DigitChar(5) == '5';
  }

  // ---------------------------------------------------------------------------
  // Schedule rows
  // ---------------------------------------------------------------------------

  function KindName(k: Kind): string {
    match k
    case Tea => "Tea"
    case Lunch => "Lunch"
  }

  function EntryOf(date: string, name: string, w: Window): Entry {
    Entry(date, name, KindName(w.kind), Clock(w.start), Clock(w.end))
  }

  /**
   * The rows `add_entry` receives for one record: one per window, in window
   * order, every one carrying the record's date and name and the kind of
   * its window.
   */
  function BreakEntries(date: string, name: string, hours: real, hasLunch: bool): (es: seq<Entry>)
    ensures |es| == |Windows(hours, hasLunch)| <= 3
    ensures forall k :: 0 <= k < |es| ==>
      es[k].date == date && es[k].name == name && es[k].kind == KindName(Windows(hours, hasLunch)[k].kind)
    ensures date != [] && name != [] ==> forall k :: 0 <= k < |es| ==> Filled(es[k])
  {
    var ws := Windows(hours, hasLunch);
    seq(|ws|, k requires 0 <= k < |ws| => EntryOf(date, name, ws[k]))
  }

  /** Each row's start and end read back as the minute of the day its window starts and ends in. */
  lemma BreakEntriesTimes(date: string, name: string, hours: real, hasLunch: bool)
    ensures var es, ws := BreakEntries(date, name, hours, hasLunch), Windows(hours, hasLunch);
      forall k :: 0 <= k < |es| ==>
        ClockMinutes(es[k].start) == Some(ws[k].start.Floor % 1440) &&
        ClockMinutes(es[k].end) == Some(ws[k].end.Floor % 1440)
  {
    var ws := Windows(hours, hasLunch);
    forall k | 0 <= k < |ws|
      ensures ClockMinutes(Clock(ws[k].start)) == Some(ws[k].start.Floor % 1440)
      ensures ClockMinutes(Clock(ws[k].end)) == Some(ws[k].end.Floor % 1440)
    {
      ClockRoundTrip(ws[k].start);
      ClockRoundTrip(ws[k].end);
    }
  }

  /** 8 hours with lunch: Tea 10:00-10:15, Lunch 12:00-12:30, Tea 14:45-15:00. */
  lemma EightHoursWithLunch(date: string, name: string)
    ensures BreakEntries(date, name, 8.0, true) == [
      Entry(date, name, "Tea", "10:00", "10:15"),
      Entry(date, name, "Lunch", "12:00", "12:30"),
      Entry(date, name, "Tea", "14:45", "15:00")]
  {
    var ws := Windows(8.0, true);
    assert ws == [Window(Tea, 600.0, 615.0), Window(Lunch, 720.0, 750.0), Window(Tea, 885.0, 900.0)];
    FirstTeaShown();
    LunchShown();
    SecondTeaShownAtEight();
    ThreeRows(date, name, ws);
  }

  /** The rows of three windows, one by one. */
  lemma ThreeRows(date: string, name: string, ws: seq<Window>)
    requires |ws| == 3
    ensures seq(3, k requires 0 <= k < 3 => EntryOf(date, name, ws[k])) ==
      [EntryOf(date, name, ws[0]), EntryOf(date, name, ws[1]), EntryOf(date, name, ws[2])]
  {
  }

  /** 5 hours without lunch: only Tea 10:00-10:15. */
  lemma FiveHoursNoLunch(date: string, name: string)
    ensures BreakEntries(date, name, 5.0, false) == [Entry(date, name, "Tea", "10:00", "10:15")]
  {
    assert Windows(5.0, false) == [Window(Tea, 600.0, 615.0)];
    FirstTeaShown();
  }

  /** 3 hours without lunch: nothing. */
  lemma ThreeHoursNoLunch(date: string, name: string)
    ensures BreakEntries(date, name, 3.0, false) == []
  {
  }

  /** 7.4 hours with lunch: Tea and Lunch, no second Tea. */
  lemma JustUnderSecondTea(date: string, name: string)
    ensures BreakEntries(date, name, 7.4, true) == [
      Entry(date, name, "Tea", "10:00", "10:15"),
      Entry(date, name, "Lunch", "12:00", "12:30")]
  {
    var ws := Windows(7.4, true);
    assert ws == [Window(Tea, 600.0, 615.0), Window(Lunch, 720.0, 750.0)];
    FirstTeaShown();
    LunchShown();
    TwoRows(date, name, ws);
  }

  /** The rows of two windows, one by one. */
  lemma TwoRows(date: string, name: string, ws: seq<Window>)
    requires |ws| == 2
    ensures seq(2, k requires 0 <= k < 2 => EntryOf(date, name, ws[k])) ==
      [EntryOf(date, name, ws[0]), EntryOf(date, name, ws[1])]
  {
  }

  /** 23:51 and, a day later, 00:06. */
  lemma MidnightShown()
    ensures Clock(1431.0) == "23:51" && Clock(1446.0) == "00:06"
  {
    ClockIsDaily(6.0);
    ClockAt(23, 51);
    ClockAt(0, 6);
    assert DigitChar(0) == '0' && DigitChar(1) == '1' && DigitChar(2) == '2' && DigitChar(3) == '3';
    assert DigitChar(5) == '5' && DigitChar(6) == '6';
  }

  /**
   * A shift of 17.1 hours puts the second Tea break across midnight: it is
   * shown as starting at 23:51 and ending at 00:06.
   */
  lemma SecondTeaAcrossMidnight(date: string, name: string)
    ensures BreakEntries(date, name, 17.1, true)[2] == Entry(date, name, "Tea", "23:51", "00:06")
  {
    var w := Windows(17.1, true)[2];
    assert w == Window(Tea, 1431.0, 1446.0);
    assert BreakEntries(date, name, 17.1, true)[2] == EntryOf(date, name, w);
    MidnightShown();
  }
}
