/**
 * The roster scan of `import_pdf` (break_scheduler_gui.py, lines 79-122),
 * as functions.
 *
 * Each page is a sequence of text lines. A line holding `Date:` sets the
 * page's date register (when the date parses); a line with a comma and a
 * digit whose stripped text splits on its last space is an employee record
 * `<name> <hours>`; the next line holding `X` marks a lunch taker. The set of
 * (date, name) pairs already handled spans the whole import, so the first
 * record of a pair wins and later ones emit nothing. Hours that do not parse
 * abort the import, keeping what was added before.
 *
 * `ScanPage`/`ImportFrom` follow the source's loop, register by register.
 * `DateAt`/`EventAt`/`Dedup` are an independent reading of the same rules:
 * the date of a line is found by looking back up the page, and
 * deduplication is a filter over the sequence of record events.
 * `ImportMatchesReference` proves the two agree.
 */
module Roster {
  import opened Wrappers
  import opened Text
  import opened Breaks

  // ---------------------------------------------------------------------------
  // Data
  // ---------------------------------------------------------------------------

  type Year = y: int | 1 <= y <= 9999 witness 1
  type Month = m: int | 1 <= m <= 12 witness 1
  type Day = d: int | 1 <= d <= 31 witness 1

  /** A calendar date, as Python's `date` holds it. */
  datatype Date = Date(year: Year, month: Month, day: Day)

  /** The date register and the employee name: what deduplication compares. */
  type Key = (Option<Date>, string)

  /** One employee's hours and lunch flag on one date. */
  datatype Record = Record(date: Option<Date>, name: string, hours: real, hasLunch: bool)

  function KeyOf(r: Record): Key {
    (r.date, r.name)
  }

  /**
   * The two parses the scan depends on: `strptime(..., "%A, %d %B %Y")` and
   * `float(...)`, each `None` where the library raises.
   */
  datatype Parsers = Parsers(date: string -> Option<Date>, hours: string -> Option<real>)

  /** What one line of a page is to the scan. */
  datatype Line = DateLine(date: Option<Date>) | RecordLine(name: string, hoursText: string) | OtherLine

  const DateMarker: string := "Date:"

  /** Python's `str(current_date)`: `None` before any date, `YYYY-MM-DD` after one. */
  function DateText(d: Option<Date>): (r: string)
    ensures |r| == 4 || |r| == 10
    ensures d.None? ==> r == "None"
  {
    match d
    case None => "None"
    case Some(x) => Decimal(x.year, 4) + "-" + Decimal(x.month, 2) + "-" + Decimal(x.day, 2)
  }

  /** A date prints as `YYYY-MM-DD`: digit fields that read back as its year, month and day. */
  lemma DateTextFields(d: Date)
    ensures var r := DateText(Some(d));
      && |r| == 10 && r[4] == '-' && r[7] == '-'
      && (forall k :: 0 <= k < 10 && k != 4 && k != 7 ==> IsDigit(r[k]))
      && DecimalValue(r[..4]) == d.year && DecimalValue(r[5..7]) == d.month && DecimalValue(r[8..]) == d.day
  {
    var r := DateText(Some(d));
    assert r[..4] == Decimal(d.year, 4);
    assert r[5..7] == Decimal(d.month, 2);
    assert r[8..] == Decimal(d.day, 2);
    assert Pow10(4) == 10000 && Pow10(2) == 100;
    DecimalRoundTrip(d.year, 4);
    DecimalRoundTrip(d.month, 2);
    DecimalRoundTrip(d.day, 2);
  }

  /** Different date registers print differently, so entries keep the key they came from. */
  lemma DateTextInjective(a: Option<Date>, b: Option<Date>)
    requires DateText(a) == DateText(b)
    ensures a == b
  {
    if a.Some? && b.Some? {
      var s, t := DateText(a), DateText(b);
      assert s[..4] == Decimal(a.value.year, 4) && t[..4] == Decimal(b.value.year, 4);
      assert s[5..7] == Decimal(a.value.month, 2) && t[5..7] == Decimal(b.value.month, 2);
      assert s[8..] == Decimal(a.value.day, 2) && t[8..] == Decimal(b.value.day, 2);
      assert Pow10(4) == 10000 && Pow10(2) == 100;
      DecimalInjective(a.value.year, b.value.year, 4);
      DecimalInjective(a.value.month, b.value.month, 2);
      DecimalInjective(a.value.day, b.value.day, 2);
    }
  }

  // ---------------------------------------------------------------------------
  // One line
  // ---------------------------------------------------------------------------

  /**
   * How the scan reads one line (lines 88-96). A line holding `Date:` is a
   * date line and never a record, whatever else it holds; a record needs a
   * comma, a digit and a space inside its stripped text, and its name is
   * never empty.
   */
  function Classify(line: string, parseDate: string -> Option<Date>): (k: Line)
    ensures k.DateLine? <==> Contains(line, DateMarker)
    ensures k.DateLine? ==> k.date == parseDate(Strip(SecondPiece(line, DateMarker)))
    ensures k.RecordLine? <==>
      !Contains(line, DateMarker) && ',' in line && HasDigit(line) && ' ' in Strip(line)
    ensures k.RecordLine? ==>
      var t := Strip(line);
      var cut := |t| - |k.hoursText| - 1;
      && 0 <= cut && t == t[..cut] + " " + k.hoursText && ' ' !in k.hoursText
      && k.name == Strip(t[..cut]) && k.name != [] && k.hoursText != []
  {
    if Contains(line, DateMarker) then
      DateLine(parseDate(Strip(SecondPiece(line, DateMarker))))
    else if ',' in line && HasDigit(line) then
      var t := Strip(line);
      var parts := RSplitOnce(t, ' ');
      if |parts| == 2 then
        SplitStripped(t);
        RecordLine(Strip(parts[0]), parts[1])
      else OtherLine
    else OtherLine
  }

  /** Stripped text that holds a space splits into a non-blank name and a non-empty last word. */
  lemma SplitStripped(t: string)
    requires t != [] && !IsSpace(t[0]) && !IsSpace(t[|t| - 1]) && ' ' in t
    ensures var parts := RSplitOnce(t, ' ');
      var cut := |t| - |parts[1]| - 1;
      && |parts| == 2 && 0 <= cut && t[..cut] == parts[0] && t == t[..cut] + " " + parts[1]
      && ' ' !in parts[1] && Strip(parts[0]) != [] && parts[1] != []
  {
    var parts := RSplitOnce(t, ' ');
    assert t == parts[0] + [' '] + parts[1];
    assert |parts[0]| == |t| - |parts[1]| - 1;
    assert parts[0] != [] && parts[0][0] == t[0];
    assert t[..|parts[0]|] == parts[0];
  }

  /** The look-ahead of lines 102-104: the next line on the same page holds an `X`. */
  predicate LunchMarked(lines: seq<string>, i: nat) {
    i + 1 < |lines| && 'X' in lines[i + 1]
  }

  /** The last line of a page never has a lunch marker after it. */
  lemma LastLineHasNoLunch(lines: seq<string>)
    requires lines != []
    ensures !LunchMarked(lines, |lines| - 1)
  {
  }

  // ---------------------------------------------------------------------------
  // The scan, as the source runs it
  // ---------------------------------------------------------------------------

  /** Where an import ends: every page scanned, or stopped at hours that did not parse. */
  datatype Outcome = Finished(seen: set<Key>, records: seq<Record>) | Aborted(records: seq<Record>)

  /**
   * Lines `i..` of one page, with the date register `date`, the pairs already
   * `seen` and the records `recs` kept so far.
   */
  function ScanPage(lines: seq<string>, i: nat, date: Option<Date>, seen: set<Key>, recs: seq<Record>, ps: Parsers): (o: Outcome)
    requires i <= |lines|
    decreases |lines| - i
    ensures recs <= o.records
    ensures o.Finished? ==> seen <= o.seen
  {
    if i == |lines| then Finished(seen, recs)
    else match Classify(lines[i], ps.date)
      case DateLine(d) => ScanPage(lines, i + 1, if d.Some? then d else date, seen, recs, ps)
      case OtherLine => ScanPage(lines, i + 1, date, seen, recs, ps)
      case RecordLine(name, text) =>
        match ps.hours(text)
        case None => Aborted(recs)
        case Some(h) =>
          if (date, name) in seen then ScanPage(lines, i + 1, date, seen, recs, ps)
          else ScanPage(lines, i + 1, date, seen + {(date, name)},
                        recs + [Record(date, name, h, LunchMarked(lines, i))], ps)
  }

  /** Pages `p..`, each starting with an empty date register. */
  function ImportFrom(pages: seq<seq<string>>, p: nat, seen: set<Key>, recs: seq<Record>, ps: Parsers): (o: Outcome)
    requires p <= |pages|
    decreases |pages| - p, 1
    ensures recs <= o.records
    ensures o.Finished? ==> seen <= o.seen
  {
    if p == |pages| then Finished(seen, recs)
    else NextPage(pages, p, ScanPage(pages[p], 0, None, seen, recs, ps), ps)
  }

  /** Carries the outcome of page `p` on to page `p + 1`. */
  function NextPage(pages: seq<seq<string>>, p: nat, o: Outcome, ps: Parsers): (o': Outcome)
    requires p < |pages|
    decreases |pages| - p, 0
    ensures o.records <= o'.records
    ensures o'.Finished? ==> o.Finished? && o.seen <= o'.seen
  {
    match o
    case Aborted(rs) => Aborted(rs)
    case Finished(s, rs) => ImportFrom(pages, p + 1, s, rs, ps)
  }

  /** The records one import keeps, from an empty `seen` set. */
  function Import(pages: seq<seq<string>>, ps: Parsers): Outcome {
    ImportFrom(pages, 0, {}, [], ps)
  }

  /** A record whose pair was seen before (and whose hours parse) changes nothing. */
  lemma DuplicateEmitsNothing(lines: seq<string>, i: nat, date: Option<Date>, seen: set<Key>, recs: seq<Record>, ps: Parsers)
    requires i < |lines|
    requires Classify(lines[i], ps.date).RecordLine?
    requires ps.hours(Classify(lines[i], ps.date).hoursText).Some?
    requires (date, Classify(lines[i], ps.date).name) in seen
    ensures ScanPage(lines, i, date, seen, recs, ps) == ScanPage(lines, i + 1, date, seen, recs, ps)
  {
  }

  /** Hours that do not parse stop the import with the records kept so far, even on a duplicate. */
  lemma BadHoursAbort(lines: seq<string>, i: nat, date: Option<Date>, seen: set<Key>, recs: seq<Record>, ps: Parsers)
    requires i < |lines|
    requires Classify(lines[i], ps.date).RecordLine?
    requires ps.hours(Classify(lines[i], ps.date).hoursText).None?
    ensures ScanPage(lines, i, date, seen, recs, ps) == Aborted(recs)
  {
  }

  /** A date line that does not parse leaves the register as it was. */
  lemma FailedDateKeepsRegister(lines: seq<string>, i: nat, date: Option<Date>, seen: set<Key>, recs: seq<Record>, ps: Parsers)
    requires i < |lines|
    requires Classify(lines[i], ps.date) == DateLine(None)
    ensures ScanPage(lines, i, date, seen, recs, ps) == ScanPage(lines, i + 1, date, seen, recs, ps)
  {
  }

  // ---------------------------------------------------------------------------
  // The reference reading
  // ---------------------------------------------------------------------------

  /** The date in force at line `j`: the last date above it on the page that parsed, or none. */
  function DateAt(lines: seq<string>, j: nat, parseDate: string -> Option<Date>): Option<Date>
    requires j <= |lines|
  {
    if j == 0 then None
    else match Classify(lines[j - 1], parseDate)
      case DateLine(Some(d)) => Some(d)
      case _ => DateAt(lines, j - 1, parseDate)
  }

  /** What line `j` contributes, before deduplication. */
  datatype Event = Skip | BadHours | Found(rec: Record)

  function EventAt(lines: seq<string>, j: nat, ps: Parsers): Event
    requires j < |lines|
  {
    match Classify(lines[j], ps.date)
    case RecordLine(name, text) =>
      (match ps.hours(text)
       case None => BadHours
       case Some(h) => Found(Record(DateAt(lines, j, ps.date), name, h, LunchMarked(lines, j))))
    case _ => Skip
  }

  function PageEvents(lines: seq<string>, ps: Parsers): (evs: seq<Event>)
    ensures |evs| == |lines|
    ensures forall j :: 0 <= j < |lines| ==> evs[j] == EventAt(lines, j, ps)
  {
    seq(|lines|, j requires 0 <= j < |lines| => EventAt(lines, j, ps))
  }

  function AllEvents(pages: seq<seq<string>>, ps: Parsers): seq<Event> {
    if pages == [] then [] else PageEvents(pages[0], ps) + AllEvents(pages[1..], ps)
  }

  /**
   * First writer wins: keep the first record of every pair not yet seen,
   * stop at the first record whose hours do not parse.
   */
  function Dedup(evs: seq<Event>, seen: set<Key>, recs: seq<Record>): Outcome {
    if evs == [] then Finished(seen, recs)
    else match evs[0]
      case Skip => Dedup(evs[1..], seen, recs)
      case BadHours => Aborted(recs)
      case Found(r) =>
        if KeyOf(r) in seen then Dedup(evs[1..], seen, recs)
        else Dedup(evs[1..], seen + {KeyOf(r)}, recs + [r])
  }

  /**
   * One line of the scan, with the register holding the looked-back date,
   * does what the line's event says.
   */
  lemma ScanOneLine(lines: seq<string>, i: nat, seen: set<Key>, recs: seq<Record>, ps: Parsers)
    requires i < |lines|
    ensures var now, next := DateAt(lines, i, ps.date), DateAt(lines, i + 1, ps.date);
      match EventAt(lines, i, ps)
      case Skip => ScanPage(lines, i, now, seen, recs, ps) == ScanPage(lines, i + 1, next, seen, recs, ps)
      case BadHours => ScanPage(lines, i, now, seen, recs, ps) == Aborted(recs)
      case Found(r) =>
        ScanPage(lines, i, now, seen, recs, ps) ==
          if KeyOf(r) in seen then ScanPage(lines, i + 1, next, seen, recs, ps)
          else ScanPage(lines, i + 1, next, seen + {KeyOf(r)}, recs + [r], ps)
  {
    var now := DateAt(lines, i, ps.date);
    match Classify(lines[i], ps.date)
    case DateLine(d) =>
      assert EventAt(lines, i, ps) == Skip;
      assert DateAt(lines, i + 1, ps.date) == if d.Some? then d else now;
    case OtherLine =>
      assert EventAt(lines, i, ps) == Skip;
      assert DateAt(lines, i + 1, ps.date) == now;
    case RecordLine(name, text) =>
      assert DateAt(lines, i + 1, ps.date) == now;
      match ps.hours(text)
      case None =>
        assert EventAt(lines, i, ps) == BadHours;
      case Some(h) =>
        var r := Record(now, name, h, LunchMarked(lines, i));
        assert EventAt(lines, i, ps) == Found(r);
        assert KeyOf(r) == (now, name);
  }

  /** The register the scan carries equals the date found by looking back up the page. */
  lemma {:induction false} ScanPageIsDedup(lines: seq<string>, i: nat, seen: set<Key>, recs: seq<Record>, ps: Parsers)
    requires i <= |lines|
    decreases |lines| - i
    ensures ScanPage(lines, i, DateAt(lines, i, ps.date), seen, recs, ps) == Dedup(PageEvents(lines, ps)[i..], seen, recs)
  {
    var evs := PageEvents(lines, ps)[i..];
    if i < |lines| {
      assert evs[0] == EventAt(lines, i, ps);
      assert evs[1..] == PageEvents(lines, ps)[i + 1..];
      ScanOneLine(lines, i, seen, recs, ps);
      match EventAt(lines, i, ps)
      case Skip =>
        ScanPageIsDedup(lines, i + 1, seen, recs, ps);
      case BadHours =>
      case Found(r) =>
        if KeyOf(r) in seen {
          ScanPageIsDedup(lines, i + 1, seen, recs, ps);
        } else {
          ScanPageIsDedup(lines, i + 1, seen + {KeyOf(r)}, recs + [r], ps);
        }
    }
  }

  /** Deduplicating two runs of events is deduplicating the first, then the second from where it left off. */
  lemma {:induction false} DedupAppend(a: seq<Event>, b: seq<Event>, seen: set<Key>, recs: seq<Record>)
    ensures Dedup(a + b, seen, recs) ==
      match Dedup(a, seen, recs)
      case Aborted(rs) => Aborted(rs)
      case Finished(s, rs) => Dedup(b, s, rs)
  {
    if a != [] {
      assert (a + b)[0] == a[0] && (a + b)[1..] == a[1..] + b;
      match a[0]
      case Skip => DedupAppend(a[1..], b, seen, recs);
      case BadHours =>
      case Found(r) =>
        if KeyOf(r) in seen {
          DedupAppend(a[1..], b, seen, recs);
        } else {
          DedupAppend(a[1..], b, seen + {KeyOf(r)}, recs + [r]);
        }
    } else {
      assert a + b == b;
    }
  }

  lemma {:induction false} ImportFromIsDedup(pages: seq<seq<string>>, p: nat, seen: set<Key>, recs: seq<Record>, ps: Parsers)
    requires p <= |pages|
    decreases |pages| - p
    ensures ImportFrom(pages, p, seen, recs, ps) == Dedup(AllEvents(pages[p..], ps), seen, recs)
  {
    if p < |pages| {
      assert pages[p..][0] == pages[p] && pages[p..][1..] == pages[p + 1..];
      var page := PageEvents(pages[p], ps);
      assert AllEvents(pages[p..], ps) == page + AllEvents(pages[p + 1..], ps);
      ScanPageIsDedup(pages[p], 0, seen, recs, ps);
      assert page[0..] == page;
      DedupAppend(page, AllEvents(pages[p + 1..], ps), seen, recs);
      match Dedup(page, seen, recs)
      case Aborted(rs) =>
      case Finished(s, rs) => ImportFromIsDedup(pages, p + 1, s, rs, ps);
    }
  }

  /** The reference reading stops exactly when some record's hours do not parse. */
  lemma {:induction false} DedupAbortsOnBadHours(evs: seq<Event>, seen: set<Key>, recs: seq<Record>)
    ensures Dedup(evs, seen, recs).Aborted? <==> BadHours in evs
  {
    if evs != [] {
      assert evs == [evs[0]] + evs[1..];
      match evs[0]
      case Skip => DedupAbortsOnBadHours(evs[1..], seen, recs);
      case BadHours =>
      case Found(r) =>
        if KeyOf(r) in seen {
          DedupAbortsOnBadHours(evs[1..], seen, recs);
        } else {
          DedupAbortsOnBadHours(evs[1..], seen + {KeyOf(r)}, recs + [r]);
        }
    }
  }

  /** An import finishes exactly when the hours of every record line on the roster parse. */
  lemma ImportFinishesUnlessBadHours(pages: seq<seq<string>>, ps: Parsers)
    ensures Import(pages, ps).Finished? <==> BadHours !in AllEvents(pages, ps)
  {
    ImportMatchesReference(pages, ps);
    DedupAbortsOnBadHours(AllEvents(pages, ps), {}, []);
  }

  /** The source's register-and-set scan computes the reference reading. */
  lemma ImportMatchesReference(pages: seq<seq<string>>, ps: Parsers)
    ensures Import(pages, ps) == Dedup(AllEvents(pages, ps), {}, [])
  {
    ImportFromIsDedup(pages, 0, {}, [], ps);
    assert pages[0..] == pages;
  }

  // ---------------------------------------------------------------------------
  // First writer wins
  // ---------------------------------------------------------------------------

  ghost function FoundKeys(evs: seq<Event>): set<Key> {
    set j | 0 <= j < |evs| && evs[j].Found? :: KeyOf(evs[j].rec)
  }

  ghost function KeySet(rs: seq<Record>): set<Key> {
    set r | r in rs :: KeyOf(r)
  }

  ghost predicate DistinctKeys(rs: seq<Record>) {
    forall a, b :: 0 <= a < b < |rs| ==> KeyOf(rs[a]) != KeyOf(rs[b])
  }

  /** Event `j` is a record, and no record before it has the same pair. */
  ghost predicate FirstOfKey(evs: seq<Event>, j: nat)
    requires j < |evs|
  {
    evs[j].Found? && forall i :: 0 <= i < j ==> !(evs[i].Found? && KeyOf(evs[i].rec) == KeyOf(evs[j].rec))
  }

  lemma FoundKeysCons(evs: seq<Event>)
    requires evs != []
    ensures FoundKeys(evs) == FoundKeys(evs[1..]) + (if evs[0].Found? then {KeyOf(evs[0].rec)} else {})
  {
    var rest := evs[1..];
    forall k | k in FoundKeys(evs)
      ensures k in FoundKeys(rest) + (if evs[0].Found? then {KeyOf(evs[0].rec)} else {})
    {
      var j :| 0 <= j < |evs| && evs[j].Found? && KeyOf(evs[j].rec) == k;
      if j > 0 {
        assert rest[j - 1] == evs[j];
      }
    }
    forall k | k in FoundKeys(rest)
      ensures k in FoundKeys(evs)
    {
      var j :| 0 <= j < |rest| && rest[j].Found? && KeyOf(rest[j].rec) == k;
      assert evs[j + 1] == rest[j];
    }
  }

  /**
   * What deduplication keeps from `evs`: records with distinct pairs, none
   * of them seen before, each one the first record of its pair among the
   * events; when no hours fail, one record for every new pair and the pairs
   * of all records added to `seen`.
   */
  lemma {:induction false} DedupKeepsFirst(evs: seq<Event>, seen: set<Key>, recs: seq<Record>)
    decreases |evs|
    ensures recs <= Dedup(evs, seen, recs).records
    ensures var kept := Dedup(evs, seen, recs).records[|recs|..];
      && DistinctKeys(kept)
      && (forall r :: r in kept ==> KeyOf(r) !in seen)
      && (forall r :: r in kept ==> exists j :: 0 <= j < |evs| && evs[j] == Found(r) && FirstOfKey(evs, j))
    ensures var o := Dedup(evs, seen, recs);
      o.Finished? ==> o.seen == seen + FoundKeys(evs) && KeySet(o.records[|recs|..]) == FoundKeys(evs) - seen
  {
    var o := Dedup(evs, seen, recs);
    if evs == [] {
      assert o.records[|recs|..] == [];
      assert FoundKeys(evs) == {};
    } else {
      var rest := evs[1..];
      FoundKeysCons(evs);
      match evs[0]
      case BadHours =>
        assert o.records[|recs|..] == [];
      case Skip =>
        DedupKeepsFirst(rest, seen, recs);
        ShiftFirst(evs, seen, recs, seen, recs);
      case Found(r0) =>
        if KeyOf(r0) in seen {
          DedupKeepsFirst(rest, seen, recs);
          ShiftFirst(evs, seen, recs, seen, recs);
        } else {
          var recs' := recs + [r0];
          var seen' := seen + {KeyOf(r0)};
          DedupKeepsFirst(rest, seen', recs');
          var kept' := o.records[|recs'|..];
          var kept := o.records[|recs|..];
          assert kept == [r0] + kept';
          ShiftFirst(evs, seen, recs, seen', recs');
          assert evs[0] == Found(r0) && FirstOfKey(evs, 0);
          DistinctCons(r0, kept', seen');
          if o.Finished? {
            assert KeySet(kept) == {KeyOf(r0)} + KeySet(kept');
          }
        }
    }
  }

  /** A record whose pair is seen stays distinct in front of records none of whose pairs are. */
  lemma DistinctCons(r0: Record, kept: seq<Record>, seen: set<Key>)
    requires KeyOf(r0) in seen && DistinctKeys(kept)
    requires forall r :: r in kept ==> KeyOf(r) !in seen
    ensures DistinctKeys([r0] + kept)
  {
    var all := [r0] + kept;
    forall a, b | 0 <= a < b < |all| ensures KeyOf(all[a]) != KeyOf(all[b]) {
      if a == 0 {
        assert all[b] == kept[b - 1] && all[b] in kept;
      } else {
        assert all[a] == kept[a - 1] && all[b] == kept[b - 1];
      }
    }
  }

  /**
   * The records kept from `evs[1..]` starting from `seen'` are first of
   * their pair in `evs` too, when the first event's pair is in `seen'`.
   */
  lemma ShiftFirst(evs: seq<Event>, seen: set<Key>, recs: seq<Record>, seen': set<Key>, recs': seq<Record>)
    requires evs != [] && seen <= seen' && recs <= recs'
    requires evs[0].Found? ==> KeyOf(evs[0].rec) in seen'
    requires Dedup(evs, seen, recs) == Dedup(evs[1..], seen', recs')
    requires recs' <= Dedup(evs[1..], seen', recs').records
    requires var kept := Dedup(evs[1..], seen', recs').records[|recs'|..];
      && (forall r :: r in kept ==> KeyOf(r) !in seen')
      && (forall r :: r in kept ==> exists j :: 0 <= j < |evs[1..]| && evs[1..][j] == Found(r) && FirstOfKey(evs[1..], j))
    ensures var kept := Dedup(evs, seen, recs).records[|recs'|..];
      forall r :: r in kept ==> exists j :: 0 <= j < |evs| && evs[j] == Found(r) && FirstOfKey(evs, j)
  {
    var rest := evs[1..];
    var kept := Dedup(evs, seen, recs).records[|recs'|..];
    forall r | r in kept
      ensures exists j :: 0 <= j < |evs| && evs[j] == Found(r) && FirstOfKey(evs, j)
    {
      var j :| 0 <= j < |rest| && rest[j] == Found(r) && FirstOfKey(rest, j);
      assert evs[j + 1] == Found(r);
      forall i | 0 <= i < j + 1
        ensures !(evs[i].Found? && KeyOf(evs[i].rec) == KeyOf(r))
      {
        if i > 0 {
          assert evs[i] == rest[i - 1];
        }
      }
      assert FirstOfKey(evs, j + 1);
    }
  }

  /**
   * First writer wins over a whole import: the records kept have distinct
   * (date, name) pairs, each is the first record of its pair in page and
   * line order, and when the import finishes every pair on the roster has
   * its record.
   */
  lemma ImportKeepsFirst(pages: seq<seq<string>>, ps: Parsers)
    ensures var o := Import(pages, ps); var evs := AllEvents(pages, ps);
      && DistinctKeys(o.records)
      && (forall r :: r in o.records ==> exists j :: 0 <= j < |evs| && evs[j] == Found(r) && FirstOfKey(evs, j))
      && (o.Finished? ==> KeySet(o.records) == FoundKeys(evs) && o.seen == FoundKeys(evs))
  {
    ImportMatchesReference(pages, ps);
    DedupKeepsFirst(AllEvents(pages, ps), {}, []);
    assert Import(pages, ps).records[0..] == Import(pages, ps).records;
  }

  // ---------------------------------------------------------------------------
  // Entries
  // ---------------------------------------------------------------------------

  /** The rows `add_entry` receives for one record. */
  function RecordEntries(r: Record): (es: seq<Entry>)
    ensures |es| <= 3
    ensures forall k :: 0 <= k < |es| ==> es[k].date == DateText(r.date) && es[k].name == r.name
    ensures r.name != [] ==> forall k :: 0 <= k < |es| ==> Filled(es[k])
  {
    BreakEntries(DateText(r.date), r.name, r.hours, r.hasLunch)
  }

  /** The rows for a run of records, record by record. */
  function EntriesOf(recs: seq<Record>): (es: seq<Entry>)
    ensures |es| <= 3 * |recs|
  {
    if recs == [] then []
    else EntriesOf(recs[..|recs| - 1]) + RecordEntries(recs[|recs| - 1])
  }

  /** One more record adds its own rows after the rows already there. */
  lemma EntriesOfSnoc(recs: seq<Record>, r: Record)
    ensures EntriesOf(recs + [r]) == EntriesOf(recs) + RecordEntries(r)
  {
    assert (recs + [r])[..|recs|] == recs;
  }

  /** Every record's name is non-empty, since records only come from record lines. */
  lemma {:induction false} FoundNamesNonEmpty(pages: seq<seq<string>>, ps: Parsers)
    ensures forall e :: e in AllEvents(pages, ps) && e.Found? ==> e.rec.name != []
  {
    if pages != [] {
      FoundNamesNonEmpty(pages[1..], ps);
      var page := PageEvents(pages[0], ps);
      forall e | e in page && e.Found? ensures e.rec.name != [] {
        var j :| 0 <= j < |page| && page[j] == e;
        assert e == EventAt(pages[0], j, ps);
      }
    }
  }

  /** Every row an import adds has all five fields filled, as the manual form demands. */
  lemma ImportedEntriesFilled(pages: seq<seq<string>>, ps: Parsers)
    ensures forall e :: e in EntriesOf(Import(pages, ps).records) ==> Filled(e)
  {
    var recs := Import(pages, ps).records;
    ImportKeepsFirst(pages, ps);
    FoundNamesNonEmpty(pages, ps);
    forall r | r in recs ensures r.name != [] {
      var evs := AllEvents(pages, ps);
      var j :| 0 <= j < |evs| && evs[j] == Found(r) && FirstOfKey(evs, j);
      assert evs[j] in evs;
    }
    EntriesFilled(recs);
  }

  lemma {:induction false} EntriesFilled(recs: seq<Record>)
    requires forall r :: r in recs ==> r.name != []
    ensures forall e :: e in EntriesOf(recs) ==> Filled(e)
  {
    if recs != [] {
      var init := recs[..|recs| - 1];
      assert forall r :: r in init ==> r in recs;
      EntriesFilled(init);
      var last := recs[|recs| - 1];
      assert last in recs;
    }
  }

  /**
   * Rows of two different records of one import never share their
   * (date, name) pair: the entries for an employee and a date come from one
   * roster line.
   */
  lemma ImportedPairsDistinct(pages: seq<seq<string>>, ps: Parsers)
    ensures var rs := Import(pages, ps).records;
      forall a, b :: 0 <= a < b < |rs| ==> (DateText(rs[a].date), rs[a].name) != (DateText(rs[b].date), rs[b].name)
  {
    var rs := Import(pages, ps).records;
    ImportKeepsFirst(pages, ps);
    forall a, b | 0 <= a < b < |rs|
      ensures (DateText(rs[a].date), rs[a].name) != (DateText(rs[b].date), rs[b].name)
    {
      if DateText(rs[a].date) == DateText(rs[b].date) {
        DateTextInjective(rs[a].date, rs[b].date);
      }
    }
  }
}
