/**
 * The schedule store of break_scheduler_gui.py: the module-level `entries`
 * list, which the form appends to or edits in place by index, the delete
 * button shrinks, and the roster import appends to through `add_entry`.
 *
 * The Treeview that mirrors the list is not modelled; the row the user has
 * selected in it is passed in as the list index `tree.index(...)` gives.
 */
module Schedule {
  import opened Wrappers
  import opened Text
  import opened Breaks
  import opened Roster
  import opened Seqs

  /**
   * The entry the form would save (lines 13-21): the name is stripped, the
   * type stripped and capitalized, and nothing is saved unless all five
   * fields are then non-empty.
   */
  function FormEntry(date: string, name: string, btype: string, start: string, end: string): (r: Option<Entry>)
    ensures r.Some? <==> date != [] && !AllSpace(name) && !AllSpace(btype) && start != [] && end != []
    ensures r.Some? ==> Filled(r.value)
    ensures r.Some? ==> r.value.date == date && r.value.start == start && r.value.end == end
    ensures r.Some? ==> r.value.name == Strip(name) && r.value.kind == Capitalize(Strip(btype))
  {
    var n := Strip(name);
    var t := Capitalize(Strip(btype));
    if date == [] || n == [] || t == [] || start == [] || end == [] then None
    else Some(Entry(date, n, t, start, end))
  }

  /**
   * Loading a saved row back into the form (`on_row_select`) and saving it
   * again gives the same row: stripping and capitalizing change nothing the
   * second time.
   */
  lemma FormEntryResave(date: string, name: string, btype: string, start: string, end: string)
    requires FormEntry(date, name, btype, start, end).Some?
    ensures var e := FormEntry(date, name, btype, start, end).value;
      FormEntry(e.date, e.name, e.kind, e.start, e.end) == Some(e)
  {
    var e := FormEntry(date, name, btype, start, end).value;
    StripIdempotent(name);
    var t := Strip(btype);
    CapitalizeKeepsEnds(t);
    StripUnchanged(Capitalize(t));
    CapitalizeIdempotent(t);
  }

  /** `entries` with the element at `i` removed (`del entries[i]`). */
  function RemoveAt<T>(s: seq<T>, i: nat): (r: seq<T>)
    requires i < |s|
    ensures |r| == |s| - 1
    ensures forall k :: 0 <= k < i ==> r[k] == s[k]
    ensures forall k :: i <= k < |r| ==> r[k] == s[k + 1]
    ensures multiset(r) + multiset{s[i]} == multiset(s)
  {
    assert s == s[..i] + [s[i]] + s[i + 1..];
    s[..i] + s[i + 1..]
  }

  class Scheduler {
    /** The schedule, in the order the table shows and the CSV file saves. */
    var entries: seq<Entry>

    constructor ()
      ensures entries == []
    {
      entries := [];
    }

    /** `add_entry` (lines 128-130): the row goes at the end. */
    method AddEntry(e: Entry)
      modifies this
      ensures entries == old(entries) + [e]
    {
      entries := entries + [e];
    }

    /**
     * `add_or_update_entry` (lines 11-32). An empty field blocks the save and
     * changes nothing; otherwise a selected row is replaced where it stands
     * and the others keep their places, or, with no selection, the row is
     * appended.
     */
    method AddOrUpdate(date: string, name: string, btype: string, start: string, end: string, selected: Option<nat>)
      returns (saved: bool)
      requires selected.Some? ==> selected.value < |entries|
      modifies this
      ensures saved <==> FormEntry(date, name, btype, start, end).Some?
      ensures !saved ==> entries == old(entries)
      ensures saved && selected.None? ==>
        entries == old(entries) + [FormEntry(date, name, btype, start, end).value]
      ensures saved && selected.Some? ==>
        && |entries| == |old(entries)|
        && entries[selected.value] == FormEntry(date, name, btype, start, end).value
        && forall k :: 0 <= k < |entries| && k != selected.value ==> entries[k] == old(entries)[k]
    {
      var e := FormEntry(date, name, btype, start, end);
      if e.None? {
        return false;
      }
      match selected {
        case Some(i) =>
          entries := entries[i := e.value];
        case None =>
          entries := entries + [e.value];
      }
      saved := true;
    }

    /**
     * `delete_selected` (lines 55-63): with no selection nothing happens;
     * otherwise exactly the selected row goes and the rest keep their order.
     */
    method DeleteSelected(selected: Option<nat>)
      requires selected.Some? ==> selected.value < |entries|
      modifies this
      ensures selected.None? ==> entries == old(entries)
      ensures selected.Some? ==> entries == RemoveAt(old(entries), selected.value)
    {
      if selected.Some? {
        var i := selected.value;
        entries := entries[..i] + entries[i + 1..];
      }
    }

    /** `add_entry` for each row in turn. */
    method AddEntries(rows: seq<Entry>)
      modifies this
      ensures entries == old(entries) + rows
    {
      for k := 0 to |rows|
        invariant entries == old(entries) + rows[..k]
      {
        AddEntry(rows[k]);
      }
      assert rows[..|rows|] == rows;
    }

    /** The rows of one kept record (lines 101-121), after those of the records kept before it. */
    method KeepRecord(r: Record, ghost recs: seq<Record>, ghost base: seq<Entry>)
      requires entries == base + EntriesOf(recs)
      modifies this
      ensures entries == base + EntriesOf(recs + [r])
    {
      var rows := RecordEntries(r);
      AddEntries(rows);
      EntriesOfSnoc(recs, r);
      ConcatAssoc(base, EntriesOf(recs), rows);
    }

    /**
     * One pass of the `while` loop of `import_pdf` (lines 87-122) over line
     * `i` of a page: it moves the scan one line on, adds the rows of a record
     * it keeps, and reports `ok == false` where unparsable hours end the
     * import.
     */
    method ScanLine(lines: seq<string>, i: nat, date: Option<Date>, seen: set<Key>,
                    ghost recs: seq<Record>, ghost base: seq<Entry>, ps: Parsers)
      returns (ok: bool, date': Option<Date>, seen': set<Key>, ghost recs': seq<Record>)
      requires i < |lines|
      requires entries == base + EntriesOf(recs)
      modifies this
      ensures ok ==> ScanPage(lines, i, date, seen, recs, ps) == ScanPage(lines, i + 1, date', seen', recs', ps)
      ensures !ok ==> ScanPage(lines, i, date, seen, recs, ps) == Aborted(recs) && recs' == recs
      ensures entries == base + EntriesOf(recs')
    {
      ok, date', seen', recs' := true, date, seen, recs;
      match Classify(lines[i], ps.date) {
        case DateLine(d) =>
          if d.Some? {
            date' := d;
          }
        case OtherLine =>
        case RecordLine(name, text) =>
          var hours := ps.hours(text);
          if hours.None? {
            ok := false;
          } else if (date, name) !in seen {
            seen' := seen + {(date, name)};
            var hasLunch := i + 1 < |lines| && 'X' in lines[i + 1];
            var r := Record(date, name, hours.value, hasLunch);
            KeepRecord(r, recs, base);
            recs' := recs + [r];
          }
      }
    }

    /**
     * `import_pdf` (lines 79-126) on the text of the pages. The rows of the
     * records the scan keeps are appended in order; `ok` is false when hours
     * failed to parse, and the rows added before that stay.
     */
    method ImportPdf(pages: seq<seq<string>>, ps: Parsers) returns (ok: bool)
      modifies this
      ensures ok <==> Import(pages, ps).Finished?
      ensures entries == old(entries) + EntriesOf(Import(pages, ps).records)
    {
      ghost var recs: seq<Record> := [];
      ghost var base := entries;
      var seen: set<Key> := {};
      var p := 0;
      while p < |pages|
        invariant p <= |pages|
        invariant Import(pages, ps) == ImportFrom(pages, p, seen, recs, ps)
        invariant entries == base + EntriesOf(recs)
      {
        ghost var o: Outcome;
        ok, seen, recs, o := ScanPageLines(pages[p], seen, recs, base, ps);
        if !ok {
          return;
        }
        p := p + 1;
      }
      ok := true;
    }

    /**
     * The `while` loop of `import_pdf` over the lines of one page (lines
     * 84-122), starting with an empty date register: `o` is where the scan
     * of the page ends, and `seen'`/`recs'` are what it hands on.
     */
    method ScanPageLines(lines: seq<string>, seen: set<Key>, ghost recs: seq<Record>, ghost base: seq<Entry>, ps: Parsers)
      returns (ok: bool, seen': set<Key>, ghost recs': seq<Record>, ghost o: Outcome)
      requires entries == base + EntriesOf(recs)
      modifies this
      ensures o == ScanPage(lines, 0, None, seen, recs, ps)
      ensures ok <==> o.Finished?
      ensures ok ==> o == Finished(seen', recs')
      ensures !ok ==> o == Aborted(recs')
      ensures entries == base + EntriesOf(recs')
    {
      var date: Option<Date> := None;
      seen', recs' := seen, recs;
      o := ScanPage(lines, 0, None, seen, recs, ps);
      var i := 0;
      while i < |lines|
        invariant i <= |lines|
        invariant o == ScanPage(lines, i, date, seen', recs', ps)
        invariant entries == base + EntriesOf(recs')
      {
        ok, date, seen', recs' := ScanLine(lines, i, date, seen', recs', base, ps);
        if !ok {
          return;
        }
        i := i + 1;
      }
      ok := true;
    }
  }
}
