# Break scheduler: a Dafny model

This project models the core of a small break-scheduling tool. The tool reads a
staff roster out of a PDF and derives tea and lunch breaks from each
employee's hours. It keeps the resulting schedule as an ordered list that a
form can append to, edit and delete from. There are two front ends, and both
are modelled:

- `break_scheduler_gui.py` (Python/Tk). Its `import_pdf` reads the roster page by page:
  - `Date:` lines set a date register.
  - Lines with a comma and a digit are `name hours` records.
  - An `X` on the next line marks lunch.
  - A `(date, name)` pair seen before in the same import is skipped.
  - Each new record yields up to three breaks (Tea 10:00–10:15, Lunch 12:00–12:30, and a second Tea that ends one hour before the shift ends), appended with `add_entry`.
  - The form (`add_or_update_entry`, `delete_selected`) edits the same `entries` list.
- `main.cpp` (Qt). Its `importPDF` turns every non-empty line that mentions Lunch or Tea and has at least five tokens into a 6-column CSV row `Name, Lunch Start, Lunch End, Tea Start, Tea End, Date`. Its Save button writes a row only when all five fields are filled.

Modules:

- `Wrappers`: `Option`.
- `Seqs`: concatenation facts.
- `Text`: the string operations the two programs use, with their contracts. These are Python's `strip`, `split(sep)[1]`, `rsplit(" ", 1)`, `capitalize`, `isdigit`, Qt's case-insensitive `contains` and `split(…, SkipEmptyParts)`, and `%02d`-style numerals.
- `Breaks`: the break windows of one record and their `%H:%M` rendering.
- `Roster`: the import scan as pure functions, in two forms:
  - as the source runs it, with a date register and a `seen` set;
  - as an independent reference, which looks back up the page for the date and keeps the first record of every pair.

  The two are proved equal.
- `Schedule`: the `entries` list as a class. Its methods are proved against the `Roster` functions.
- `QtImport`: the Qt row layout, its page and line loops, and the submit guard.

Some behaviour of the code is easy to misread; the model follows the code:

- The roster line is split at the last literal space (`rsplit(" ", 1)`), not at any whitespace.
- One might expect every derived break to lie inside the shift. The code does not ensure that:
  - A record with lunch and fewer than 4.5 hours still gets its 12:00–12:30 lunch, which ends after the shift does. Under 4 hours the shift is over before the lunch starts (`Breaks.LunchAfterShortShift`).
  - Past 17 hours the second tea ends after midnight, and `%H:%M` wraps it to the next day's clock. Between 17 and 17.25 hours it straddles midnight (`Breaks.SecondTeaAcrossMidnight`: 23:51–00:06 for 17.1 hours); from 17.25 hours on it lies wholly after midnight.
- Hours are parsed before the duplicate check. A repeated `(date, name)` line whose hours do not parse therefore still ends the import (`Roster.BadHoursAbort`).

## Model

| member | source | states |
|---|---|---|
| `Text.Contains` | break_scheduler_gui.py:88 | `sub in s`, searched position by position (its meaning is stated by `Text.ContainsAt`). |
| `Text.ContainsAt` | break_scheduler_gui.py:88 | `sub in s` holds exactly when `sub` starts at some position of `s`. |
| `Text.SecondPiece` | break_scheduler_gui.py:90 | `line.split("Date:")[1]`: the text after the first `Date:`, up to the next one. It holds no marker. When a second marker follows, it ends exactly where that marker starts; otherwise it is all of the rest. |
| `Text.AfterFirst` | break_scheduler_gui.py:90 | The text that follows the first occurrence of the marker. |
| `Text.Strip` | break_scheduler_gui.py:14 | `str.strip()`: empty exactly when the input is all whitespace, otherwise it begins and ends with a non-space character. |
| `Text.StripCutsEnds` | break_scheduler_gui.py:94 | What `strip` removes is whitespace at the two ends, and the result is the inner slice of the input. |
| `Text.StripIdempotent` | break_scheduler_gui.py:14 | Stripping twice is stripping once. |
| `Text.RSplitOnce` | break_scheduler_gui.py:94 | `rsplit(" ", 1)` gives two parts exactly when the text holds a space. The parts rejoin around that space, and the right part holds no space. Otherwise the one part is the whole text. |
| `Text.Capitalize` | break_scheduler_gui.py:15 | `capitalize()` keeps the length, upper-cases the first letter and lower-cases the rest. |
| `Text.CapitalizeIdempotent` | break_scheduler_gui.py:15 | Capitalizing twice is capitalizing once. |
| `Text.HasDigit` | break_scheduler_gui.py:93 | `any(c.isdigit() for c in line)`: some character is a digit. |
| `Text.ContainsIgnoreCase` | main.cpp:55 | `contains(…, Qt::CaseInsensitive)`: the lower-cased text contains the lower-cased pattern. |
| `Text.Split` | main.cpp:53 | `split(sep)`: at least one part, none holding the separator. |
| `Text.JoinSplit` | main.cpp:53 | Joining the parts of a split with the separator gives back the text. |
| `Text.NonEmptySingle` | main.cpp:53 | Skipping empty parts keeps a single part exactly when it is non-empty. |
| `Text.NonEmptyAppend` | main.cpp:53 | Skipping empty parts keeps the order: the kept parts of a concatenation are those of the first run, then those of the second. |
| `Text.NonEmptyKeepsAll` | main.cpp:53 | With no empty part, nothing is skipped. |
| `Text.SplitSkipEmpty` | main.cpp:53 | `split("\n", Qt::SkipEmptyParts)`: the parts are non-empty and hold no separator. |
| `Text.TidySplitHasNoEmpty` | main.cpp:53 | Text that is non-empty, has no separator at either end and no two in a row splits into non-empty parts only. |
| `Text.SplitSkipEmptyRoundTrip` | main.cpp:53 | On such text, joining the parts kept by `split(sep, Qt::SkipEmptyParts)` gives back the text. |
| `Text.DecimalRoundTrip` | break_scheduler_gui.py:111 | A zero-padded numeral of a number that fits its width reads back as that number. |
| `Breaks.Windows` | break_scheduler_gui.py:105-121 | At most three windows per record, each ending after it starts, in time order and never overlapping. |
| `Breaks.TeaBreak` | break_scheduler_gui.py:108-111 | The first window is Tea 10:00–10:15 exactly when hours ≥ 4. |
| `Breaks.LunchBreak` | break_scheduler_gui.py:113-116 | Lunch 12:00–12:30 is there exactly when the record has the lunch marker, whatever the hours, and it is the only Lunch window. |
| `Breaks.SecondTeaBreak` | break_scheduler_gui.py:118-121 | There are three windows exactly when hours ≥ 7.5 and there is lunch. The third is Tea, ending one hour before the shift ends and starting 15 minutes earlier. |
| `Breaks.NoBreaks` | break_scheduler_gui.py:108-121 | A record gets no window exactly when it has under 4 hours and no lunch. |
| `Breaks.WindowsWithinShift` | break_scheduler_gui.py:105-121 | From 4.5 hours on, every window lies inside the 08:00 shift. |
| `Breaks.LunchAfterShortShift` | break_scheduler_gui.py:113-116 | A 2-hour shift with lunch ends before its 12:00 lunch. |
| `Breaks.Clock` | break_scheduler_gui.py:111 | `strftime("%H:%M")` gives five characters: two digits, a colon, two digits. The hour field is at most 23 and the minute field at most 59. |
| `Breaks.ClockFields` | break_scheduler_gui.py:111 | The hour field reads back as less than 24, and the minute field as less than 60. |
| `Breaks.ClockRoundTrip` | break_scheduler_gui.py:111 | The text read back as `HH:MM` is the whole minute of the day, taken modulo 24 hours. |
| `Breaks.ClockAt` | break_scheduler_gui.py:111 | Hour `h` and minute `m` are shown as their two-digit numerals. |
| `Breaks.ClockIsDaily` | break_scheduler_gui.py:119-121 | A time a day later shows the same. |
| `Breaks.FirstTeaShown` | break_scheduler_gui.py:109-111 | The first tea shows as 10:00 and 10:15. |
| `Breaks.LunchShown` | break_scheduler_gui.py:114-116 | Lunch shows as 12:00 and 12:30. |
| `Breaks.SecondTeaShownAtEight` | break_scheduler_gui.py:119-121 | For 8 hours the second tea shows as 14:45 and 15:00. |
| `Breaks.MidnightShown` | break_scheduler_gui.py:119-121 | Minute 1431 shows as 23:51, and minute 1446 as 00:06. |
| `Breaks.BreakEntries` | break_scheduler_gui.py:108-121 | One row per window, in window order. Each row carries the record's date, its name and its window's kind. All rows are filled when the date and name are. |
| `Breaks.BreakEntriesTimes` | break_scheduler_gui.py:108-121 | Each row's start and end read back as the minute of the day its window starts and ends in. |
| `Breaks.EightHoursWithLunch` | break_scheduler_gui.py:108-121 | 8 hours with lunch gives Tea 10:00–10:15, Lunch 12:00–12:30, Tea 14:45–15:00. |
| `Breaks.FiveHoursNoLunch` | break_scheduler_gui.py:108-111 | 5 hours without lunch gives only Tea 10:00–10:15. |
| `Breaks.ThreeHoursNoLunch` | break_scheduler_gui.py:108-121 | 3 hours without lunch gives nothing. |
| `Breaks.JustUnderSecondTea` | break_scheduler_gui.py:118-121 | 7.4 hours with lunch gives Tea and Lunch, but no second Tea. |
| `Breaks.SecondTeaAcrossMidnight` | break_scheduler_gui.py:118-121 | With 17.1 hours the second tea is shown as 23:51–00:06. |
| `Roster.DateText` | break_scheduler_gui.py:111 | `str(current_date)` is the text `None` before any date, or 10 characters once a date is set. |
| `Roster.DateTextFields` | break_scheduler_gui.py:111 | A date prints as `YYYY-MM-DD`: dashes at positions 4 and 7, digits elsewhere, and the three fields read back as its year, month and day. |
| `Roster.DateTextInjective` | break_scheduler_gui.py:111 | Different date registers print differently. |
| `Roster.Classify` | break_scheduler_gui.py:88-96 | A line holding `Date:` is a date line and never a record. A record needs a comma, a digit and a space in its stripped text. The name is the stripped text before the last space and is never empty. The hours text is the non-empty last word. |
| `Roster.SplitStripped` | break_scheduler_gui.py:94-96 | Stripped text with a space splits into a non-blank name part and a non-empty last word. |
| `Roster.LunchMarked` | break_scheduler_gui.py:102-104 | The look-ahead: the next line on the same page holds an `X`. |
| `Roster.LastLineHasNoLunch` | break_scheduler_gui.py:102-104 | The last line of a page never has a lunch marker after it. |
| `Roster.DuplicateEmitsNothing` | break_scheduler_gui.py:98-100 | A record whose pair was seen (and whose hours parse) changes neither the records nor `seen`. |
| `Roster.BadHoursAbort` | break_scheduler_gui.py:97 | Hours that do not parse end the import with the records kept so far, even on a duplicate line. |
| `Roster.FailedDateKeepsRegister` | break_scheduler_gui.py:89-92 | A date line that does not parse leaves the register as it was. |
| `Roster.ScanPage` | break_scheduler_gui.py:86-122 | The `while` loop over one page, with its date register and `seen` set. The records kept before stay at the front, and a finished scan only adds to `seen`. |
| `Roster.ImportFrom` | break_scheduler_gui.py:82-122 | The page loop from page `p`: each page starts with an empty register. The records kept before stay at the front, and a finished import only adds to `seen`. |
| `Roster.NextPage` | break_scheduler_gui.py:82-122 | An aborted page ends the import. A finished one hands its `seen` set and records on to the next page; records are only added and `seen` only grows. |
| `Roster.Import` | break_scheduler_gui.py:79-122 | The whole import from an empty `seen` set (its meaning is stated by `Roster.ImportMatchesReference` and `Roster.ImportKeepsFirst`). |
| `Roster.PageEvents` | break_scheduler_gui.py:86-122 | One event per line of the page, in line order. |
| `Roster.ScanOneLine` | break_scheduler_gui.py:86-122 | When the register holds the looked-back date, one line of the scan does what that line's event says. |
| `Roster.ScanPageIsDedup` | break_scheduler_gui.py:84-122 | The page scan with its running register equals deduplicating the page's events, each dated by looking back up the page. |
| `Roster.DedupAppend` | break_scheduler_gui.py:79-122 | Deduplicating two runs of events means deduplicating the first, then the second from where the first left off. |
| `Roster.ImportFromIsDedup` | break_scheduler_gui.py:79-122 | Scanning pages `p..` equals deduplicating their events, with `seen` shared across pages and the register reset per page. |
| `Roster.ImportMatchesReference` | break_scheduler_gui.py:79-122 | The whole import equals the reference reading. |
| `Roster.DedupAbortsOnBadHours` | break_scheduler_gui.py:97 | The reference reading stops exactly when some record's hours do not parse. |
| `Roster.ImportFinishesUnlessBadHours` | break_scheduler_gui.py:79-125 | An import finishes exactly when the hours of every record line parse. |
| `Roster.DedupKeepsFirst` | break_scheduler_gui.py:98-101 | The kept records have distinct pairs, none of them seen before. Each is the first record of its pair. When no hours fail, the kept pairs are exactly the new pairs, and `seen` gains all pairs. |
| `Roster.ImportKeepsFirst` | break_scheduler_gui.py:79-101 | First writer wins over the whole import. Pairs are distinct, and each record is the first of its pair in page and line order. A finished import keeps one record per pair on the roster. |
| `Roster.RecordEntries` | break_scheduler_gui.py:108-121 | At most three rows for one record, each with the printed date register and the record's name. All are filled when the name is non-empty. |
| `Roster.EntriesOf` | break_scheduler_gui.py:108-121 | A run of records yields at most three rows per record. |
| `Roster.EntriesOfSnoc` | break_scheduler_gui.py:128-130 | One more record adds its rows after the rows already there. |
| `Roster.FoundNamesNonEmpty` | break_scheduler_gui.py:94-96 | Every record found on a roster has a non-empty name. |
| `Roster.EntriesFilled` | break_scheduler_gui.py:108-121 | Records with names give rows with all five fields filled. |
| `Roster.ImportedEntriesFilled` | break_scheduler_gui.py:19-21 | Every row an import adds would pass the form's empty-field check. |
| `Roster.ImportedPairsDistinct` | break_scheduler_gui.py:98-101 | No two records of one import share their printed (date, name) pair. |
| `Schedule.FormEntry` | break_scheduler_gui.py:13-21 | The form saves a row exactly when the date, start and end are non-empty and the name and type are not all blank. The saved name is stripped, and the saved type is the stripped type, capitalized. |
| `Schedule.FormEntryResave` | break_scheduler_gui.py:43-53 | Loading a saved row into the form and saving it again gives the same row. |
| `Schedule.RemoveAt` | break_scheduler_gui.py:60 | `del entries[i]` is one shorter. It keeps the elements before `i` and shifts those after it down by one, which is the same multiset less the one element. |
| `Schedule.Scheduler.constructor` | break_scheduler_gui.py:8 | The schedule starts empty. |
| `Schedule.Scheduler.AddEntry` | break_scheduler_gui.py:128-130 | The row goes at the end. |
| `Schedule.Scheduler.AddOrUpdate` | break_scheduler_gui.py:11-32 | An empty field blocks the save with no change. Otherwise the selected row is replaced in place, leaving the length and every other row unchanged; with no selection the row is appended. |
| `Schedule.Scheduler.DeleteSelected` | break_scheduler_gui.py:55-63 | No selection changes nothing. Otherwise exactly the selected row is removed. |
| `Schedule.Scheduler.AddEntries` | break_scheduler_gui.py:111-121 | Rows are appended in order. |
| `Schedule.Scheduler.KeepRecord` | break_scheduler_gui.py:101-121 | A kept record's rows follow those of the records kept before it. |
| `Schedule.Scheduler.ScanLine` | break_scheduler_gui.py:87-122 | One pass of the loop moves the scan one line on. It reports unparsable hours as the end of the import and keeps the schedule equal to the rows of the records kept. |
| `Schedule.Scheduler.ScanPageLines` | break_scheduler_gui.py:84-122 | The loop over one page, starting with no date, ends where the page scan ends. It hands on `seen` and the records when the page finishes, or reports the abort. The schedule stays equal to the rows of the records kept. |
| `Schedule.Scheduler.ImportPdf` | break_scheduler_gui.py:79-126 | The import succeeds exactly when the scan finishes, which by `Roster.ImportFinishesUnlessBadHours` is when no hours fail. The schedule becomes the old one followed by the rows of the records the reference reading keeps, and rows added before a failure stay. |
| `QtImport.RowOf` | main.cpp:57-69 | Fewer than five tokens give no row. Otherwise there are six fields, name first and date last. Start and end go in the lunch columns when token 1 mentions lunch, and in the tea columns otherwise. |
| `QtImport.ExtraTokensIgnored` | main.cpp:58-62 | Tokens after the fifth do not change the row. |
| `QtImport.LunchElsewhereGetsTeaLayout` | main.cpp:65-68 | A line picked for a "Lunch" in another token still gets the tea layout. |
| `QtImport.LineRow` | main.cpp:55-69 | A line gives a row exactly when it mentions Lunch or Tea (ignoring case) and has at least five tokens. |
| `QtImport.RowsOfLines` | main.cpp:54-74 | A page gives at most one row per line, and every row is well shaped. |
| `QtImport.MentionsBreak` | main.cpp:55 | A line is picked when it contains `Lunch` or `Tea`, ignoring case. |
| `QtImport.PageLines` | main.cpp:53 | A page's lines are non-empty and hold no line break. |
| `QtImport.PageLinesRoundTrip` | main.cpp:53 | For a page that is not empty, has no line break at either end and no two in a row, the lines joined with line breaks are the page text: every line is taken, in order. |
| `QtImport.PageRows` | main.cpp:47-53 | A page that fails to load gives no rows. Otherwise at most one row per line, every row well shaped. |
| `QtImport.RowsOfPages` | main.cpp:46-75 | Every row of an import is well shaped. |
| `QtImport.RowsOfLinesAppend` | main.cpp:54-71 | Rows come out in line order. |
| `QtImport.RowsOfPagesSnoc` | main.cpp:46-71 | One more page adds its rows at the end. |
| `QtImport.RowsOfPagesAppend` | main.cpp:46-71 | Rows come out in page order. |
| `QtImport.RowsFromSelectedLines` | main.cpp:55-69 | Every row is the row of some line that mentions Lunch or Tea and has at least five tokens. |
| `QtImport.SkippedLineAddsNothing` | main.cpp:55-57 | A line without Lunch or Tea, or with fewer than five tokens, adds no row. |
| `QtImport.ImportLines` | main.cpp:54-74 | The line loop collects exactly the page's rows. |
| `QtImport.ImportPdf` | main.cpp:46-75 | The page loop collects exactly the import's rows, skipping pages that fail to load. |
| `QtImport.SubmitRow` | main.cpp:109-115 | Save writes nothing while any of the five fields is empty. Otherwise it writes six fields: name, lunch start, lunch end, tea start, tea end, in that order, then today's date. |
| `QtImport.SubmitKeepsBlanks` | main.cpp:109-113 | The Qt form does not strip, so a one-blank name is accepted. |

## Left out

- The Tk and Qt widgets, the Treeview mirror of `entries`, `clear_inputs` and the message boxes are not modelled.
- The user's selection is passed to the `Schedule` methods as an index into `entries`, as `tree.index(selected_item)` gives it. The `requires` that a selected index is in range holds in the source because the table mirrors the list.
- PDF access is left out. `fitz.open`/`page.get_text().splitlines()` and Poppler's `Document::load`/`page->text()` become inputs: the lines of each page for the Python importer, the text of each page (or `None` when a page fails to load) for the Qt importer. Exceptions from opening the PDF are not modelled.
- Roster.Parsers: `datetime.strptime(…, "%A, %d %B %Y")` and `float()` are parameters (partial functions). Their locale and number syntax are not modelled.
- Breaks.Windows: hours are exact reals, which makes these cases different from the source:
  - `float` NaN and infinities are not represented.
  - `timedelta`'s rounding to microseconds and its overflow on hours of very large magnitude (positive or negative) are not modelled. In the source, such an overflow ends the import after the pair was added to `seen`. The model can only treat those hours as unparsable, which also ends the import, but before the duplicate check.
- Text.IsSpace follows Python's `str.isspace()`. `Text.IsDigit`, `Text.LowerChar` and `Text.UpperChar` handle ASCII only. Python's Unicode digits and case mappings, and Qt's Unicode case folding, are not modelled.
- The tokenizer of main.cpp:56 is a parameter of `QtImport`. What `QRegExp("\s+")` really splits on depends on how the compiler treats that escape, and no property depends on it.
- The timestamp prefix of `appendNote` and `QDate::currentDate()` are left out. The date becomes the `today` parameter of `QtImport.SubmitRow`.
- CSV output is not modelled: `save_to_csv`, `appendToCSV` (its header line and file append) and `appendNote`. Rows are collected in the order they would be written.
- `Pdf-to-qr-products.php` is not part of this model. It consists of WordPress hooks and calls into a QR library.
