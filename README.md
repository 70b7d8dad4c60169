# Attendance engine of the college attendance dashboard

This project is a Dafny model of the attendance engine inside `pages/Dashboard.tsx`, with
proofs about it. The dashboard keeps classes, students, holidays and a sparse map of
attendance overrides (student id, then date, to a cell with a status and in/out times).

The attendance sheet reads each (student, date) cell through a default derivation:
- An override wins.
- Otherwise Sundays and declared holidays read as an empty cell.
- Every other day reads as Present, with an in-time drawn from 09:00–10:00 and an out-time
  drawn from 16:00–17:00.

The model covers:
- The edit layer and the status cycle.
- The monthly summary, which counts working days and Present/Absent/Leave days.
- The in/out duration.
- The sheet builder, which steps through calendar months and sorts the class roster by name.
- Collection maintenance:
  - A holiday toggled from a date header or saved from the holiday form, re-sorted by date.
  - Class deletion, which cascades to the class's students.
  - The CSV bulk import of students.

Modules, in dependency order:
- `Wrappers`: `Option` and `Result`.
- `Calendar`: Gregorian dates, days in a month, day number and day of the week, month stepping.
- `Clock`: "HH:MM" texts, `getRandomTimeInRange` and `calculateDuration`.
- `Records`: the records of `types.ts` and the holiday date set.
- `Ordering`: the stable sort by key and `filter`.
- `Text`: JavaScript `split` with one separator character, and `trim`.
- `Attendance`: cells, the default derivation, the edit layer and the status cycle.
- `Sheet`: the month loop and the roster.
- `Summary`: the monthly counters, with a loop method proved against a fold.
- `Holidays`, `Classes`, `StudentImport`: collection maintenance.
- `Dashboard`: the state.
  - Class `App` holds the Dashboard's four collections and their save handlers.
  - Class `AttendanceManager` holds the live overrides, the generated sheet and the handlers
    that change them.

Random draws, generated ids, the answers to `window.confirm`/`window.prompt`, and the text of
an uploaded file are all parameters:
- A `Draw(inPick, outPick)` holds the two minute offsets (0..60) that
  `Math.floor(Math.random() * 61)` yields for one default cell.
- `freshId` is what `generateId` returns. In the CSV import, `freshId(k)` is the value of its
  k-th call.

## Model

| member | source | states |
|---|---|---|
| Calendar.DaysInMonth | pages/Dashboard.tsx:363 | `new Date(year, month + 1, 0).getDate()`: 28..31 days; 28 exactly for February of a common year, 29 exactly for February of a leap year, 30 exactly for months 4, 6, 9, 11 and 31 exactly for months 1, 3, 5, 7, 8, 10, 12 |
| Calendar.DayOfWeek | pages/Dashboard.tsx:380 | `getDay()` is a weekday number in 0..6 (0 is Sunday), counted from 1970-01-01, a Thursday (4) |
| Calendar.NextDay | pages/Dashboard.tsx:363 | the day after a valid date is a valid date |
| Calendar.DayNumberOfNextDay | pages/Dashboard.tsx:363 | the day numbering agrees with the month lengths: the next day's number is one higher, across month and year ends |
| Calendar.WeekdayOfNextDay | pages/Dashboard.tsx:380 | consecutive days have consecutive weekdays modulo 7 |
| Calendar.WeekdayDistance | pages/Dashboard.tsx:380 | two dates are as many weekdays apart as they are days apart, modulo 7 |
| Calendar.KnownSunday | pages/Dashboard.tsx:461-462 | 1970-01-04 is a Sunday and the days either side of it are not |
| Calendar.MonthsFillYear | pages/Dashboard.tsx:363 | the twelve month lengths add up to the year length (365 or 366) |
| Calendar.NextYearStart | pages/Dashboard.tsx:363 | 1 January of the next year is one year length later, before and after 1970 |
| Calendar.DayNumberMonotone | pages/Dashboard.tsx:260 | for valid dates, calendar order implies strictly smaller day numbers, so `getTime()` ordering is calendar ordering |
| Calendar.DayOfYearBelowLength | pages/Dashboard.tsx:260 | a valid date's offset within its year is in [0, year length) |
| Calendar.DaysBeforeYearGrows | pages/Dashboard.tsx:260 | a later year starts at least one year length after an earlier one |
| Calendar.DaysBeforeMonthGrows | pages/Dashboard.tsx:260 | a later month of a year starts at least one month length after an earlier one |
| Calendar.MonthAt | pages/Dashboard.tsx:366 | the month at any position of the month scale is a valid (year, 0..11) month with that position |
| Calendar.NextMonth | pages/Dashboard.tsx:366 | `setMonth(getMonth() + 1)` gives a valid month one position further, rolling December into January |
| Calendar.MonthAtIndex | pages/Dashboard.tsx:360-361 | a valid (year, month) is recovered from its position |
| Clock.DecimalString | pages/Dashboard.tsx:21 | `String(n)` is a non-empty digit string, one digit exactly below 10, two exactly for 10..99 |
| Clock.PadStart2Shape | pages/Dashboard.tsx:21 | `padStart(2, '0')` gives two characters or more: zeros, then the text unchanged |
| Clock.TwoDigitsBelow100 | pages/Dashboard.tsx:21 | below 100, `String(n).padStart(2, '0')` is the tens digit followed by the units digit |
| Clock.FormatTimeShape | pages/Dashboard.tsx:19-21 | the minutes always take two digits after the colon; the text is 5 characters exactly below 100 hours |
| Clock.ParseClock | pages/Dashboard.tsx:335-336 | a text that parses is 5 characters with a colon in the middle and denotes a minute of the day |
| Clock.ParseFormatTime | pages/Dashboard.tsx:19-21 | every minute of the day prints as a 5-character "HH:MM" that parses back to the same minute |
| Clock.FormatParseClock | pages/Dashboard.tsx:14-17 | every well-formed "HH:MM" is the printed form of the minute total it denotes |
| Clock.RandomTimeInRange | pages/Dashboard.tsx:13-22 | the result is "HH:MM", denotes start + pick, and lies in the closed interval [start, end] |
| Clock.CalculateDuration | pages/Dashboard.tsx:332-345 | "-" exactly when a time is empty or out ≤ in; otherwise (both well-formed) the time out − in as "HH:MM"; no verdict for other text |
| Clock.DurationExample | pages/Dashboard.tsx:332-345 | in 09:05, out 16:45 gives "07:40" |
| Records.HolidaySet | pages/Dashboard.tsx:373 | the holiday set holds exactly the dates of the declared holidays |
| Ordering.LexLeTotal | pages/Dashboard.tsx:353 | the key order compares every two keys |
| Ordering.LexLeTransitive | pages/Dashboard.tsx:353 | the key order is transitive |
| Ordering.Insert | pages/Dashboard.tsx:353 | insertion adds exactly the element and keeps a sorted sequence sorted |
| Ordering.SortBy | pages/Dashboard.tsx:353 | `sort` by a key: sorted, and a permutation of the input |
| Ordering.InsertWithKey | pages/Dashboard.tsx:353 | an inserted element goes in front of every element with the same key |
| Ordering.SortByStable | pages/Dashboard.tsx:353 | the sort is stable: the elements sharing any key keep their input order |
| Ordering.Filter | pages/Dashboard.tsx:440 | `filter` keeps every copy of each passing element and nothing else, so its length is at most the input's |
| Ordering.FilterAppend | pages/Dashboard.tsx:440 | `filter` distributes over concatenation, so kept elements keep their relative order |
| Ordering.FilterSame | pages/Dashboard.tsx:440 | two tests that agree on every element filter alike |
| Ordering.FilterKeepsSorted | pages/Dashboard.tsx:440 | filtering a sorted sequence leaves it sorted |
| Ordering.SameMembers | pages/Dashboard.tsx:447 | a permutation has the same members |
| Text.Split | pages/Dashboard.tsx:171 | `split(sep)` yields at least one piece |
| Text.SplitPiecesFree | pages/Dashboard.tsx:171 | no piece of `split(sep)` contains the separator |
| Text.JoinSplit | pages/Dashboard.tsx:171 | joining the pieces with the separator gives the text back |
| Text.SplitJoin | pages/Dashboard.tsx:173 | separator-free pieces are what splitting their join gives |
| Text.SplitFree | pages/Dashboard.tsx:171 | text without the separator splits into itself alone |
| Text.SplitCount | pages/Dashboard.tsx:171 | there is one piece more than there are separators |
| Text.TrimStart | pages/Dashboard.tsx:175 | the result is a suffix; everything dropped is white space; it does not start with white space |
| Text.TrimEnd | pages/Dashboard.tsx:175 | the result is a prefix; everything dropped is white space; it does not end with white space |
| Text.Trim | pages/Dashboard.tsx:175 | `trim()` is a slice of the input with only white space before and after it, has no white space at either end, and is empty exactly when the input is all white space |
| Text.AsciiSpace | pages/Dashboard.tsx:175 | space, tab, newline and carriage return are white space; ASCII letters and digits are not |
| Text.TrimParts | pages/Dashboard.tsx:445 | trimming gives "" exactly when the input is all white space |
| Text.TrimUntrimmed | pages/Dashboard.tsx:175 | text without outer white space is its own trim |
| Text.TrimIdempotent | pages/Dashboard.tsx:175 | trimming twice is trimming once |
| Attendance.RangeBounds | pages/Dashboard.tsx:387-388 | the fixed ranges are 540..600 and 960..1020 minutes |
| Attendance.PresentCell | pages/Dashboard.tsx:385-389 | the default cell of a working day is Present, with an in-time in [09:00, 10:00] and an out-time in [16:00, 17:00] determined by the draw |
| Attendance.Override | pages/Dashboard.tsx:376 | an override exists exactly when the student has an entry for that date, and it is that entry |
| Attendance.GetAttendanceForDay | pages/Dashboard.tsx:375-390 | an override is returned verbatim; otherwise a Sunday or holiday gives the empty cell; otherwise Present with both times in their ranges |
| Attendance.StatusIgnoresDraw | pages/Dashboard.tsx:375-390 | the draw never changes the status read, and changes nothing at all for an override or a rest day |
| Attendance.EditCell | pages/Dashboard.tsx:399-409 | a Present status edit gives freshly drawn times; any other status edit clears both times; a time edit sets exactly that field and keeps the rest of the cell |
| Attendance.Store | pages/Dashboard.tsx:397-410 | storing a cell at [studentId][date] adds that key (and the student when missing) and changes no other student or date |
| Attendance.ApplyEdit | pages/Dashboard.tsx:393-412 | only [studentId][date] changes; it becomes the edited form of the cell the date read as; every other student and date is unchanged |
| Attendance.ReadBackEdit | pages/Dashboard.tsx:393-412 | after an edit, the date reads as the edited cell, whatever is drawn on reading |
| Attendance.EditIsLocal | pages/Dashboard.tsx:393-412 | after an edit, every other (student, date) reads exactly as before |
| Attendance.EditIdempotent | pages/Dashboard.tsx:393-412 | repeating an edit gives the same overrides (for a Present status edit, when the same times are drawn) |
| Attendance.EditCellIdempotent | pages/Dashboard.tsx:398-409 | editing an edited cell again with the same edit leaves it as it is (for a Present status edit, when the same times are drawn) |
| Attendance.IndexOf | pages/Dashboard.tsx:418 | `indexOf`: −1 exactly when absent, otherwise the first position holding the value |
| Attendance.CycleStatus | pages/Dashboard.tsx:414-425 | P→A, A→L, L→P; any status outside the rotation ('', H) → P |
| Attendance.CycleHasPeriodThree | pages/Dashboard.tsx:417-422 | three clicks return a rotation status to itself, and one click always changes it |
| Attendance.StatusCycle | pages/Dashboard.tsx:414-425 | the clicked cell gets the next status of the rotation; every other student and date keeps its override |
| Attendance.StatusCycleCell | pages/Dashboard.tsx:414-425 | after a click the cell has the next status, with times in range if Present and none otherwise |
| Attendance.EditKeepsTimesOnlyWhenPresent | pages/Dashboard.tsx:603 | edits keep "only Present cells have times" when time inputs are enabled only on Present cells |
| Attendance.TimeEditOnAbsentCell | pages/Dashboard.tsx:603 | without that input guard, a time edit on an Absent cell breaks the invariant |
| Sheet.DaysList | pages/Dashboard.tsx:364 | `Array.from({length: n}, (_, i) => i + 1)` is 1..n |
| Sheet.DescriptorOf | pages/Dashboard.tsx:360-365 | a month descriptor carries its year, its 0-based month and days 1..daysInMonth |
| Sheet.MonthsBetween | pages/Dashboard.tsx:355-367 | the loop yields one descriptor per month from start to end inclusive, in order, consecutive; exactly one when start = end, none when start is later |
| Sheet.ClassRoster | pages/Dashboard.tsx:353 | exactly the students of the selected class, as a permutation of the filtered list, sorted by name |
| Sheet.RosterStable | pages/Dashboard.tsx:353 | students of the class with the same name keep their order in the student list |
| Sheet.GenerateSheet | pages/Dashboard.tsx:347-371 | no sheet exactly when the class or a month is not chosen; otherwise the roster and the month descriptors from start to end |
| Summary.StatusOn | pages/Dashboard.tsx:464-467 | Absent, Leave or Holiday is read only from an override; without one, Present exactly on a working day |
| Summary.Bump | pages/Dashboard.tsx:463-467 | one more working day, and one more in at most one status counter, none of which falls |
| Summary.Tally | pages/Dashboard.tsx:458-469 | no more working days than days |
| Summary.StatusOnIsRead | pages/Dashboard.tsx:464 | the status a summary reads is determined without the random times |
| Summary.TallyStep | pages/Dashboard.tsx:458-469 | one more day updates the counters as the `forEach` body does |
| Summary.CountDay | pages/Dashboard.tsx:459-468 | a working day adds one working day and one to the counter of the status its cell reads as; a Sunday or holiday changes no counter |
| Summary.TallyAdvance | pages/Dashboard.tsx:458-469 | after each day of the `forEach` the counters equal the fold over the days so far |
| Summary.GetMonthlySummary | pages/Dashboard.tsx:455-472 | without a sheet, all zeros; otherwise the counters of the fold over the month's days, with the percentage present/workingDays·100 or 0 |
| Summary.TallyBounded | pages/Dashboard.tsx:462-468 | present + absent + leave ≤ workingDays |
| Summary.PercentageBounds | pages/Dashboard.tsx:470 | the percentage lies in [0, 100] |
| Summary.TallyIsCardinality | pages/Dashboard.tsx:458-469 | on distinct days, each counter is the number of days it is about |
| Summary.MonthTallyIsCardinality | pages/Dashboard.tsx:455-472 | workingDays is the number of days 1..daysInMonth that are neither Sunday nor holiday; each status counter is the number of those that read with the status |
| Summary.RestDayOverridesIgnored | pages/Dashboard.tsx:462 | overrides on Sundays and holidays never affect the summary |
| Holidays.DateKeyOrder | pages/Dashboard.tsx:260 | sorting by (year, month, day) is sorting by `new Date(date).getTime()` |
| Holidays.FindIndexByDate | pages/Dashboard.tsx:436 | `find` by date: −1 exactly when no holiday has the date, otherwise the first holiday with it |
| Holidays.RemoveHoliday | pages/Dashboard.tsx:440 | keeps every copy of each holiday with another id and none with that id, and keeps a sorted list sorted |
| Holidays.RemoveHolidayAppend | pages/Dashboard.tsx:440 | removal keeps the relative order of the holidays it keeps |
| Holidays.AddHoliday | pages/Dashboard.tsx:447 | the new list is sorted by date and is the old list plus the new holiday |
| Holidays.DateHeaderClick | pages/Dashboard.tsx:435-453 | on a declared date the list changes exactly when confirmed, losing that holiday's id; otherwise it changes exactly when the prompt gives a non-blank name, gaining the trimmed holiday in date order |
| Holidays.HeaderClickDeclares | pages/Dashboard.tsx:443-451 | naming a working day declares exactly that date more, and the list is sorted |
| Holidays.RemoveClearsDate | pages/Dashboard.tsx:440 | removing a holiday by id clears its date and no other |
| Holidays.KeptOthersClearsDate | pages/Dashboard.tsx:440 | a list of exactly the holidays with other ids lacks the removed date and no other |
| Holidays.HeaderClickClears | pages/Dashboard.tsx:436-442 | a confirmed click on a declared date clears exactly that date and keeps the order |
| Holidays.HeaderClickRefused | pages/Dashboard.tsx:437-452 | declining the confirmation, or cancelling or blanking the prompt, changes nothing |
| Holidays.ReplaceById | pages/Dashboard.tsx:256 | `map` replaces exactly the holidays with the form's id |
| Holidays.SaveHoliday | pages/Dashboard.tsx:251-263 | nothing without a name or a date; otherwise the result is sorted by date, and is a permutation of the list with that id replaced, or of the list plus the new holiday |
| Holidays.SaveHolidayDeclares | pages/Dashboard.tsx:251-263 | after a save the form's date is declared; a new holiday adds exactly its date |
| Holidays.DeleteHoliday | pages/Dashboard.tsx:265-269 | with confirmation the list loses exactly the holidays with that id; without it nothing changes |
| Holidays.AddThenDelete | pages/Dashboard.tsx:258-267 | adding under a fresh id and then deleting that id leaves the same multiset of holidays |
| Classes.HasClass | pages/Dashboard.tsx:713 | `some` by id: some class in the list has the id |
| Classes.DeletedClassIds | pages/Dashboard.tsx:713 | the ids of current classes that the new list lacks, and only those |
| Classes.CascadeStudents | pages/Dashboard.tsx:715 | keeps every copy of each student whose class id is not among the deleted ones, and none of the others |
| Classes.CascadeAppend | pages/Dashboard.tsx:715 | the cascade keeps the relative order of the students it keeps |
| Classes.SaveClasses | pages/Dashboard.tsx:712-719 | the classes become the new list; the students are rewritten exactly when some class went, losing that class's students |
| Classes.CascadeRemovesExactly | pages/Dashboard.tsx:712-716 | the cascade removes exactly the students whose class was removed, and no others |
| Classes.CascadeKeepsIntegrity | pages/Dashboard.tsx:712-719 | if every student had a class before the save, every remaining student has one after |
| Classes.OrphanWithoutCascade | pages/Dashboard.tsx:714-717 | without the cascade, removing a class leaves its student without a class |
| Classes.RenameClass | pages/Dashboard.tsx:90 | renaming changes the name of exactly the classes with that id and keeps every id |
| Classes.SaveClass | pages/Dashboard.tsx:85-97 | nothing without a name; otherwise a rename by id, or the new class appended |
| Classes.SaveClassKeepsStudents | pages/Dashboard.tsx:85-97 | saving the class form never removes a class, so no student goes |
| Classes.DeleteClass | pages/Dashboard.tsx:99-103 | with confirmation every copy of each class with another id stays and every class with that id goes; without it no list |
| Classes.DeleteClassAppend | pages/Dashboard.tsx:101 | deletion keeps the relative order of the remaining classes |
| Classes.DeleteClassKeepsOthers | pages/Dashboard.tsx:101 | after deletion no class has that id and every other id is present exactly as before |
| Classes.DeleteClassCascade | pages/Dashboard.tsx:99-103 | deleting an existing class and saving removes exactly its students |
| Classes.DeleteClassCascadeExact | pages/Dashboard.tsx:99-103 | deleting an existing class and saving leaves exactly the students of other classes, in their order; deleting a missing id leaves the students as they are |
| StudentImport.DataLines | pages/Dashboard.tsx:171 | after dropping the header there is one line per newline of the text |
| StudentImport.AcceptedLineShape | pages/Dashboard.tsx:173-174 | an accepted line has at least three commas and does not start with one |
| StudentImport.MakeStudent | pages/Dashboard.tsx:175 | the student gets the fresh id, the class being viewed and the four trimmed fields |
| StudentImport.ParseLines | pages/Dashboard.tsx:172-178 | one student per accepted line |
| StudentImport.MapStudents | pages/Dashboard.tsx:172-178 | one student per accepted line |
| StudentImport.MapStudentsAt | pages/Dashboard.tsx:172-178 | the i-th student is made from the i-th accepted line with the i-th id |
| StudentImport.AddedAt | pages/Dashboard.tsx:172-178 | the k-th student of the pass is in the class, has the k-th id and trimmed fields |
| StudentImport.AppendedStudents | pages/Dashboard.tsx:172-181 | after the existing students come the students of the accepted lines, each in the class, with its id and trimmed fields |
| StudentImport.ParseLinesIsFilterMap | pages/Dashboard.tsx:172-178 | the map-then-filter pass is a filter of the lines followed by a map |
| StudentImport.FreshIds | pages/Dashboard.tsx:175 | the k-th id is what the k-th `generateId` call returns |
| StudentImport.ImportStudents | pages/Dashboard.tsx:164-189 | the error alert exactly when no line is accepted; otherwise the old students followed by the new ones |
| StudentImport.ImportedStudents | pages/Dashboard.tsx:171-181 | the old students are kept in front; each new one is in the class, has its fresh id in order and trimmed fields; at most one per data line |
| StudentImport.MadeStudentUntrimmed | pages/Dashboard.tsx:175 | a made student has no outer white space in its fields |
| StudentImport.BlankFieldPassesCheck | pages/Dashboard.tsx:174-175 | a field of white space alone passes the non-empty check and is stored as "" |
| StudentImport.HeaderOnlyFails | pages/Dashboard.tsx:171-184 | a file with only the header line adds nobody and gives the error |
| StudentImport.FourFieldsAccepted | pages/Dashboard.tsx:173-175 | four non-empty comma-free fields make an accepted line, whose student has the trimmed fields |
| StudentImport.ShortLineRejected | pages/Dashboard.tsx:173-174 | a line with fewer than three commas is rejected |
| StudentImport.OneLineFile | pages/Dashboard.tsx:164-189 | a header plus one line of four fields appends exactly that one student |
| StudentImport.JoinFree | pages/Dashboard.tsx:171 | joining newline-free fields with commas gives a newline-free line |
| Dashboard.App.constructor | pages/Dashboard.tsx:684-696 | the Dashboard starts from the loaded collections |
| Dashboard.App.SaveStudents | pages/Dashboard.tsx:721-723 | the students are replaced; nothing else changes |
| Dashboard.App.SaveHolidays | pages/Dashboard.tsx:725-727 | the holidays are replaced; nothing else changes |
| Dashboard.App.SaveAttendance | pages/Dashboard.tsx:729-731 | the attendance is replaced; nothing else changes |
| Dashboard.App.SaveClasses | pages/Dashboard.tsx:712-719 | the classes become the new list; the students are those of the cascade |
| Dashboard.App.SaveClassForm | pages/Dashboard.tsx:85-97 | the classes become the saved form's list, or stay without a name; the students stay |
| Dashboard.App.DeleteClassConfirmed | pages/Dashboard.tsx:99-103 | with confirmation the classes with that id go and, when one existed, the students become those of other classes in their order; without it nothing changes |
| Dashboard.App.SaveHolidayForm | pages/Dashboard.tsx:251-263 | the holidays become the saved form's list, or stay |
| Dashboard.App.DeleteHolidayConfirmed | pages/Dashboard.tsx:265-269 | with confirmation the holidays with that id go; without it nothing changes |
| Dashboard.App.ImportCsv | pages/Dashboard.tsx:164-189 | on success the students are saved and the number added is reported; otherwise the error and no change |
| Dashboard.AttendanceManager.constructor | pages/Dashboard.tsx:311-321 | the live overrides start as the Dashboard's attendance, with no sheet |
| Dashboard.AttendanceManager.HandleAttendanceChange | pages/Dashboard.tsx:393-412 | the copy-and-assign yields exactly ApplyEdit of the live overrides; the sheet stays |
| Dashboard.AttendanceManager.HandleStatusCycle | pages/Dashboard.tsx:414-425 | the live overrides move one step along the rotation at that cell |
| Dashboard.AttendanceManager.HandleGenerateSheet | pages/Dashboard.tsx:347-371 | without a class or month nothing changes; otherwise the sheet has the sorted roster and the month range, and the first month is shown |
| Dashboard.AttendanceManager.MonthlySummaryOf | pages/Dashboard.tsx:455-472 | the summary of the live overrides; present + absent + leave ≤ workingDays and the percentage lies in [0, 100] |
| Dashboard.AttendanceManager.HandleDateHeaderClick | pages/Dashboard.tsx:435-453 | the Dashboard's holidays become what DateHeaderClick gives, or stay; nothing else changes |
| Dashboard.AttendanceManager.HandleSaveAttendance | pages/Dashboard.tsx:427-431 | the Dashboard's attendance becomes the live overrides |

The datatypes follow `types.ts`:
- `ClassInfo` follows types.ts:6-9 and `Student` follows types.ts:11-18.
- `Attendance.Status` follows types.ts:20 and `DailyAttendance` follows types.ts:22-26.
- The nested `AttendanceData` map follows types.ts:28-35.
- `Holiday` follows types.ts:38-42.

## Left out

- Rendering is not modelled, nor React state plumbing. This covers modals, navigation between sheet months (`setCurrentMonthIndex` on buttons), printing, toasts and the `isSaving` flags.
- The store is not modelled: localStorage, JSON serialisation and simulated latency. A save replaces the field.
- The cascade's two saves are modelled as running in sequence. A failure between them is not modelled, since the store is not modelled.
- `App.tsx`, the login page and the institute-info form are not modelled. They hold no engine logic.
- `Math.random` and `generateId` become parameters: `Draw` values, `freshId` strings, and the `freshId: nat -> string` function of the import.
- `FileReader`, `alert`, `window.confirm` and `window.prompt` become inputs or results.
- Dates are `Calendar.Date` values, not "YYYY-MM-DD" texts. `holidaySet.has(dateStr)` becomes membership of the date. Time zones are not modelled: `new Date(...)` is taken in local time on both sides.
- Month names from `toLocaleString` and the weekday initials are not modelled. Month inputs are `Option<YearMonth>`, where None is a blank input.
- `localeCompare` is modelled as code-point order.
- The percentage is the exact real ratio. Its `toFixed(2)` text is not modelled, nor the `parseFloat(...) < 75` colour flag computed from it.
- Clock.CalculateDuration: text that is not a well-formed "HH:MM" gives None; the browser's date parser decides it. This includes "24:00", which that parser accepts.
- The StudentManager's own add/edit/delete form is not modelled. It is plain record CRUD with no property beyond replacement.
- Summary.GetMonthlySummary: one draw stands for the random times of every default cell read. The summary reads only statuses, which no draw changes (`Attendance.StatusIgnoresDraw`).
- StudentImport.ParseLines: `|ids| >= |lines|` comes from passing the generated ids as a sequence. `ImportStudents` always supplies enough.
- Holidays.HeaderClickClears and Holidays.RemoveClearsDate: these assume distinct ids and at most one holiday per date. The source keeps that only as long as the holiday form is not used to add a second holiday on a declared date.
- Holidays.AddThenDelete: stated as equal multisets. The positions can differ when the list was not sorted before the add, since the add re-sorts it.
- `Calendar.Date` values cover every year, while the source's "YYYY-MM-DD" texts agree with them only for years 1000..9999. The year is printed without padding (pages/Dashboard.tsx:460, :518, :570). `new Date(year, month, day)` maps years 0..99 to 1900..1999 (pages/Dashboard.tsx:363, :459). Texts are re-parsed with `new Date(dateStr + 'T00:00:00')` (pages/Dashboard.tsx:379, :519). None of these are modelled, so the properties agree with the source only inside that range.
- Deep copy: `JSON.parse(JSON.stringify(...))` is value semantics in Dafny, so aliasing between the copy and the live map cannot arise.
