# Timetable engine, timetable controller and cart check of IDA-tool

A Dafny model of the core of IDA-tool, a desktop course planner. Students put courses in a
cart, and the planner proposes timetables. The model covers four parts:

- **The timetable engine** (`TimetableAlgorithm.generate_combinations`). It groups session
  records by course code and drops records without a day. Two codes conflict when some session
  of one meets some session of the other on the same day and their half-open intervals
  `[start, end)` intersect. An exhaustive include-before-exclude backtracking search then
  collects every maximum-size conflict-free set of codes. Each set becomes a candidate: the
  chosen codes, plus a map from every other code to the chosen codes it conflicts with.
- **The timetable controller** (`TimetableController`). It holds the candidates and an index
  into them, and tells the timetable page what to show: the formatted entries, "Schedule i of
  n", and which navigation buttons are enabled. A re-entrancy flag (`_is_updating`) guards
  every update.
- **The cart admission check** of the database manager (`add_to_cart`) and its two
  validators, `_is_valid_time` and `_validate_day`.
- **The two string helpers** `show_date` and `format_time`.

Layout, one module per file:

- `wrappers.dfy`: `Option` and `Result`.
- `py_builtins.dfy`: the Python built-ins the source relies on: `str.strip`, `str.split`,
  `int()` on text, and the values a dynamically typed argument can take.
- `helper.dfy`: utils/helper.py.
- `sessions.dfy`: the session record and the overlap rule.
- `grouping.dfy`: the grouping step of the engine.
- `search.dfy`: `check_conflicts` and the backtracking search. The search's closure state
  (`current`, `max_len`, `max_schedules`) is a class whose methods update it in place. The
  search is proved against `Leaves`, the list of complete selections in depth-first order, folded
  by `VisitAll`.
- `timetable_service.dfy`: candidate assembly, `generate_combinations` and
  `generate_timetable_combinations`.
- `db_manager.dfy`: the validators and the `add_to_cart` decision.
- `timetable_controller.dfy`: the controller as a class.

Where the engine's documentation and its code differ, the model follows the code:

- The documentation says records with a missing *or invalid* day are dropped. The code
  (utils/timetable_service.py:16) drops only records whose day is `None`. Any other day value
  is kept and compared as is.
- The documentation states `start < end` for every session. The code never checks it. The
  model therefore assumes it only where a lemma says so.

## Model

| member | source | states |
|---|---|---|
| Sessions.OverlapIsSharedMinute | utils/timetable_service.py:35 | For non-empty intervals, the overlap test holds exactly when some minute lies in both half-open intervals. The test is symmetric, and back-to-back intervals do not overlap. |
| Sessions.GroupsConflictSymmetric | utils/timetable_service.py:27-37 | Two session groups conflict in one order exactly when they conflict in the other. |
| Sessions.DifferentDaysNeverConflict | utils/timetable_service.py:30 | Groups whose sessions are all on different days never conflict, whatever their times. |
| Grouping.Grouped | utils/timetable_service.py:13-20 | The grouping has distinct keys, and the dictionary's keys are exactly the listed codes. |
| Grouping.GroupByCode | utils/timetable_service.py:13-20 | The grouping loop builds exactly the grouping of the input. |
| Grouping.CodesFirstSeenMembers | utils/timetable_service.py:13-20 | A code is a key exactly when some record with a day has that code. Keys are pairwise distinct. |
| Grouping.SessionsOfMembers | utils/timetable_service.py:15-20 | A record is in a code's group exactly when it is an input record with a day and with that code. |
| Grouping.CodesInFirstSeenOrder | utils/timetable_service.py:20-25 | Keys are in first-appearance order: an earlier key has a record before any record of a later key. |
| Grouping.NoCodesIffNothingUsable | utils/timetable_service.py:16-23 | There are no keys exactly when no input record has a day. |
| Grouping.EmptyMapNoCodes | utils/timetable_service.py:22-25 | The dictionary is empty exactly when the key list is empty. |
| Search.CheckConflicts | utils/timetable_service.py:27-37 | The nested loop returns true exactly when some session of the first code overlaps some session of the second on the same day. |
| Search.CanInclude | utils/timetable_service.py:56-58 | The `all(...)` test holds exactly when the code at `pos` conflicts with no code already chosen. |
| Search.MaxScheduleSearch.constructor | utils/timetable_service.py:40-42 | The search starts with an empty selection, best length 0 and no schedules. |
| Search.MaxScheduleSearch.Record | utils/timetable_service.py:47-54 | At a complete selection, a longer selection restarts the list, an equally long one is appended, and a shorter one changes nothing. |
| Search.MaxScheduleSearch.Backtrack | utils/timetable_service.py:44-64 | Backtracking restores `current`. Its effect on (`max_len`, `max_schedules`) is visiting every complete selection below `pos` in include-before-exclude order. |
| Search.FindMaxSchedules | utils/timetable_service.py:39-67 | It returns every conflict-free selection of the largest size and nothing else, together with that size. No conflict-free selection is longer. |
| Search.TallyOfVisitAll | utils/timetable_service.py:47-54 | Visiting a list of selections ends with the larger of the old best and the list's longest length. The result keeps the old schedules only when none is longer, then adds the list's selections of that length, in order. |
| Search.VisitAllAppend | utils/timetable_service.py:60-64 | Visiting two lists one after the other is visiting their concatenation. |
| Search.MaxLengthIsMaximum | utils/timetable_service.py:48-49 | The best length bounds every selection visited, and some visited selection reaches it. |
| Search.WithLengthMembers | utils/timetable_service.py:52-53 | The kept selections are exactly the visited selections of the best length. |
| Search.ExtendPartial | utils/timetable_service.py:57-62 | Adding a compatible code to a valid partial selection gives a valid partial selection at the next position. |
| Search.LeavesSound | utils/timetable_service.py:44-64 | Every complete selection the search reaches is increasing, pairwise conflict-free, and extends the current partial selection. |
| Search.LeavesComplete | utils/timetable_service.py:44-64 | Every conflict-free selection that extends the current partial selection is reached. |
| Search.IncludeBeforeExclude | utils/timetable_service.py:60-64 | Every selection reached through "include pos" comes before every selection reached through "exclude pos". |
| Search.LeavesInSearchOrder | utils/timetable_service.py:44-64 | Selections are reached in search order: where two differ first, the earlier includes the code and the later leaves it out. |
| Search.WithLengthInSearchOrder | utils/timetable_service.py:52-53 | Keeping only the selections of the best length preserves the search order. |
| Search.InSearchOrderDistinct | utils/timetable_service.py:39-67 | Selections in search order are pairwise distinct. |
| Search.AllSchedulesExact | utils/timetable_service.py:39-67 | The complete selections reached from position 0 are exactly the conflict-free selections. |
| Search.MaximumSchedulesExact | utils/timetable_service.py:39-67 | The search's result is exactly the set of conflict-free selections of maximum size. |
| Search.MaximumSchedulesNonEmpty | utils/timetable_service.py:22-23 | With at least one code, the maximum size is positive and there is at least one maximum selection. |
| Search.MaximumSchedulesCorrect | utils/timetable_service.py:39-67 | All properties of the result together: maximum, complete, in search order, without duplicates, and non-empty when there are codes. |
| TimetableService.ConflictingSelected | utils/timetable_service.py:78 | The list comprehension computes the conflict list of one code against the chosen codes. |
| TimetableService.ConflictsWithMembers | utils/timetable_service.py:78 | A code is in that list exactly when it is chosen and conflicts with the excluded code. |
| TimetableService.ExcludedFor | utils/timetable_service.py:74-79 | The loop builds the excluded map of a selection. |
| TimetableService.ExcludedUpToKeys | utils/timetable_service.py:76-79 | After `i` positions, the keys are exactly the unchosen codes among the first `i`. |
| TimetableService.ExcludedUpToValues | utils/timetable_service.py:76-79 | After `i` positions, each unchosen code among the first `i` maps to its conflict list. |
| TimetableService.ChosenIffPositionChosen | utils/timetable_service.py:77 | A code is among the chosen codes exactly when its position is in the selection. |
| TimetableService.AssembleCandidates | utils/timetable_service.py:71-84 | There is one candidate per maximum selection, in order, each built from that selection. |
| TimetableService.SelectedConflictFree | utils/timetable_service.py:57-58 | No two chosen codes of a candidate conflict, in either order. |
| TimetableService.SelectedInKeyOrder | utils/timetable_service.py:73 | The chosen codes follow the grouping's key order, one per selected position. |
| TimetableService.ExcludedKeys | utils/timetable_service.py:74-79 | The excluded map's keys are exactly the codes that were not chosen. |
| TimetableService.ExcludedValues | utils/timetable_service.py:76-79 | Each excluded code lists exactly the chosen codes it conflicts with. |
| TimetableService.CodesAtDistinct | utils/timetable_service.py:73 | The chosen codes of a selection are pairwise distinct. |
| TimetableService.ScheduleCodesCompatible | utils/timetable_service.py:57-58 | The chosen codes form a pairwise conflict-free set of the same size as the selection. |
| TimetableService.SameCodesSameSchedule | utils/timetable_service.py:44-64 | Two selections with the same set of chosen codes are the same selection. |
| TimetableService.CandidatesAreMaximumSets | utils/timetable_service.py:39-84 | Each candidate's codes are a maximum conflict-free set, and no conflict-free set is larger. Every maximum conflict-free set is some candidate, and no two candidates choose the same set. |
| TimetableService.CandidatesNonEmpty | utils/timetable_service.py:22-23 | Every candidate chooses the maximum number of codes. With at least one code, there is a candidate and none is empty. |
| TimetableService.GenerateCombinations | utils/timetable_service.py:10-86 | It fails (ValueError) exactly when no record has a day. Otherwise it returns the candidates of the grouping and the grouping itself: at least one candidate, none empty. |
| TimetableService.GenerateTimetableCombinations | utils/timetable_service.py:89-95 | The service passes the engine's outcome through unchanged. |
| PyBuiltins.Strip | utils/helper.py:16 | `strip()` leaves no white space at either end, and what it removes is white space only (with `StripIsSlice`). |
| PyBuiltins.StripIsSlice | utils/helper.py:16 | `strip()` returns a contiguous piece `s[i..j]` of its input, and every character before `i` and from `j` on is white space. |
| PyBuiltins.StripPadded | utils/helper.py:16 | Stripping a stripped text padded with a space on either side gives the text back. |
| PyBuiltins.Split | utils/helper.py:15 | `split(sep)` gives one more piece than there are separators, and no piece holds the separator. |
| PyBuiltins.JoinSplit | utils/helper.py:15 | Joining the pieces of `split(sep)` with `sep` gives the input back. |
| PyBuiltins.SplitTwo | database/db_manager.py:46 | A text with exactly one separator splits into the text before it and the text after it. |
| Helper.ShowDate | utils/helper.py:3-10 | Indexing of the five weekday names: an int in -5..4 names a day (negative ones counted from the end). Any other int (IndexError) or a non-int (TypeError) gives no name. |
| Helper.FormatTime | utils/helper.py:12-18 | A text that splits on '-' into exactly two pieces becomes the two stripped pieces joined by " - ". Any other text fails the unpacking and comes back unchanged. |
| Helper.ShowDateRange | utils/helper.py:3-10 | `show_date` names exactly the indices -5..4. 0..4 are Monday..Friday, and a negative index names the day five above it. |
| Helper.ShowDateNonInt | utils/helper.py:8-10 | A value that is not an int raises TypeError, which is caught, so there is no name. |
| Helper.FormatTimeOneDash | utils/helper.py:15-16 | A text with one '-' becomes its two stripped sides joined by " - ". |
| Helper.FormatTimeUnchanged | utils/helper.py:14-18 | A text with any other number of '-' comes back unchanged. |
| Helper.StripWithout | utils/helper.py:16 | Stripping never introduces a character. |
| Helper.FormatTimeIdempotent | utils/helper.py:12-18 | Formatting an already formatted time changes nothing. |
| DbManager.IsValidTime | database/db_manager.py:43-49 | A string that splits on ':' into exactly two int pieces, hours in 0..23 and minutes in 0..59. A non-string, another number of pieces or a piece that is not an int gives false. |
| DbManager.ValidateDay | database/db_manager.py:51-60 | A key of `day_map` (full name, abbreviation or digit string of a weekday), or an int in 0..4. |
| DbManager.ValidTimeOfPieces | database/db_manager.py:43-49 | A text with one ':' is a valid time exactly when the hour side parses to 0..23 and the minute side to 0..59. |
| DbManager.ValidTimeMinutes | database/db_manager.py:43-49 | A valid time has exactly one ':' and converts to a minute of the day. |
| DbManager.TimeTextValid | database/db_manager.py:43-49 | The zero-padded `HH:MM` text of every minute of the day is a valid time. |
| DbManager.DayNumbersAgreeWithShowDate | database/db_manager.py:53-57 | Every spelling of a weekday maps to that weekday's index, and `show_date` names that index with the full name. |
| DbManager.DayNumbersKeys | database/db_manager.py:53-57 | Every key of `day_map` is a spelling of the weekday it maps to, which is in 0..4. |
| DbManager.ValidateDayExactly | database/db_manager.py:51-60 | `_validate_day` accepts exactly the full name, the abbreviation, the digit string and the int of a weekday 0..4. |
| DbManager.ToMinutes | database/db_manager.py:472-473 | Sixty times the first ':' piece plus the second, with later pieces ignored; no value when a piece it reads is not an int. |
| DbManager.ToMinutesHoursOnly | database/db_manager.py:472 | A time without ':' is read as whole hours, because `zip` stops at the shorter list. |
| DbManager.ToMinutesFirstTwoPieces | database/db_manager.py:472 | The conversion depends only on the first two pieces. |
| DbManager.ToMinutesIgnoresRest | database/db_manager.py:472 | Whatever follows a second ':' is ignored. |
| DbManager.ToMinutesOfPieces | database/db_manager.py:472-473 | A time with one ':' converts to sixty times its hour side plus its minute side, and fails when either side is not an int. |
| DbManager.TwoDigitTimeMinutes | database/db_manager.py:472-473 | The zero-padded text of hours and minutes converts to 60 * hours + minutes. |
| DbManager.TimeTextRoundTrip | database/db_manager.py:472-473 | Converting the `HH:MM` text of a minute of the day gives that minute back. |
| DbManager.RowVerdict | database/db_manager.py:483-501 | One cart session: on another day it is clear. On the same day its converted times are compared: an overlap clashes (and fails when the day cannot index the weekday names), no overlap is clear, and an unconvertible time fails. |
| DbManager.ScreenRows | database/db_manager.py:475-501 | The cart sessions in query order: the first clash reports that session, the first failure fails, and the course is added when all are clear. |
| DbManager.Screen | database/db_manager.py:471-501 | The new course's times are converted first (failure when either cannot be), then the cart sessions are screened against them. |
| DbManager.ScreenRowsAddsIffAllClear | database/db_manager.py:475-511 | The loop adds the course exactly when every cart session is clear: on another day, or on the same day with convertible times that do not overlap. |
| DbManager.ScreenRowsStopsAtFirst | database/db_manager.py:475-501 | The first cart session that is not clear decides: an overlap reports that session, a failure fails, and later sessions are not examined. |
| DbManager.RowVerdictOfMinutes | database/db_manager.py:483-490 | For a weekday and parsed cart times, a cart session clashes exactly when it is on the same day and overlaps. Otherwise it is clear. |
| DbManager.RowClashIffSharedMinute | database/db_manager.py:483-488 | For valid times, a clash means same day and a shared minute. Back-to-back sessions never clash, and a row never fails. |
| DbManager.CartRuleIsEngineRule | database/db_manager.py:483-501 | The cart check and the timetable engine use the same conflict rule: a one-row cart clashes exactly when the two sessions conflict for the engine. |
| DbManager.DecideAdmission | database/db_manager.py:423-520 | Order of outcomes: unknown course, then already in cart, then forced add. Otherwise the result is the conflict screen over the cart sessions in query order. |
| TimetableControl.DayLabel | controllers/timetable_controller.py:80-81 | The day column is a weekday name exactly for 0..4, and then the name of that day. |
| TimetableControl.DayLabelAgainstShowDate | controllers/timetable_controller.py:80-81 | The label agrees with `show_date` on 0..4. On -5..-1, `show_date` counts from the end and the label says "Unknown". |
| TimetableControl.EntryOf | controllers/timetable_controller.py:80-90 | The entry of one session: its code, its day label, its times, venue and instructor. A session without a day raises, which is no entry. |
| TimetableControl.EntriesOf | controllers/timetable_controller.py:78-91 | The entries of one course's sessions in order, or none when some session raises. |
| TimetableControl.GroupOf | controllers/timetable_controller.py:78 | `course_groups[code]` of the engine's `defaultdict(list)`: the code's group, or no sessions for a code without one. |
| TimetableControl.FormatSchedule | controllers/timetable_controller.py:77-91 | The entries of the chosen codes, course after course, or none when some session raises. |
| TimetableControl.FormatCourse | controllers/timetable_controller.py:78-91 | The inner loop computes exactly the entries of one course, and stops with none at the first session without a day. |
| TimetableControl.FormatSelected | controllers/timetable_controller.py:77-91 | The outer loop computes exactly the formatted schedule, and stops with none at the first course that raises. |
| TimetableControl.FormattableFormats | controllers/timetable_controller.py:77-91 | When every session of the chosen codes has a day, formatting succeeds. |
| TimetableControl.FormatsFormattable | controllers/timetable_controller.py:77-91 | When formatting succeeds, every session of the chosen codes has a day. |
| TimetableControl.EntriesOfMeaning | controllers/timetable_controller.py:78-91 | A course formats exactly when all its sessions have a day. It then yields one entry per session, in order. |
| TimetableControl.FormatScheduleDefined | controllers/timetable_controller.py:72-97 | Formatting succeeds exactly when every session of the chosen codes has a day. A code without a group contributes nothing. |
| TimetableControl.FormatScheduleCount | controllers/timetable_controller.py:77-91 | The formatted schedule has one entry per session of the chosen codes. |
| TimetableControl.FormatScheduleEntriesSound | controllers/timetable_controller.py:77-91 | Every formatted entry comes from a session of a chosen code. |
| TimetableControl.FormatScheduleEntriesComplete | controllers/timetable_controller.py:77-91 | Every session of every chosen code contributes its entry. |
| TimetableControl.CandidateFormats | controllers/timetable_controller.py:72-91 | Every candidate of the engine can be formatted against the engine's own grouping. |
| TimetableControl.EngineOutputFormats | controllers/timetable_controller.py:72-91 | The same for all candidates at once. |
| TimetableControl.FirstCandidateShowable | controllers/timetable_controller.py:21-33 | When some cart record has a day, there is a first candidate and it formats. |
| TimetableControl.NextIndex | controllers/timetable_controller.py:106-107 | "Next" moves one further while the index is below the last position, and otherwise stays. |
| TimetableControl.PrevIndex | controllers/timetable_controller.py:121-122 | "Previous" moves one back while the index is above 0, and otherwise stays. |
| TimetableControl.PrevEnabled | controllers/timetable_controller.py:131 | Previous is enabled exactly when the index is above 0. |
| TimetableControl.NextEnabled | controllers/timetable_controller.py:132-134 | Next is enabled exactly when the index is below n - 1. |
| TimetableControl.NavigationStatus | controllers/timetable_controller.py:138-140 | The status shows index + 1 of n, or 0 of 0 without schedules. |
| TimetableControl.NavigationMeaning | controllers/timetable_controller.py:99-140 | Navigation stays in range, and a button is enabled exactly when pressing it moves the index. Previous undoes Next and the other way round, and the status reads i of n with 1 <= i <= n. |
| TimetableControl.NextTimesReachesAll | controllers/timetable_controller.py:99-112 | Pressing Next k times reaches index + k, stopping at the last candidate. |
| TimetableControl.TimetableController.constructor | controllers/timetable_controller.py:8-19 | The controller starts with no schedules, no groups, index 0, an empty cart, and the flag clear. |
| TimetableControl.TimetableController.ShowCurrentSchedule | controllers/timetable_controller.py:66-97 | The page shows the formatted current candidate. It keeps what it showed when there is none or when formatting raises. Nothing else changes. |
| TimetableControl.TimetableController.UpdateNavigationButtons | controllers/timetable_controller.py:129-134 | Previous is enabled exactly when index > 0. Next is enabled exactly when index < n - 1. |
| TimetableControl.TimetableController.UpdateNavigationStatus | controllers/timetable_controller.py:136-140 | The status is (index + 1, n), or (0, 0) without schedules. |
| TimetableControl.TimetableController.Refresh | controllers/timetable_controller.py:108-110 | Showing the schedule, then updating the status and the buttons, leaves all three matching the current index. |
| TimetableControl.TimetableController.SetSchedules | controllers/timetable_controller.py:41-64 | An empty list, or a call while updating, changes nothing. Otherwise the schedules and groups are stored, index 0 is shown, the status is 1 of n, Previous is disabled, and Next is enabled exactly when n > 1. The flag ends clear. |
| TimetableControl.TimetableController.NextSchedule | controllers/timetable_controller.py:99-112 | When updating, or at the last candidate, nothing changes. Otherwise the index advances by one and the page, status and buttons follow it. |
| TimetableControl.TimetableController.PrevSchedule | controllers/timetable_controller.py:114-127 | When updating, or at the first candidate, nothing changes. Otherwise the index goes back by one and the page, status and buttons follow it. |
| TimetableControl.TimetableController.Show | controllers/timetable_controller.py:142-152 | Unless updating, it redisplays the current candidate and the buttons, and leaves the status and the index alone. |
| TimetableControl.TimetableController.SetCartCourses | controllers/timetable_controller.py:21-33 | The cart is always stored. With a usable cart and the flag clear, the engine's candidates are installed and the first is shown. Otherwise (ValueError, or busy) nothing else changes. |
| TimetableControl.TimetableController.RefreshTimetable | controllers/timetable_controller.py:158-168 | An empty or unusable cart changes nothing. Otherwise the candidates are regenerated and installed with the first shown. While busy, only the page is redrawn. |

## Left out

- Qt widgets, signals and `setup_connections`, `get_page`, and the `TimetablePage` itself: the page is modelled by the last values handed to it. Its buttons are assumed enabled when it is created, and nothing else of its drawing is modelled.
- Logging and the text of every message (conflict, success and error messages). `add_to_cart` is modelled by the kind of outcome only.
- SQLite: the three queries become parameters of `DatabaseManager.add_to_cart`'s decision, namely the first session row, whether the course is in the cart, and the cart's session rows. The insert and commit are not modelled, and neither are `sqlite3.Error` and the `with` connection handling. Their handler returns failure just like the last handler, which is `Failed`.
- `datetime.strptime`: session times inside the engine are minutes of the day (`Minute`). A malformed time, which makes `check_conflicts` raise, is excluded by that type.
- The insertion order of Python dictionaries: the excluded map is a Dafny `map`, so its key order is not modelled. Its keys and values are.
- The `current.append` / `current.pop` pair is modelled as a sequence field that is extended and then cut back. The list object's identity and the `current[:]` copy are not modelled: sequences are values.
- `int()` on text is modelled as surrounding white space, one optional sign, then ASCII digits with single underscores between digits. Non-ASCII digits, which Python also accepts, are not modelled.
- `DbManager.ValidateDay`: an unhashable argument (a list or a dict) makes `_validate_day` raise TypeError. The model's `PyValue` has ints, strings, `None` and one opaque other value, and `ValidateDay` gives false for the other value instead of raising.
- `bool` values passed where an int is expected (Python treats `True` as 1) are not distinguished from ints.
- The descriptive fields of a session other than venue and instructor, namely name, type and remarks, are not modelled. They are only carried through.
- The `isinstance(result, tuple)` test in `set_cart_courses` is always true for the service's result, so that branch is not modelled.
- `course_groups` is the engine's `defaultdict(list)`: the model reads a code without a group as no sessions (`GroupOf`), as the defaultdict does. The key that the defaultdict inserts on that read is not modelled: `ShowCurrentSchedule` leaves `courseGroups` unchanged. For the engine's own candidates the case does not arise, because every chosen code is a key (`CandidateFormats`).
- An exception raised inside `show_current_schedule` by a session without a day is modelled as "the page keeps its old entries". Other exceptions, for example from the widget, are not modelled.
- A course record without a 'day' key makes the engine raise KeyError. Records are modelled with an optional day, so only a day that holds `None` is represented, and it is dropped as the engine drops it.
- `utils/helper.py:resource_path`, and every other method of the database manager, are not part of this model.
