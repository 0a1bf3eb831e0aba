/**
 * `TimetableController` of controllers/timetable_controller.py: it holds the candidates of
 * the timetable engine and the grouped sessions, keeps an index into the candidates, and
 * tells the timetable page what to show. The page is modelled by the values last handed to
 * it (the formatted entries, the "Schedule i of n" numbers and the two button states).
 */
module TimetableControl {
  import opened Wrappers
  import opened PyBuiltins
  import opened Helper
  import opened Sessions
  import opened Grouping
  import opened Search
  import opened TimetableService

  /** One formatted entry handed to the page. */
  datatype Entry = Entry(code: string, day: string, start: Minute, end: Minute, venue: string, instructor: string)

  /** The day column of an entry: the weekday name for 0..4, "Unknown" otherwise. */
  function DayLabel(day: int): (name: string)
    ensures name in Weekdays <==> 0 <= day < |Weekdays|
    ensures 0 <= day < |Weekdays| ==> name == Weekdays[day]
  {
    if 0 <= day < |Weekdays| then Weekdays[day] else "Unknown"
  }

  /**
   * The controller's day label and `show_date` agree on 0..4; on -5..-1 `show_date` counts
   * from the end of the list while the controller says "Unknown".
   */
  lemma DayLabelAgainstShowDate(day: int)
    ensures 0 <= day < 5 ==> ShowDate(PyInt(day)) == Some(DayLabel(day))
    ensures -5 <= day < 0 ==> ShowDate(PyInt(day)).Some? && DayLabel(day) == "Unknown"
    ensures !(-5 <= day < 5) ==> ShowDate(PyInt(day)) == None && DayLabel(day) == "Unknown"
  {
    ShowDateRange(day);
  }

  /** The entry for one session; a session without a day makes the comparison raise. */
  function EntryOf(s: Session): Option<Entry>
  {
    match s.day
    case None => None
    case Some(d) => Some(Entry(s.code, DayLabel(d), s.start, s.end, s.venue, s.instructor))
  }

  /** The entries for the sessions of one course, in order; `None` if one has no day. */
  function EntriesOf(sessions: seq<Session>): Option<seq<Entry>>
  {
    if sessions == [] then Some([])
    else
      match EntriesOf(sessions[..|sessions| - 1])
      case None => None
      case Some(es) =>
        match EntryOf(sessions[|sessions| - 1])
        case None => None
        case Some(e) => Some(es + [e])
  }

  /**
   * `course_groups[code]`: the groups come from the engine's `defaultdict(list)`, so a code
   * without a group reads as no sessions rather than raising.
   */
  function GroupOf(groups: map<string, seq<Session>>, code: string): seq<Session>
  {
    if code in groups then groups[code] else []
  }

  /**
   * The formatted schedule of the chosen codes, course after course; `None` when the loop
   * raises (a session without a day).
   */
  function FormatSchedule(selected: seq<string>, groups: map<string, seq<Session>>): Option<seq<Entry>>
  {
    if selected == [] then Some([])
    else
      var code := selected[|selected| - 1];
      match FormatSchedule(selected[..|selected| - 1], groups)
      case None => None
      case Some(es) =>
        match EntriesOf(GroupOf(groups, code))
        case None => None
        case Some(more) => Some(es + more)
  }

  /** Number of sessions of the chosen codes. */
  function SessionCount(selected: seq<string>, groups: map<string, seq<Session>>): nat
  {
    if selected == [] then 0
    else
      var code := selected[|selected| - 1];
      SessionCount(selected[..|selected| - 1], groups) + |GroupOf(groups, code)|
  }

  /** A course formats exactly when all its sessions have a day, into one entry per session. */
  lemma {:induction false} EntriesOfMeaning(sessions: seq<Session>)
    ensures EntriesOf(sessions).Some? <==> forall k :: 0 <= k < |sessions| ==> sessions[k].day.Some?
    ensures EntriesOf(sessions).Some? ==>
      && |EntriesOf(sessions).value| == |sessions|
      && forall k :: 0 <= k < |sessions| ==> EntriesOf(sessions).value[k] == EntryOf(sessions[k]).value
  {
    if sessions != [] {
      var init := sessions[..|sessions| - 1];
      EntriesOfMeaning(init);
    }
  }

  /** Every session in the groups of the chosen codes has a day. */
  predicate AllFormattable(selected: seq<string>, groups: map<string, seq<Session>>)
  {
    forall k, s :: 0 <= k < |selected| && s in GroupOf(groups, selected[k]) ==> s.day.Some?
  }

  lemma AllFormattableInit(selected: seq<string>, groups: map<string, seq<Session>>)
    requires selected != [] && AllFormattable(selected, groups)
    ensures AllFormattable(selected[..|selected| - 1], groups)
  {
    var init := selected[..|selected| - 1];
    forall k, s | 0 <= k < |init| && s in GroupOf(groups, init[k])
      ensures s.day.Some?
    {
      assert init[k] == selected[k];
    }
  }

  /**
   * `show_current_schedule` formats a schedule exactly when every session of the chosen
   * codes has a day.
   */
  lemma {:induction false} FormatScheduleDefined(selected: seq<string>, groups: map<string, seq<Session>>)
    ensures FormatSchedule(selected, groups).Some? <==> AllFormattable(selected, groups)
  {
    if AllFormattable(selected, groups) {
      FormattableFormats(selected, groups);
    }
    if FormatSchedule(selected, groups).Some? {
      FormatsFormattable(selected, groups);
    }
  }

  lemma {:induction false} FormattableFormats(selected: seq<string>, groups: map<string, seq<Session>>)
    requires AllFormattable(selected, groups)
    ensures FormatSchedule(selected, groups).Some?
  {
    if selected != [] {
      var last := |selected| - 1;
      AllFormattableInit(selected, groups);
      FormattableFormats(selected[..last], groups);
      var sessions := GroupOf(groups, selected[last]);
      EntriesOfMeaning(sessions);
      forall j | 0 <= j < |sessions|
        ensures sessions[j].day.Some?
      {
        assert sessions[j] in GroupOf(groups, selected[last]);
      }
    }
  }

  lemma {:induction false} FormatsFormattable(selected: seq<string>, groups: map<string, seq<Session>>)
    requires FormatSchedule(selected, groups).Some?
    ensures AllFormattable(selected, groups)
  {
    if selected != [] {
      var init := selected[..|selected| - 1];
      FormatsFormattable(init, groups);
      var sessions := GroupOf(groups, selected[|selected| - 1]);
      EntriesOfMeaning(sessions);
      forall k, s | 0 <= k < |selected| && s in GroupOf(groups, selected[k])
        ensures s.day.Some?
      {
        if k < |init| {
          assert init[k] == selected[k];
        } else {
          var j :| 0 <= j < |sessions| && sessions[j] == s;
        }
      }
    }
  }

  /** A formatted schedule has one entry per session of the chosen codes. */
  lemma {:induction false} FormatScheduleCount(selected: seq<string>, groups: map<string, seq<Session>>)
    requires FormatSchedule(selected, groups).Some?
    ensures |FormatSchedule(selected, groups).value| == SessionCount(selected, groups)
  {
    if selected != [] {
      var init, code := selected[..|selected| - 1], selected[|selected| - 1];
      FormatScheduleCount(init, groups);
      EntriesOfMeaning(GroupOf(groups, code));
    }
  }

  /** Every entry of a formatted schedule comes from a session of one of the chosen codes. */
  lemma {:induction false} FormatScheduleEntriesSound(selected: seq<string>, groups: map<string, seq<Session>>, e: Entry)
    requires FormatSchedule(selected, groups).Some? && e in FormatSchedule(selected, groups).value
    ensures exists k, s ::
      (0 <= k < |selected| && selected[k] in groups && s in groups[selected[k]] && EntryOf(s) == Some(e))
  {
    var init, code := selected[..|selected| - 1], selected[|selected| - 1];
    var sessions := GroupOf(groups, code);
    EntriesOfMeaning(sessions);
    var es, more := FormatSchedule(init, groups).value, EntriesOf(sessions).value;
    if e in more {
      var j :| 0 <= j < |more| && more[j] == e;
      assert code in groups && sessions[j] in groups[selected[|selected| - 1]];
    } else {
      FormatScheduleEntriesSound(init, groups, e);
      var k, s :| 0 <= k < |init| && init[k] in groups && s in groups[init[k]] && EntryOf(s) == Some(e);
      assert selected[k] == init[k];
    }
  }

  /** Every session of a chosen code contributes its entry to the formatted schedule. */
  lemma {:induction false} FormatScheduleEntriesComplete(selected: seq<string>, groups: map<string, seq<Session>>,
                                                         k: nat, s: Session)
    requires FormatSchedule(selected, groups).Some?
    requires k < |selected| && selected[k] in groups && s in groups[selected[k]]
    ensures EntryOf(s).Some? && EntryOf(s).value in FormatSchedule(selected, groups).value
  {
    var init, code := selected[..|selected| - 1], selected[|selected| - 1];
    var sessions := GroupOf(groups, code);
    EntriesOfMeaning(sessions);
    if k < |init| {
      assert init[k] == selected[k];
      FormatScheduleEntriesComplete(init, groups, k, s);
    } else {
      var j :| 0 <= j < |sessions| && sessions[j] == s;
      assert EntriesOf(sessions).value[j] == EntryOf(s).value;
    }
  }

  /**
   * Every candidate the engine produces can be shown: its codes all have groups and every
   * grouped session has a day.
   */
  lemma EngineOutputFormats(input: seq<Session>)
    ensures var g := Grouped(input);
      forall k :: 0 <= k < |CandidatesOf(g)| ==>
        FormatSchedule(CandidatesOf(g)[k].selected, g.sessions).Some?
  {
    var g := Grouped(input);
    forall k | 0 <= k < |CandidatesOf(g)|
      ensures FormatSchedule(CandidatesOf(g)[k].selected, g.sessions).Some?
    {
      CandidateFormats(input, k);
    }
  }

  lemma CandidateFormats(input: seq<Session>, k: nat)
    requires k < |CandidatesOf(Grouped(input))|
    ensures var g := Grouped(input);
      FormatSchedule(CandidatesOf(g)[k].selected, g.sessions).Some?
  {
    var g := Grouped(input);
    var sel := CandidatesOf(g)[k].selected;
    MaximumSchedulesCorrect(g);
    assert MaximumSchedules(g)[k] in MaximumSchedules(g);
    forall i | 0 <= i < |sel|
      ensures sel[i] in g.sessions && forall s :: s in g.sessions[sel[i]] ==> s.day.Some?
    {
      assert sel[i] in g.codes;
      forall s | s in g.sessions[sel[i]]
        ensures s.day.Some?
      {
        SessionsOfMembers(input, sel[i], s);
      }
    }
    FormatScheduleDefined(sel, g.sessions);
  }

  /** When some record has a day, the engine's first candidate exists and can be shown. */
  lemma FirstCandidateShowable(input: seq<Session>)
    requires !NothingUsable(input)
    ensures CandidatesOf(Grouped(input)) != []
    ensures FormatSchedule(CandidatesOf(Grouped(input))[0].selected, Grouped(input).sessions).Some?
  {
    var g := Grouped(input);
    NoCodesIffNothingUsable(input);
    CandidatesNonEmpty(g);
    EngineOutputFormats(input);
  }

  /** The index after "Next": one further while that stays below `total - 1`. */
  function NextIndex(index: nat, total: nat): nat
  {
    if index < total - 1 then index + 1 else index
  }

  /** The index after "Previous": one back while above 0. */
  function PrevIndex(index: nat): nat
  {
    if index > 0 then index - 1 else index
  }

  /** The enabled states of the two buttons. */
  predicate PrevEnabled(index: nat)
  {
    index > 0
  }

  predicate NextEnabled(index: nat, total: nat)
  {
    index < total - 1
  }

  /** The "Schedule current of total" numbers. */
  function NavigationStatus(index: nat, total: nat): (nat, nat)
  {
    if total > 0 then (index + 1, total) else (0, 0)
  }

  /**
   * Navigation stays in range, a button is enabled exactly when pressing it moves, and
   * "Previous" undoes "Next" (and the other way round).
   */
  lemma NavigationMeaning(index: nat, total: nat)
    requires index < total
    ensures NextIndex(index, total) < total && PrevIndex(index) < total
    ensures NextEnabled(index, total) <==> NextIndex(index, total) != index
    ensures PrevEnabled(index) <==> PrevIndex(index) != index
    ensures NextEnabled(index, total) ==> PrevIndex(NextIndex(index, total)) == index
    ensures PrevEnabled(index) ==> NextIndex(PrevIndex(index), total) == index
    ensures 1 <= NavigationStatus(index, total).0 <= NavigationStatus(index, total).1 == total
  {
  }

  /** The index after pressing "Next" `presses` times. */
  function NextTimes(index: nat, total: nat, presses: nat): nat
    decreases presses
  {
    if presses == 0 then index else NextTimes(NextIndex(index, total), total, presses - 1)
  }

  /** Pressing "Next" repeatedly walks through every candidate and stops at the last. */
  lemma {:induction false} NextTimesReachesAll(index: nat, total: nat, presses: nat)
    requires index < total
    decreases presses
    ensures NextTimes(index, total, presses) == if index + presses < total then index + presses else total - 1
  {
    if presses > 0 {
      NextTimesReachesAll(NextIndex(index, total), total, presses - 1);
    }
  }

  /** The page keeps the old entries when formatting raised. */
  function Redisplay(shown: seq<Entry>, formatted: Option<seq<Entry>>): seq<Entry>
  {
    if formatted.Some? then formatted.value else shown
  }

  /**
   * The inner loop of `show_current_schedule`: the entries of one course's sessions, in
   * order; `None` when a session has no day and the day comparison raises.
   */
  method FormatCourse(sessions: seq<Session>) returns (r: Option<seq<Entry>>)
    ensures r == EntriesOf(sessions)
  {
    var entries: seq<Entry> := [];
    for j := 0 to |sessions|
      invariant EntriesOf(sessions[..j]) == Some(entries)
    {
      assert sessions[..j + 1][..j] == sessions[..j];
      var s := sessions[j];
      if s.day.None? {
        EntriesOfMeaning(sessions);
        return None;
      }
      var day := DayLabel(s.day.value);
      entries := entries + [Entry(s.code, day, s.start, s.end, s.venue, s.instructor)];
    }
    assert sessions[..|sessions|] == sessions;
    return Some(entries);
  }

  /**
   * The outer loop of `show_current_schedule`: the entries of the chosen codes, course after
   * course; `None` when a session has no day.
   */
  method FormatSelected(selected: seq<string>, groups: map<string, seq<Session>>) returns (r: Option<seq<Entry>>)
    ensures r == FormatSchedule(selected, groups)
  {
    var formatted: seq<Entry> := [];
    for i := 0 to |selected|
      invariant FormatSchedule(selected[..i], groups) == Some(formatted)
    {
      assert selected[..i + 1][..i] == selected[..i];
      var sessions := GroupOf(groups, selected[i]);
      var more := FormatCourse(sessions);
      if more.None? {
        EntriesOfMeaning(sessions);
        var k :| 0 <= k < |sessions| && sessions[k].day.None?;
        assert sessions[k] in GroupOf(groups, selected[i]);
        FormatScheduleDefined(selected, groups);
        return None;
      }
      formatted := formatted + more.value;
    }
    assert selected[..|selected|] == selected;
    return Some(formatted);
  }

  class TimetableController {
    var schedules: seq<Candidate>
    var courseGroups: map<string, seq<Session>>
    var currentIndex: nat
    var cartCourses: seq<Session>
    var isUpdating: bool
    // What the timetable page was last told.
    var shownSchedule: seq<Entry>
    var shownStatus: (nat, nat)
    var prevEnabled: bool
    var nextEnabled: bool

    /** The index points at a candidate, or is 0 when there is none. */
    ghost predicate Valid()
      reads this
    {
      if schedules == [] then currentIndex == 0 else currentIndex < |schedules|
    }

    /** The formatted current candidate, `None` when there is none or formatting raises. */
    function CurrentEntries(): Option<seq<Entry>>
      reads this
      requires Valid()
    {
      if schedules == [] then None
      else FormatSchedule(schedules[currentIndex].selected, courseGroups)
    }

    constructor()
      ensures Valid()
      ensures schedules == [] && courseGroups == map[] && currentIndex == 0 && cartCourses == []
      ensures !isUpdating
      ensures shownSchedule == [] && shownStatus == (0, 0) && prevEnabled && nextEnabled
    {
      schedules := [];
      courseGroups := map[];
      currentIndex := 0;
      cartCourses := [];
      isUpdating := false;
      shownSchedule := [];
      shownStatus := (0, 0);
      prevEnabled := true;
      nextEnabled := true;
    }

    /** `show_current_schedule`: hands the formatted current candidate to the page. */
    method ShowCurrentSchedule()
      requires Valid()
      modifies this
      ensures Valid()
      ensures schedules == old(schedules) && courseGroups == old(courseGroups)
      ensures currentIndex == old(currentIndex) && cartCourses == old(cartCourses)
      ensures isUpdating == old(isUpdating)
      ensures shownStatus == old(shownStatus)
      ensures prevEnabled == old(prevEnabled) && nextEnabled == old(nextEnabled)
      ensures shownSchedule == Redisplay(old(shownSchedule), CurrentEntries())
    {
      if schedules == [] {
        return;
      }
      var formatted := FormatSelected(schedules[currentIndex].selected, courseGroups);
      if formatted.Some? {
        shownSchedule := formatted.value;
      }
    }

    /** `update_navigation_buttons`. */
    method UpdateNavigationButtons()
      modifies this
      ensures prevEnabled == PrevEnabled(currentIndex)
      ensures nextEnabled == NextEnabled(currentIndex, |schedules|)
      ensures schedules == old(schedules) && courseGroups == old(courseGroups)
      ensures currentIndex == old(currentIndex) && cartCourses == old(cartCourses)
      ensures isUpdating == old(isUpdating)
      ensures shownSchedule == old(shownSchedule) && shownStatus == old(shownStatus)
    {
      prevEnabled := currentIndex > 0;
      nextEnabled := currentIndex < |schedules| - 1;
    }

    /** `update_navigation_status`. */
    method UpdateNavigationStatus()
      modifies this
      ensures shownStatus == NavigationStatus(currentIndex, |schedules|)
      ensures schedules == old(schedules) && courseGroups == old(courseGroups)
      ensures currentIndex == old(currentIndex) && cartCourses == old(cartCourses)
      ensures isUpdating == old(isUpdating)
      ensures shownSchedule == old(shownSchedule)
      ensures prevEnabled == old(prevEnabled) && nextEnabled == old(nextEnabled)
    {
      var total := |schedules|;
      var current := if total > 0 then currentIndex + 1 else 0;
      shownStatus := (current, total);
    }

    /** Shows the current candidate, the status line and the buttons. */
    method Refresh()
      requires Valid()
      modifies this
      ensures Valid()
      ensures schedules == old(schedules) && courseGroups == old(courseGroups)
      ensures currentIndex == old(currentIndex) && cartCourses == old(cartCourses)
      ensures isUpdating == old(isUpdating)
      ensures shownSchedule == Redisplay(old(shownSchedule), CurrentEntries())
      ensures shownStatus == NavigationStatus(currentIndex, |schedules|)
      ensures prevEnabled == PrevEnabled(currentIndex)
      ensures nextEnabled == NextEnabled(currentIndex, |schedules|)
    {
      ShowCurrentSchedule();
      UpdateNavigationStatus();
      UpdateNavigationButtons();
    }

    /**
     * `set_schedules`: an empty list, or a call while an update is running, changes nothing;
     * otherwise the candidates and groups are stored, the first candidate is shown and the
     * status line and buttons are brought up to date.
     */
    method SetSchedules(newSchedules: seq<Candidate>, groups: map<string, seq<Session>>)
      requires Valid()
      modifies this
      ensures Valid()
      ensures newSchedules == [] || old(isUpdating) ==> unchanged(this)
      ensures newSchedules != [] && !old(isUpdating) ==>
        && schedules == newSchedules && courseGroups == groups && currentIndex == 0
        && cartCourses == old(cartCourses) && !isUpdating
        && shownSchedule == Redisplay(old(shownSchedule), FormatSchedule(newSchedules[0].selected, groups))
        && shownStatus == (1, |newSchedules|)
        && !prevEnabled && nextEnabled == (|newSchedules| > 1)
    {
      if newSchedules == [] {
        return;
      }
      if isUpdating {
        return;
      }
      isUpdating := true;
      schedules := newSchedules;
      courseGroups := groups;
      currentIndex := 0;
      Refresh();
      isUpdating := false;
    }

    /** `next_schedule`: moves one candidate on while there is a next one. */
    method NextSchedule()
      requires Valid()
      modifies this
      ensures Valid()
      ensures old(isUpdating) || !NextEnabled(old(currentIndex), |old(schedules)|) ==> unchanged(this)
      ensures !old(isUpdating) && NextEnabled(old(currentIndex), |old(schedules)|) ==>
        && schedules == old(schedules) && courseGroups == old(courseGroups)
        && cartCourses == old(cartCourses) && !isUpdating
        && currentIndex == NextIndex(old(currentIndex), |schedules|)
        && shownSchedule == Redisplay(old(shownSchedule), CurrentEntries())
        && shownStatus == NavigationStatus(currentIndex, |schedules|)
        && prevEnabled == PrevEnabled(currentIndex)
        && nextEnabled == NextEnabled(currentIndex, |schedules|)
    {
      if isUpdating {
        return;
      }
      isUpdating := true;
      if currentIndex < |schedules| - 1 {
        currentIndex := currentIndex + 1;
        Refresh();
      }
      isUpdating := false;
    }

    /** `prev_schedule`: moves one candidate back while not at the first. */
    method PrevSchedule()
      requires Valid()
      modifies this
      ensures Valid()
      ensures old(isUpdating) || !PrevEnabled(old(currentIndex)) ==> unchanged(this)
      ensures !old(isUpdating) && PrevEnabled(old(currentIndex)) ==>
        && schedules == old(schedules) && courseGroups == old(courseGroups)
        && cartCourses == old(cartCourses) && !isUpdating
        && currentIndex == PrevIndex(old(currentIndex))
        && shownSchedule == Redisplay(old(shownSchedule), CurrentEntries())
        && shownStatus == NavigationStatus(currentIndex, |schedules|)
        && prevEnabled == PrevEnabled(currentIndex)
        && nextEnabled == NextEnabled(currentIndex, |schedules|)
    {
      if isUpdating {
        return;
      }
      isUpdating := true;
      if currentIndex > 0 {
        currentIndex := currentIndex - 1;
        Refresh();
      }
      isUpdating := false;
    }

    /** `show`: shows the current candidate and the buttons, unless an update is running. */
    method Show()
      requires Valid()
      modifies this
      ensures Valid()
      ensures old(isUpdating) ==> unchanged(this)
      ensures !old(isUpdating) ==>
        && schedules == old(schedules) && courseGroups == old(courseGroups)
        && currentIndex == old(currentIndex) && cartCourses == old(cartCourses) && !isUpdating
        && shownSchedule == Redisplay(old(shownSchedule), CurrentEntries())
        && shownStatus == old(shownStatus)
        && prevEnabled == PrevEnabled(currentIndex)
        && nextEnabled == NextEnabled(currentIndex, |schedules|)
    {
      if isUpdating {
        return;
      }
      isUpdating := true;
      ShowCurrentSchedule();
      UpdateNavigationButtons();
      isUpdating := false;
    }

    /**
     * `set_cart_courses`: stores the cart and runs the timetable engine on it; when the
     * engine raises (no record has a day) nothing else changes, otherwise its candidates and
     * groups go to `set_schedules`, which shows the first candidate.
     */
    method SetCartCourses(cart: seq<Session>)
      requires Valid()
      modifies this
      ensures Valid()
      ensures cartCourses == cart
      ensures NothingUsable(cart) || old(isUpdating) ==>
        && schedules == old(schedules) && courseGroups == old(courseGroups)
        && currentIndex == old(currentIndex) && isUpdating == old(isUpdating)
        && shownSchedule == old(shownSchedule) && shownStatus == old(shownStatus)
        && prevEnabled == old(prevEnabled) && nextEnabled == old(nextEnabled)
      ensures !NothingUsable(cart) && !old(isUpdating) ==>
        && schedules == CandidatesOf(Grouped(cart)) && courseGroups == Grouped(cart).sessions
        && currentIndex == 0 && !isUpdating
        && schedules != [] && FormatSchedule(schedules[0].selected, courseGroups).Some?
        && shownSchedule == FormatSchedule(schedules[0].selected, courseGroups).value
        && shownStatus == (1, |schedules|)
        && !prevEnabled && nextEnabled == (|schedules| > 1)
    {
      cartCourses := cart;
      var r := GenerateTimetableCombinations(cart);
      if r.Failure? {
        return;
      }
      FirstCandidateShowable(cart);
      SetSchedules(r.value.candidates, r.value.groups.sessions);
    }

    /**
     * `refresh_timetable`: with a non-empty cart, runs the engine again, passes its result to
     * `set_schedules` and shows the current candidate once more; with an empty cart, or when
     * the engine raises, nothing changes.
     */
    method RefreshTimetable()
      requires Valid()
      modifies this
      ensures Valid()
      ensures cartCourses == old(cartCourses)
      ensures cartCourses == [] || NothingUsable(cartCourses) ==> unchanged(this)
      ensures cartCourses != [] && !NothingUsable(cartCourses) && !old(isUpdating) ==>
        && schedules == CandidatesOf(Grouped(cartCourses)) && courseGroups == Grouped(cartCourses).sessions
        && currentIndex == 0 && !isUpdating
        && schedules != [] && FormatSchedule(schedules[0].selected, courseGroups).Some?
        && shownSchedule == FormatSchedule(schedules[0].selected, courseGroups).value
        && shownStatus == (1, |schedules|)
        && !prevEnabled && nextEnabled == (|schedules| > 1)
      ensures cartCourses != [] && !NothingUsable(cartCourses) && old(isUpdating) ==>
        && schedules == old(schedules) && courseGroups == old(courseGroups)
        && currentIndex == old(currentIndex) && isUpdating
        && shownSchedule == Redisplay(old(shownSchedule), old(CurrentEntries()))
        && shownStatus == old(shownStatus)
        && prevEnabled == old(prevEnabled) && nextEnabled == old(nextEnabled)
    {
      if cartCourses == [] {
        return;
      }
      var r := GenerateTimetableCombinations(cartCourses);
      if r.Failure? {
        return;
      }
      FirstCandidateShowable(cartCourses);
      SetSchedules(r.value.candidates, r.value.groups.sessions);
      ShowCurrentSchedule();
    }
  }
}
