/**
 * The validation helpers and the cart admission decision of database/db_manager.py
 * (`DatabaseManager._is_valid_time`, `DatabaseManager._validate_day` and the checks made by
 * `DatabaseManager.add_to_cart`). The SQL queries become the parameters of the decision.
 */
module DbManager {
  import opened Wrappers
  import opened PyBuiltins
  import opened Helper
  import opened Sessions

  /**
   * `_is_valid_time`: the value splits on ':' into exactly two pieces, both parse as ints,
   * the first in 0..23 and the second in 0..59. Every failure on the way (not a string,
   * wrong number of pieces, a piece that is not an int) is caught and gives false.
   */
  predicate IsValidTime(v: PyValue)
  {
    match v
    case PyStr(s) =>
      var parts := Split(s, ':');
      && |parts| == 2
      && ParseInt(parts[0]).Some? && 0 <= ParseInt(parts[0]).value <= 23
      && ParseInt(parts[1]).Some? && 0 <= ParseInt(parts[1]).value <= 59
    case _ => false
  }

  /** The `day_map` of `_validate_day`: abbreviations, full names and digit strings. */
  const DayNumbers: map<string, int> := map[
    "Mon" := 0, "Tue" := 1, "Wed" := 2, "Thu" := 3, "Fri" := 4,
    "Monday" := 0, "Tuesday" := 1, "Wednesday" := 2, "Thursday" := 3, "Friday" := 4,
    "0" := 0, "1" := 1, "2" := 2, "3" := 3, "4" := 4]

  /** `_validate_day`: a key of `day_map`, or an int from 0 to 4. */
  predicate ValidateDay(day: PyValue)
  {
    match day
    case PyStr(s) => s in DayNumbers
    case PyInt(d) => 0 <= d <= 4
    case _ => false
  }

  /** The abbreviations and digit strings of the weekdays, indexed 0 (Monday) to 4 (Friday). */
  const DayAbbreviations: seq<string> := ["Mon", "Tue", "Wed", "Thu", "Fri"]
  const DayDigits: seq<string> := ["0", "1", "2", "3", "4"]

  /** The four accepted spellings of weekday `d`. */
  function DayForms(d: nat): set<PyValue>
    requires d < 5
  {
    {PyStr(Weekdays[d]), PyStr(DayAbbreviations[d]), PyStr(DayDigits[d]), PyInt(d)}
  }

  /**
   * `day_map` sends each spelling of a weekday to its index, so `show_date` turns the mapped
   * number back into the full name.
   */
  lemma DayNumbersAgreeWithShowDate(d: nat)
    requires d < 5
    ensures Weekdays[d] in DayNumbers && DayNumbers[Weekdays[d]] == d
    ensures DayAbbreviations[d] in DayNumbers && DayNumbers[DayAbbreviations[d]] == d
    ensures DayDigits[d] in DayNumbers && DayNumbers[DayDigits[d]] == d
    ensures ShowDate(PyInt(DayNumbers[Weekdays[d]])) == Some(Weekdays[d])
  {
  }

  /** The keys of `day_map` are exactly the spellings of the five weekdays. */
  lemma DayNumbersKeys(s: string)
    requires s in DayNumbers
    ensures 0 <= DayNumbers[s] < 5
    ensures s == Weekdays[DayNumbers[s]] || s == DayAbbreviations[DayNumbers[s]] || s == DayDigits[DayNumbers[s]]
  {
  }

  /**
   * `_validate_day` accepts exactly the full name, the three-letter abbreviation, the digit
   * string and the int of a weekday from Monday (0) to Friday (4).
   */
  lemma ValidateDayExactly(v: PyValue)
    ensures ValidateDay(v) <==> exists d: nat :: d < 5 && v in DayForms(d)
  {
    if ValidateDay(v) {
      match v
      case PyInt(d) =>
        assert v in DayForms(d);
      case PyStr(s) =>
        DayNumbersKeys(s);
        var d: nat := DayNumbers[s];
        assert v in DayForms(d);
    }
    if exists d: nat :: d < 5 && v in DayForms(d) {
      var d: nat :| d < 5 && v in DayForms(d);
      DayNumbersAgreeWithShowDate(d);
    }
  }

  /**
   * `sum(int(x) * y for x, y in zip(t.split(':'), [60, 1]))`: sixty times the first piece
   * plus the second; pieces after the second are never looked at. `None` stands for the
   * `ValueError` of `int()`.
   */
  function ToMinutes(t: string): Option<int>
  {
    var parts := Split(t, ':');
    match ParseInt(parts[0])
    case None => None
    case Some(hours) =>
      if |parts| == 1 then Some(60 * hours)
      else
        match ParseInt(parts[1])
        case None => None
        case Some(minutes) => Some(60 * hours + minutes)
  }

  /** A string without ':' is read as whole hours. */
  lemma ToMinutesHoursOnly(a: string)
    requires ':' !in a
    ensures ToMinutes(a) == (if ParseInt(a).Some? then Some(60 * ParseInt(a).value) else None)
  {
    SplitWithout(a, ':');
  }

  /** The conversion reads nothing but the first two pieces. */
  lemma ToMinutesFirstTwoPieces(x: string, y: string)
    requires |Split(x, ':')| >= 2 && |Split(y, ':')| >= 2
    requires Split(x, ':')[0] == Split(y, ':')[0] && Split(x, ':')[1] == Split(y, ':')[1]
    ensures ToMinutes(x) == ToMinutes(y)
  {
  }

  lemma SplitThree(a: string, b: string, rest: string)
    requires ':' !in a && ':' !in b
    ensures var parts := Split(a + ":" + b + ":" + rest, ':');
      |parts| >= 2 && parts[0] == a && parts[1] == b
  {
    assert a + ":" + b + ":" + rest == a + [':'] + (b + [':'] + rest);
    SplitAtFirst(a, ':', b + [':'] + rest);
    SplitAtFirst(b, ':', rest);
  }

  /** Only the first two pieces count: whatever follows a second ':' is ignored. */
  lemma ToMinutesIgnoresRest(a: string, b: string, rest: string)
    requires ':' !in a && ':' !in b
    ensures ToMinutes(a + ":" + b + ":" + rest) == ToMinutes(a + ":" + b)
  {
    SplitThree(a, b, rest);
    SplitTwo(a, ':', b);
    ToMinutesFirstTwoPieces(a + ":" + b + ":" + rest, a + ":" + b);
  }

  /** A string with one ':' is a valid time exactly when its two sides are in range. */
  lemma ValidTimeOfPieces(a: string, b: string)
    requires ':' !in a && ':' !in b
    ensures IsValidTime(PyStr(a + ":" + b)) <==>
      && ParseInt(a).Some? && 0 <= ParseInt(a).value <= 23
      && ParseInt(b).Some? && 0 <= ParseInt(b).value <= 59
  {
    SplitTwo(a, ':', b);
  }

  /** A string with one ':' converts to sixty times its left side plus its right side. */
  lemma ToMinutesOfPieces(a: string, b: string)
    requires ':' !in a && ':' !in b
    ensures ToMinutes(a + ":" + b)
      == if ParseInt(a).Some? && ParseInt(b).Some? then Some(60 * ParseInt(a).value + ParseInt(b).value) else None
  {
    SplitTwo(a, ':', b);
  }

  /** A valid time has exactly one ':' and converts to a minute of the day. */
  lemma ValidTimeMinutes(s: string)
    requires IsValidTime(PyStr(s))
    ensures Count(s, ':') == 1
    ensures ToMinutes(s).Some? && 0 <= ToMinutes(s).value < 24 * 60
  {
    SplitPair(s, ':');
    var parts := Split(s, ':');
    ValidTimeOfPieces(parts[0], parts[1]);
    ToMinutesOfPieces(parts[0], parts[1]);
  }

  /** Two digits, with a leading zero below ten. */
  function TwoDigits(n: nat): string
    requires n < 100
  {
    [DigitChar(n / 10), DigitChar(n % 10)]
  }

  lemma ParseTwoDigits(n: nat)
    requires n < 100
    ensures ParseInt(TwoDigits(n)) == Some(n)
  {
    var t := TwoDigits(n);
    assert IsStripped(t);
    TrimLeftStripped(t);
    TrimRightStripped(t);
    assert Strip(t) == t;
    assert IsDigitBody(t);
    assert t[..1] == [t[0]] && [t[0]][..0] == [];
    assert DigitsValue([t[0]]) == n / 10;
    assert DigitsValue(t) == 10 * (n / 10) + n % 10;
  }

  /** The `HH:MM` text of a time of day. */
  function TimeText(m: Minute): string
  {
    TwoDigits(m / 60) + ":" + TwoDigits(m % 60)
  }

  /** Every minute of the day has an `HH:MM` text that is a valid time. */
  lemma TimeTextValid(m: Minute)
    ensures IsValidTime(PyStr(TimeText(m)))
  {
    var h, mm := TwoDigits(m / 60), TwoDigits(m % 60);
    assert ':' !in h && ':' !in mm;
    ParseTwoDigits(m / 60);
    ParseTwoDigits(m % 60);
    ValidTimeOfPieces(h, mm);
  }

  lemma ToMinutesOfParsed(a: string, b: string, hours: nat, minutes: nat)
    requires ':' !in a && ':' !in b && ParseInt(a) == Some(hours) && ParseInt(b) == Some(minutes)
    ensures ToMinutes(a + ":" + b) == Some(60 * hours + minutes)
  {
    ToMinutesOfPieces(a, b);
  }

  lemma TwoDigitTimeMinutes(hours: nat, minutes: nat)
    requires hours < 24 && minutes < 60
    ensures ToMinutes(TwoDigits(hours) + ":" + TwoDigits(minutes)) == Some(60 * hours + minutes)
  {
    var a, b := TwoDigits(hours), TwoDigits(minutes);
    assert ':' !in a && ':' !in b;
    ParseTwoDigits(hours);
    ParseTwoDigits(minutes);
    ToMinutesOfParsed(a, b, hours, minutes);
  }

  /** The `HH:MM` text of a minute converts back to that minute. */
  lemma TimeTextRoundTrip(m: Minute)
    ensures ToMinutes(TimeText(m)) == Some(m)
  {
    var hours, minutes := m / 60, m % 60;
    assert 60 * hours + minutes == m;
    TwoDigitTimeMinutes(hours, minutes);
  }

  /** One row of `course_sessions`: code, name, day, start, end and type. */
  datatype CartSession = CartSession(code: string, name: string, day: int, start: string, end: string, kind: string)

  /** The outcome of `add_to_cart`; the message texts are not modelled. */
  datatype Admission =
    | NotFound                      // no session of the course
    | AlreadyInCart                 // the course is in the cart
    | TimeConflict(clash: CartSession) // the first cart session that overlaps
    | Failed                        // an exception caught by the last handler
    | Added(forced: bool)           // inserted into the cart

  /** What one cart session says about the new course. */
  datatype Verdict = Clear | Clash | Broken

  /**
   * One iteration of the conflict loop: sessions on other days are clear; on the same day
   * the cart session's times are converted and the two intervals compared. Building the
   * conflict message indexes the weekday names with the new day, which raises unless the
   * day is in -5..4.
   */
  function RowVerdict(day: int, newStart: int, newEnd: int, row: CartSession): Verdict
  {
    if row.day != day then Clear
    else
      match (ToMinutes(row.start), ToMinutes(row.end))
      case (Some(cartStart), Some(cartEnd)) =>
        if IntervalsOverlap(newStart, newEnd, cartStart, cartEnd) then
          (if -|Weekdays| <= day < |Weekdays| then Clash else Broken)
        else Clear
      case _ => Broken
  }

  /** The conflict loop over the cart sessions, in query order. */
  function ScreenRows(day: int, newStart: int, newEnd: int, rows: seq<CartSession>): Admission
  {
    if rows == [] then Added(false)
    else
      match RowVerdict(day, newStart, newEnd, rows[0])
      case Clear => ScreenRows(day, newStart, newEnd, rows[1..])
      case Clash => TimeConflict(rows[0])
      case Broken => Failed
  }

  /** The conflict check of a course, given its first session and the cart sessions. */
  function Screen(course: CartSession, cart: seq<CartSession>): Admission
  {
    match (ToMinutes(course.start), ToMinutes(course.end))
    case (Some(newStart), Some(newEnd)) => ScreenRows(course.day, newStart, newEnd, cart)
    case _ => Failed
  }

  /** The conflict loop adds the course exactly when every cart session is clear. */
  lemma {:induction false} ScreenRowsAddsIffAllClear(day: int, newStart: int, newEnd: int, rows: seq<CartSession>)
    ensures ScreenRows(day, newStart, newEnd, rows) == Added(false)
        <==> forall i :: 0 <= i < |rows| ==> RowVerdict(day, newStart, newEnd, rows[i]) == Clear
    decreases |rows|
  {
    if rows != [] {
      ScreenRowsAddsIffAllClear(day, newStart, newEnd, rows[1..]);
      if RowVerdict(day, newStart, newEnd, rows[0]) == Clear {
        forall i | 0 < i < |rows|
          ensures rows[i] == rows[1..][i - 1]
        {
        }
      }
    }
  }

  /**
   * Otherwise the first cart session that is not clear decides: a clash reports that
   * session, anything else fails, and later sessions are never looked at.
   */
  lemma {:induction false} ScreenRowsStopsAtFirst(day: int, newStart: int, newEnd: int, rows: seq<CartSession>, i: nat)
    requires i < |rows|
    requires forall j :: 0 <= j < i ==> RowVerdict(day, newStart, newEnd, rows[j]) == Clear
    requires RowVerdict(day, newStart, newEnd, rows[i]) != Clear
    ensures ScreenRows(day, newStart, newEnd, rows)
         == (if RowVerdict(day, newStart, newEnd, rows[i]) == Clash then TimeConflict(rows[i]) else Failed)
    decreases i
  {
    if i > 0 {
      assert RowVerdict(day, newStart, newEnd, rows[0]) == Clear;
      assert rows[1..][i - 1] == rows[i];
      forall j | 0 <= j < i - 1
        ensures RowVerdict(day, newStart, newEnd, rows[1..][j]) == Clear
      {
        assert rows[1..][j] == rows[j + 1];
      }
      ScreenRowsStopsAtFirst(day, newStart, newEnd, rows[1..], i - 1);
    }
  }

  /**
   * For well-formed sessions on a weekday, a cart session clashes exactly when it is on the
   * same day and the two intervals share a minute; back-to-back sessions do not clash.
   */
  lemma RowClashIffSharedMinute(day: int, newStart: int, newEnd: int, row: CartSession)
    requires 0 <= day < 5 && newStart < newEnd
    requires IsValidTime(PyStr(row.start)) && IsValidTime(PyStr(row.end))
    requires ToMinutes(row.start).value < ToMinutes(row.end).value
    ensures RowVerdict(day, newStart, newEnd, row) != Broken
    ensures var cartStart, cartEnd := ToMinutes(row.start).value, ToMinutes(row.end).value;
      && (RowVerdict(day, newStart, newEnd, row) == Clash
          <==> row.day == day && exists t :: Covers(newStart, newEnd, t) && Covers(cartStart, cartEnd, t))
      && (newEnd == cartStart || cartEnd == newStart ==> RowVerdict(day, newStart, newEnd, row) == Clear)
  {
    ValidTimeMinutes(row.start);
    ValidTimeMinutes(row.end);
    OverlapIsSharedMinute(newStart, newEnd, ToMinutes(row.start).value, ToMinutes(row.end).value);
  }

  /** A cart row as a session of the timetable engine. */
  function AsSession(row: CartSession): Session
    requires IsValidTime(PyStr(row.start)) && IsValidTime(PyStr(row.end))
  {
    ValidTimeMinutes(row.start);
    ValidTimeMinutes(row.end);
    Session(row.code, Some(row.day), ToMinutes(row.start).value, ToMinutes(row.end).value, "", "")
  }

  /**
   * The cart check and the timetable engine apply the same overlap rule: for rows with valid
   * times and a weekday, a clash is exactly an engine conflict between the two sessions.
   */
  lemma CartRuleIsEngineRule(course: CartSession, row: CartSession)
    requires 0 <= course.day < 5
    requires IsValidTime(PyStr(course.start)) && IsValidTime(PyStr(course.end))
    requires IsValidTime(PyStr(row.start)) && IsValidTime(PyStr(row.end))
    ensures Screen(course, [row]) == TimeConflict(row) <==> SessionsOverlap(AsSession(course), AsSession(row))
    ensures Screen(course, [row]) == Added(false) <==> !SessionsOverlap(AsSession(course), AsSession(row))
  {
    ValidTimeMinutes(course.start);
    ValidTimeMinutes(course.end);
    ValidTimeMinutes(row.start);
    ValidTimeMinutes(row.end);
    ScreenOneRow(course, row);
    RowVerdictOfMinutes(course.day, ToMinutes(course.start).value, ToMinutes(course.end).value, row,
                        ToMinutes(row.start).value, ToMinutes(row.end).value);
  }

  lemma RowVerdictOfMinutes(day: int, newStart: int, newEnd: int, row: CartSession, cartStart: int, cartEnd: int)
    requires 0 <= day < 5 && ToMinutes(row.start) == Some(cartStart) && ToMinutes(row.end) == Some(cartEnd)
    ensures RowVerdict(day, newStart, newEnd, row)
         == if row.day == day && IntervalsOverlap(newStart, newEnd, cartStart, cartEnd) then Clash else Clear
  {
  }

  lemma ScreenOneRow(course: CartSession, row: CartSession)
    requires ToMinutes(course.start).Some? && ToMinutes(course.end).Some?
    ensures var v := RowVerdict(course.day, ToMinutes(course.start).value, ToMinutes(course.end).value, row);
      Screen(course, [row]) == (if v == Clear then Added(false) else if v == Clash then TimeConflict(row) else Failed)
  {
    var newStart, newEnd := ToMinutes(course.start).value, ToMinutes(course.end).value;
    assert Screen(course, [row]) == ScreenRows(course.day, newStart, newEnd, [row]);
    assert [row][1..] == [];
  }

  /**
   * The decision of `add_to_cart`, given the first session of the course (or nothing when
   * the course is unknown), whether the course is already in the cart, the sessions of the
   * courses in the cart and the `force` flag. Unknown course and duplicate are reported
   * first; `force` skips the conflict loop; otherwise the first conflicting cart session
   * aborts, and only when none conflicts is the course added.
   */
  method DecideAdmission(first: Option<CartSession>, inCart: bool, cart: seq<CartSession>, force: bool)
    returns (d: Admission)
    ensures first.None? ==> d == NotFound
    ensures first.Some? && inCart ==> d == AlreadyInCart
    ensures first.Some? && !inCart && force ==> d == Added(true)
    ensures first.Some? && !inCart && !force ==> d == Screen(first.value, cart)
  {
    if first.None? {
      return NotFound;
    }
    if inCart {
      return AlreadyInCart;
    }
    if force {
      return Added(true);
    }
    var course := first.value;
    var newStart := ToMinutes(course.start);
    var newEnd := ToMinutes(course.end);
    if newStart.None? || newEnd.None? {
      return Failed;
    }
    var i := 0;
    while i < |cart|
      invariant 0 <= i <= |cart|
      invariant ScreenRows(course.day, newStart.value, newEnd.value, cart[i..]) == Screen(course, cart)
    {
      assert cart[i..][1..] == cart[i + 1..];
      var row := cart[i];
      if row.day == course.day {
        var cartStart := ToMinutes(row.start);
        var cartEnd := ToMinutes(row.end);
        if cartStart.None? || cartEnd.None? {
          return Failed;
        }
        if !(newEnd.value <= cartStart.value || newStart.value >= cartEnd.value) {
          if !(-|Weekdays| <= course.day < |Weekdays|) {
            return Failed;
          }
          return TimeConflict(row);
        }
      }
      i := i + 1;
    }
    return Added(false);
  }
}
