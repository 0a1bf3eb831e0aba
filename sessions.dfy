/**
 * Session records and the conflict rule of utils/timetable_service.py: two sessions clash
 * when they meet on the same day and their half-open time intervals intersect.
 */
module Sessions {
  import opened Wrappers

  /** A wall-clock time "HH:MM" after parsing, as minutes since midnight. */
  type Minute = m: int | 0 <= m < 24 * 60

  /**
   * One meeting of a course. `day` is `None` for a record whose 'day' entry holds `None`;
   * the engine drops such records. (A record without a 'day' key makes the engine raise
   * KeyError; such records are not modelled.) `venue` and `instructor` are only carried
   * through to display.
   */
  datatype Session = Session(
    code: string,
    day: Option<int>,
    start: Minute,
    end: Minute,
    venue: string,
    instructor: string)

  /**
   * The overlap test used both by the engine and by the cart: the intervals
   * [start1, end1) and [start2, end2) overlap unless one ends before or when the other starts.
   */
  predicate IntervalsOverlap(start1: int, end1: int, start2: int, end2: int)
  {
    !(end1 <= start2 || end2 <= start1)
  }

  predicate SessionsOverlap(s1: Session, s2: Session)
  {
    s1.day == s2.day && IntervalsOverlap(s1.start, s1.end, s2.start, s2.end)
  }

  /** Two groups of sessions conflict when some session of one overlaps some session of the other. */
  predicate GroupsConflict(a: seq<Session>, b: seq<Session>)
  {
    exists i, j :: 0 <= i < |a| && 0 <= j < |b| && SessionsOverlap(a[i], b[j])
  }

  /** Minute `t` lies in the half-open interval [start, end). */
  predicate Covers(start: int, end: int, t: int)
  {
    start <= t < end
  }

  /**
   * For proper intervals (start before end) the overlap test holds exactly when some minute
   * lies in both intervals; in particular intervals that only touch do not overlap, and the
   * test is symmetric.
   */
  lemma OverlapIsSharedMinute(start1: int, end1: int, start2: int, end2: int)
    requires start1 < end1 && start2 < end2
    ensures IntervalsOverlap(start1, end1, start2, end2)
        <==> exists t :: Covers(start1, end1, t) && Covers(start2, end2, t)
    ensures IntervalsOverlap(start1, end1, start2, end2) == IntervalsOverlap(start2, end2, start1, end1)
    ensures end1 == start2 ==> !IntervalsOverlap(start1, end1, start2, end2)
  {
    if IntervalsOverlap(start1, end1, start2, end2) {
      var t := if start1 < start2 then start2 else start1;
      assert Covers(start1, end1, t) && Covers(start2, end2, t);
    }
  }

  /** The conflict relation between groups is symmetric. */
  lemma GroupsConflictSymmetric(a: seq<Session>, b: seq<Session>)
    ensures GroupsConflict(a, b) <==> GroupsConflict(b, a)
  {
    if GroupsConflict(a, b) {
      var i, j :| 0 <= i < |a| && 0 <= j < |b| && SessionsOverlap(a[i], b[j]);
      assert SessionsOverlap(b[j], a[i]);
    }
    if GroupsConflict(b, a) {
      var j, i :| 0 <= j < |b| && 0 <= i < |a| && SessionsOverlap(b[j], a[i]);
      assert SessionsOverlap(a[i], b[j]);
    }
  }

  /** Sessions on different days never conflict, whatever their times. */
  lemma DifferentDaysNeverConflict(a: seq<Session>, b: seq<Session>)
    requires forall i, j :: 0 <= i < |a| && 0 <= j < |b| ==> a[i].day != b[j].day
    ensures !GroupsConflict(a, b)
  {
  }
}
