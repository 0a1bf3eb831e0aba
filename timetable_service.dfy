/**
 * Candidate assembly and the entry points of utils/timetable_service.py:
 * `TimetableAlgorithm.generate_combinations` and `TimetableService.generate_timetable_combinations`.
 */
module TimetableService {
  import opened Wrappers
  import opened Sessions
  import opened Grouping
  import opened Search

  /**
   * One schedule candidate: the chosen codes in key order, and for every code left out the
   * chosen codes it conflicts with.
   */
  datatype Candidate = Candidate(selected: seq<string>, excluded: map<string, seq<string>>)

  /** The `ValueError("No valid courses provided")` raised when no record has a day. */
  datatype GenerateError = NoValidCourses

  /** The pair `(results, course_sessions)` returned on success. */
  datatype Generated = Generated(candidates: seq<Candidate>, groups: Grouping)

  /** Two course codes conflict. */
  predicate CodesConflict(g: Grouping, code1: string, code2: string)
    requires code1 in g.sessions && code2 in g.sessions
  {
    GroupsConflict(g.sessions[code1], g.sessions[code2])
  }

  /** `[course_codes[i] for i in schedule]`. */
  function CodesAt(g: Grouping, schedule: seq<nat>): seq<string>
    requires Below(schedule, |g.codes|)
  {
    seq(|schedule|, k requires 0 <= k < |schedule| => g.codes[schedule[k]])
  }

  /** The chosen codes that the code at position `i` conflicts with, in chosen order. */
  function ConflictsWith(g: Grouping, i: nat, schedule: seq<nat>): seq<string>
    requires g.WellFormed() && i < |g.codes| && Below(schedule, |g.codes|)
  {
    if schedule == [] then []
    else
      var j := schedule[|schedule| - 1];
      ConflictsWith(g, i, schedule[..|schedule| - 1]) + (if Conflict(g, i, j) then [g.codes[j]] else [])
  }

  /** The `excluded` dictionary after the first `i` codes of the key order have been considered. */
  function ExcludedUpTo(g: Grouping, schedule: seq<nat>, i: nat): map<string, seq<string>>
    requires g.WellFormed() && Below(schedule, |g.codes|) && i <= |g.codes|
  {
    if i == 0 then map[]
    else
      var earlier := ExcludedUpTo(g, schedule, i - 1);
      if i - 1 !in schedule then earlier[g.codes[i - 1] := ConflictsWith(g, i - 1, schedule)] else earlier
  }

  /** The `excluded` dictionary of one candidate. */
  function ExcludedMap(g: Grouping, schedule: seq<nat>): map<string, seq<string>>
    requires g.WellFormed() && Below(schedule, |g.codes|)
  {
    ExcludedUpTo(g, schedule, |g.codes|)
  }

  function CandidateFor(g: Grouping, schedule: seq<nat>): Candidate
    requires g.WellFormed() && Below(schedule, |g.codes|)
  {
    Candidate(CodesAt(g, schedule), ExcludedMap(g, schedule))
  }

  /** The candidates built from the maximum schedules, in search order. */
  function CandidatesOf(g: Grouping): seq<Candidate>
    requires g.WellFormed()
  {
    var ms := MaximumSchedules(g);
    MaximumSchedulesExact(g);
    seq(|ms|, k requires 0 <= k < |ms| => CandidateFor(g, ms[k]))
  }

  /** The list comprehension of utils/timetable_service.py:78, one `check_conflicts` call per chosen code. */
  method ConflictingSelected(g: Grouping, i: nat, schedule: seq<nat>) returns (conflicts: seq<string>)
    requires g.WellFormed() && i < |g.codes| && Below(schedule, |g.codes|)
    ensures conflicts == ConflictsWith(g, i, schedule)
  {
    conflicts := [];
    for k := 0 to |schedule|
      invariant conflicts == ConflictsWith(g, i, schedule[..k])
    {
      assert schedule[..k + 1][..k] == schedule[..k];
      var clash := CheckConflicts(g, g.codes[i], g.codes[schedule[k]]);
      if clash {
        conflicts := conflicts + [g.codes[schedule[k]]];
      }
    }
    assert schedule[..|schedule|] == schedule;
  }

  /** The loop at utils/timetable_service.py:74-79 that fills `excluded`. */
  method ExcludedFor(g: Grouping, schedule: seq<nat>) returns (excluded: map<string, seq<string>>)
    requires g.WellFormed() && Below(schedule, |g.codes|)
    ensures excluded == ExcludedMap(g, schedule)
  {
    excluded := map[];
    for i := 0 to |g.codes|
      invariant excluded == ExcludedUpTo(g, schedule, i)
    {
      if i !in schedule {
        var conflicts := ConflictingSelected(g, i, schedule);
        excluded := excluded[g.codes[i] := conflicts];
      }
    }
  }

  /** The loop at utils/timetable_service.py:71-84 that turns each maximum schedule into a candidate. */
  method AssembleCandidates(g: Grouping, schedules: seq<seq<nat>>) returns (results: seq<Candidate>)
    requires g.WellFormed() && forall s :: s in schedules ==> Below(s, |g.codes|)
    ensures |results| == |schedules|
    ensures forall k :: 0 <= k < |schedules| ==> results[k] == CandidateFor(g, schedules[k])
  {
    results := [];
    for k := 0 to |schedules|
      invariant |results| == k
      invariant forall k' :: 0 <= k' < k ==> results[k'] == CandidateFor(g, schedules[k'])
    {
      var schedule := schedules[k];
      var selected := CodesAt(g, schedule);
      var excluded := ExcludedFor(g, schedule);
      results := results + [Candidate(selected, excluded)];
    }
  }

  /**
   * `generate_combinations`: groups the records, fails when no record has a day, searches
   * for the maximum schedules and assembles one candidate per schedule.
   */
  method GenerateCombinations(input: seq<Session>) returns (r: Result<Generated, GenerateError>)
    ensures r.Failure? <==> NothingUsable(input)
    ensures r.Success? ==> r.value == Generated(CandidatesOf(Grouped(input)), Grouped(input))
    ensures r.Success? ==>
      && r.value.candidates != []
      && forall k :: 0 <= k < |r.value.candidates| ==> r.value.candidates[k].selected != []
  {
    var g := GroupByCode(input);
    NoCodesIffNothingUsable(input);
    if g.sessions == map[] {
      EmptyMapNoCodes(g);
      return Failure(NoValidCourses);
    }
    assert g.codes != [] by {
      var c :| c in g.sessions;
    }
    var schedules, maxLen := FindMaxSchedules(g);
    var results := AssembleCandidates(g, schedules);
    MaximumSchedulesCorrect(g);
    r := Success(Generated(results, g));
  }

  /** `generate_timetable_combinations`: the same computation, passed through unchanged. */
  method GenerateTimetableCombinations(input: seq<Session>) returns (r: Result<Generated, GenerateError>)
    ensures r.Failure? <==> NothingUsable(input)
    ensures r.Success? ==> r.value == Generated(CandidatesOf(Grouped(input)), Grouped(input))
  {
    r := GenerateCombinations(input);
  }

  lemma CodesAtSnoc(g: Grouping, schedule: seq<nat>)
    requires schedule != [] && Below(schedule, |g.codes|)
    ensures CodesAt(g, schedule)
         == CodesAt(g, schedule[..|schedule| - 1]) + [g.codes[schedule[|schedule| - 1]]]
  {
  }

  /**
   * The conflict list of a left-out code holds exactly the chosen codes it conflicts with
   * (sound and complete).
   */
  lemma {:induction false} ConflictsWithMembers(g: Grouping, i: nat, schedule: seq<nat>, x: string)
    requires g.WellFormed() && i < |g.codes| && Below(schedule, |g.codes|)
    ensures x in ConflictsWith(g, i, schedule)
        <==> x in CodesAt(g, schedule) && CodesConflict(g, g.codes[i], x)
  {
    if schedule != [] {
      var init := schedule[..|schedule| - 1];
      ConflictsWithMembers(g, i, init, x);
      CodesAtSnoc(g, schedule);
    }
  }

  /** After `i` codes of the key order, the keys of `excluded` are those left out of the schedule. */
  lemma {:induction false} ExcludedUpToKeys(g: Grouping, schedule: seq<nat>, i: nat)
    requires g.WellFormed() && Below(schedule, |g.codes|) && i <= |g.codes|
    ensures forall c :: (c in ExcludedUpTo(g, schedule, i)
      <==> exists p :: 0 <= p < i && p !in schedule && g.codes[p] == c)
  {
    if i > 0 {
      ExcludedUpToKeys(g, schedule, i - 1);
      var prev, m := ExcludedUpTo(g, schedule, i - 1), ExcludedUpTo(g, schedule, i);
      forall c
        ensures c in m <==> exists p :: 0 <= p < i && p !in schedule && g.codes[p] == c
      {
        if c in m && c !in prev {
          assert g.codes[i - 1] == c;
        }
        if exists p :: 0 <= p < i && p !in schedule && g.codes[p] == c {
          var p :| 0 <= p < i && p !in schedule && g.codes[p] == c;
          if p < i - 1 {
            assert c in prev;
          }
        }
      }
    }
  }

  /** After `i` codes of the key order, each left-out code holds its conflict list. */
  lemma {:induction false} ExcludedUpToValues(g: Grouping, schedule: seq<nat>, i: nat)
    requires g.WellFormed() && Below(schedule, |g.codes|) && i <= |g.codes|
    ensures forall p :: 0 <= p < i && p !in schedule ==>
      && g.codes[p] in ExcludedUpTo(g, schedule, i)
      && ExcludedUpTo(g, schedule, i)[g.codes[p]] == ConflictsWith(g, p, schedule)
  {
    if i > 0 {
      ExcludedUpToValues(g, schedule, i - 1);
      var prev, m := ExcludedUpTo(g, schedule, i - 1), ExcludedUpTo(g, schedule, i);
      forall p | 0 <= p < i && p !in schedule
        ensures g.codes[p] in m && m[g.codes[p]] == ConflictsWith(g, p, schedule)
      {
        if p < i - 1 {
          assert g.codes[p] != g.codes[i - 1];
        }
      }
    }
  }

  /** The key-order position of a code. */
  lemma PositionOf(g: Grouping, c: string) returns (p: nat)
    requires g.WellFormed() && c in g.codes
    ensures p < |g.codes| && g.codes[p] == c
    ensures forall q :: 0 <= q < |g.codes| && g.codes[q] == c ==> q == p
  {
    var k :| 0 <= k < |g.codes| && g.codes[k] == c;
    p := k;
  }

  /** A code is chosen exactly when its position is in the schedule. */
  lemma ChosenIffPositionChosen(g: Grouping, schedule: seq<nat>, p: nat)
    requires g.WellFormed() && Below(schedule, |g.codes|) && p < |g.codes|
    ensures g.codes[p] in CodesAt(g, schedule) <==> p in schedule
  {
    var sel := CodesAt(g, schedule);
    if g.codes[p] in sel {
      var k :| 0 <= k < |sel| && sel[k] == g.codes[p];
      assert schedule[k] == p;
    }
    if p in schedule {
      var k :| 0 <= k < |schedule| && schedule[k] == p;
      assert sel[k] == g.codes[p];
    }
  }

  /** The chosen codes of a candidate are pairwise conflict-free, in either order. */
  lemma SelectedConflictFree(g: Grouping, schedule: seq<nat>)
    requires g.WellFormed() && IsSchedule(g, schedule)
    ensures var sel := CandidateFor(g, schedule).selected;
      forall a, b :: 0 <= a < b < |sel| ==>
        !CodesConflict(g, sel[a], sel[b]) && !CodesConflict(g, sel[b], sel[a])
  {
    var sel := CandidateFor(g, schedule).selected;
    forall a, b | 0 <= a < b < |sel|
      ensures !CodesConflict(g, sel[a], sel[b]) && !CodesConflict(g, sel[b], sel[a])
    {
      assert !Conflict(g, schedule[b], schedule[a]);
      GroupsConflictSymmetric(g.sessions[sel[a]], g.sessions[sel[b]]);
    }
  }

  /** The chosen codes of a candidate appear in the key order of the groups. */
  lemma SelectedInKeyOrder(g: Grouping, schedule: seq<nat>)
    requires g.WellFormed() && IsSchedule(g, schedule)
    ensures var sel := CandidateFor(g, schedule).selected;
      && |sel| == |schedule|
      && forall a, b, p, q ::
        (0 <= a < b < |sel| && 0 <= p < |g.codes| && 0 <= q < |g.codes|
         && g.codes[p] == sel[a] && g.codes[q] == sel[b]) ==> p < q
  {
    var sel, n := CandidateFor(g, schedule).selected, |g.codes|;
    forall a, b, p, q | 0 <= a < b < |sel| && 0 <= p < n && 0 <= q < n
        && g.codes[p] == sel[a] && g.codes[q] == sel[b]
      ensures p < q
    {
      assert p == schedule[a] && q == schedule[b];
    }
  }

  /** `excluded` has exactly the codes that were left out as keys. */
  lemma ExcludedKeys(g: Grouping, schedule: seq<nat>)
    requires g.WellFormed() && IsSchedule(g, schedule)
    ensures var cand := CandidateFor(g, schedule);
      forall c :: c in cand.excluded <==> c in g.codes && c !in cand.selected
  {
    var cand := CandidateFor(g, schedule);
    ExcludedUpToKeys(g, schedule, |g.codes|);
    forall c
      ensures c in cand.excluded <==> c in g.codes && c !in cand.selected
    {
      if c in g.codes {
        var p := PositionOf(g, c);
        ChosenIffPositionChosen(g, schedule, p);
      }
    }
  }

  /** Each left-out code lists exactly the chosen codes it conflicts with (possibly none). */
  lemma ExcludedValues(g: Grouping, schedule: seq<nat>)
    requires g.WellFormed() && IsSchedule(g, schedule)
    ensures forall c :: c in ExcludedMap(g, schedule) ==> c in g.codes
    ensures var cand := CandidateFor(g, schedule);
      forall c, x :: c in cand.excluded ==>
        (x in cand.excluded[c] <==> x in cand.selected && CodesConflict(g, c, x))
  {
    var cand := CandidateFor(g, schedule);
    ExcludedUpToKeys(g, schedule, |g.codes|);
    ExcludedUpToValues(g, schedule, |g.codes|);
    forall c, x | c in cand.excluded
      ensures x in cand.excluded[c] <==> x in cand.selected && CodesConflict(g, c, x)
    {
      var p :| 0 <= p < |g.codes| && p !in schedule && g.codes[p] == c;
      ConflictsWithMembers(g, p, schedule, x);
    }
  }

  /** The codes of a list, as a set. */
  function Members(xs: seq<string>): set<string>
  {
    set x | x in xs
  }

  predicate Distinct(xs: seq<string>)
  {
    forall i, j :: 0 <= i < j < |xs| ==> xs[i] != xs[j]
  }

  lemma {:induction false} DistinctCard(xs: seq<string>)
    requires Distinct(xs)
    ensures |Members(xs)| == |xs|
  {
    if xs != [] {
      var init := xs[..|xs| - 1];
      DistinctCard(init);
      assert Members(xs) == Members(init) + {xs[|xs| - 1]};
      assert xs[|xs| - 1] !in Members(init);
    }
  }

  /** A set of known course codes no two of which conflict. */
  ghost predicate CompatibleCodes(g: Grouping, t: set<string>)
    requires g.WellFormed()
  {
    && (forall c :: c in t ==> c in g.codes)
    && (forall c1, c2 :: c1 in t && c2 in t && c1 != c2 ==> !CodesConflict(g, c1, c2))
  }

  /** The positions among the first `i` of the key order whose codes are in `t`, increasing. */
  function PositionsIn(g: Grouping, t: set<string>, i: nat): seq<nat>
    requires i <= |g.codes|
  {
    if i == 0 then []
    else PositionsIn(g, t, i - 1) + (if g.codes[i - 1] in t then [i - 1] else [])
  }

  lemma {:induction false} PositionsInMembers(g: Grouping, t: set<string>, i: nat)
    requires i <= |g.codes|
    ensures Below(PositionsIn(g, t, i), i) && Increasing(PositionsIn(g, t, i))
    ensures forall p: nat :: p in PositionsIn(g, t, i) <==> p < i && g.codes[p] in t
  {
    if i > 0 {
      PositionsInMembers(g, t, i - 1);
    }
  }

  /** The codes a schedule chooses are distinct. */
  lemma CodesAtDistinct(g: Grouping, s: seq<nat>)
    requires g.WellFormed() && IsSchedule(g, s)
    ensures Distinct(CodesAt(g, s))
  {
    var sel := CodesAt(g, s);
    forall i, j | 0 <= i < j < |sel|
      ensures sel[i] != sel[j]
    {
      assert s[i] < s[j];
    }
  }

  /** The positions of a compatible set of codes form a schedule. */
  lemma PositionsInSchedule(g: Grouping, t: set<string>)
    requires g.WellFormed() && CompatibleCodes(g, t)
    ensures IsSchedule(g, PositionsIn(g, t, |g.codes|))
  {
    var s := PositionsIn(g, t, |g.codes|);
    PositionsInMembers(g, t, |g.codes|);
    forall i, j | 0 <= i < j < |s|
      ensures !Conflict(g, s[j], s[i])
    {
      assert s[i] < s[j];
      assert g.codes[s[j]] != g.codes[s[i]];
    }
  }

  /** Every compatible set of codes is chosen by some schedule of the same size. */
  lemma ScheduleOfCodes(g: Grouping, t: set<string>) returns (s: seq<nat>)
    requires g.WellFormed() && CompatibleCodes(g, t)
    ensures IsSchedule(g, s) && Members(CodesAt(g, s)) == t && |s| == |t|
  {
    s := PositionsIn(g, t, |g.codes|);
    PositionsInSchedule(g, t);
    PositionsInMembers(g, t, |g.codes|);
    var sel := CodesAt(g, s);
    forall c | c in t
      ensures c in Members(sel)
    {
      var p := PositionOf(g, c);
      ChosenIffPositionChosen(g, s, p);
    }
    CodesAtDistinct(g, s);
    DistinctCard(sel);
  }

  /** Two increasing sequences with the same elements are equal. */
  lemma {:induction false} IncreasingSameElements(a: seq<nat>, b: seq<nat>)
    requires Increasing(a) && Increasing(b)
    requires forall p :: p in a <==> p in b
    ensures a == b
  {
    if a != [] {
      assert a[0] in b;
    }
    if b != [] {
      assert b[0] in a;
    }
    if a != [] {
      assert a[0] == b[0];
      forall p
        ensures p in a[1..] <==> p in b[1..]
      {
        if p in a[1..] {
          assert p in b && p != b[0];
        }
        if p in b[1..] {
          assert p in a && p != a[0];
        }
      }
      IncreasingSameElements(a[1..], b[1..]);
    }
  }

  /** Two schedules choosing the same set of codes are the same schedule. */
  lemma SameCodesSameSchedule(g: Grouping, s1: seq<nat>, s2: seq<nat>)
    requires g.WellFormed() && IsSchedule(g, s1) && IsSchedule(g, s2)
    requires Members(CodesAt(g, s1)) == Members(CodesAt(g, s2))
    ensures s1 == s2
  {
    forall p: nat
      ensures p in s1 <==> p in s2
    {
      if p < |g.codes| {
        ChosenIffPositionChosen(g, s1, p);
        ChosenIffPositionChosen(g, s2, p);
        assert g.codes[p] in CodesAt(g, s1) <==> g.codes[p] in Members(CodesAt(g, s1));
        assert g.codes[p] in CodesAt(g, s2) <==> g.codes[p] in Members(CodesAt(g, s2));
      } else {
        assert p !in s1 && p !in s2;
      }
    }
    IncreasingSameElements(s1, s2);
  }

  /** The chosen codes of a schedule form a compatible set. */
  lemma ScheduleCodesCompatible(g: Grouping, s: seq<nat>)
    requires g.WellFormed() && IsSchedule(g, s)
    ensures CompatibleCodes(g, Members(CodesAt(g, s)))
    ensures |Members(CodesAt(g, s))| == |s|
  {
    var sel := CodesAt(g, s);
    SelectedConflictFree(g, s);
    forall c1, c2 | c1 in Members(sel) && c2 in Members(sel) && c1 != c2
      ensures !CodesConflict(g, c1, c2)
    {
      var a :| 0 <= a < |sel| && sel[a] == c1;
      var b :| 0 <= b < |sel| && sel[b] == c2;
    }
    CodesAtDistinct(g, s);
    DistinctCard(sel);
  }

  /**
   * The candidates are the maximum compatible sets of codes: each is compatible and of the
   * largest size any compatible set has, and every compatible set of that size is chosen by
   * exactly one candidate.
   */
  lemma CandidatesAreMaximumSets(g: Grouping)
    requires g.WellFormed()
    ensures var cs := CandidatesOf(g);
      forall k :: 0 <= k < |cs| ==>
        CompatibleCodes(g, Members(cs[k].selected)) && |Members(cs[k].selected)| == MaxSize(g)
    ensures forall t :: CompatibleCodes(g, t) ==> |t| <= MaxSize(g)
    ensures var cs := CandidatesOf(g);
      forall t :: CompatibleCodes(g, t) && |t| == MaxSize(g) ==>
        exists k :: 0 <= k < |cs| && Members(cs[k].selected) == t
    ensures var cs := CandidatesOf(g);
      forall k1, k2 :: 0 <= k1 < k2 < |cs| ==> Members(cs[k1].selected) != Members(cs[k2].selected)
  {
    var cs, ms := CandidatesOf(g), MaximumSchedules(g);
    MaximumSchedulesCorrect(g);
    forall k | 0 <= k < |cs|
      ensures CompatibleCodes(g, Members(cs[k].selected)) && |Members(cs[k].selected)| == MaxSize(g)
    {
      assert ms[k] in ms;
      ScheduleCodesCompatible(g, ms[k]);
    }
    forall t | CompatibleCodes(g, t)
      ensures |t| <= MaxSize(g)
      ensures |t| == MaxSize(g) ==> exists k :: 0 <= k < |cs| && Members(cs[k].selected) == t
    {
      var s := ScheduleOfCodes(g, t);
      if |t| == MaxSize(g) {
        assert s in ms;
        var k :| 0 <= k < |ms| && ms[k] == s;
        assert Members(cs[k].selected) == t;
      }
    }
    forall k1, k2 | 0 <= k1 < k2 < |cs|
      ensures Members(cs[k1].selected) != Members(cs[k2].selected)
    {
      assert ms[k1] in ms && ms[k2] in ms;
      if Members(cs[k1].selected) == Members(cs[k2].selected) {
        SameCodesSameSchedule(g, ms[k1], ms[k2]);
      }
    }
  }

  /**
   * Every candidate has the same number of chosen codes, and when there is at least one
   * course there is at least one candidate and none chooses nothing.
   */
  lemma CandidatesNonEmpty(g: Grouping)
    requires g.WellFormed()
    ensures var cs := CandidatesOf(g);
      forall k :: 0 <= k < |cs| ==> |cs[k].selected| == MaxSize(g)
    ensures var cs := CandidatesOf(g);
      |g.codes| > 0 ==> cs != [] && forall k :: 0 <= k < |cs| ==> cs[k].selected != []
  {
    MaximumSchedulesCorrect(g);
    var ms := MaximumSchedules(g);
    assert forall k :: 0 <= k < |ms| ==> ms[k] in ms;
  }
}
