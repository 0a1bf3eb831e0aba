/**
 * The conflict check and the maximum-schedule search of `generate_combinations`
 * (utils/timetable_service.py:27-69): exhaustive backtracking over the course codes in key
 * order, "include" tried before "exclude", keeping every complete selection of the largest
 * size seen so far.
 *
 * A selection is a sequence of positions into the key order, as the source's `current`
 * list is.
 */
module Search {
  import opened Sessions
  import opened Grouping

  /** `check_conflicts`: nested loops over the two groups, returning at the first clash. */
  method CheckConflicts(g: Grouping, code1: string, code2: string) returns (conflict: bool)
    requires code1 in g.sessions && code2 in g.sessions
    ensures conflict <==> GroupsConflict(g.sessions[code1], g.sessions[code2])
  {
    var group1, group2 := g.sessions[code1], g.sessions[code2];
    for i := 0 to |group1|
      invariant forall i', j :: 0 <= i' < i && 0 <= j < |group2| ==> !SessionsOverlap(group1[i'], group2[j])
    {
      for j := 0 to |group2|
        invariant forall j' :: 0 <= j' < j ==> !SessionsOverlap(group1[i], group2[j'])
      {
        var s1, s2 := group1[i], group2[j];
        if s1.day == s2.day {
          if !(s1.end <= s2.start || s2.end <= s1.start) {
            return true;
          }
        }
      }
    }
    return false;
  }

  /** The courses at positions `i` and `j` of the key order conflict. */
  predicate Conflict(g: Grouping, i: nat, j: nat)
    requires g.WellFormed() && i < |g.codes| && j < |g.codes|
  {
    GroupsConflict(g.sessions[g.codes[i]], g.sessions[g.codes[j]])
  }

  predicate Below(s: seq<nat>, n: nat)
  {
    forall k :: 0 <= k < |s| ==> s[k] < n
  }

  predicate Increasing(s: seq<nat>)
  {
    forall i, j :: 0 <= i < j < |s| ==> s[i] < s[j]
  }

  /**
   * A conflict-free set of course codes, written as its positions in key order: strictly
   * increasing, in range, and no later member conflicting with an earlier one.
   */
  predicate IsSchedule(g: Grouping, s: seq<nat>)
    requires g.WellFormed()
  {
    && Below(s, |g.codes|)
    && Increasing(s)
    && (forall i, j :: 0 <= i < j < |s| ==> !Conflict(g, s[j], s[i]))
  }

  /** `can_add`: the code at `pos` conflicts with none of the codes chosen so far. */
  predicate Compatible(g: Grouping, pos: nat, current: seq<nat>)
    requires g.WellFormed() && pos < |g.codes| && Below(current, |g.codes|)
  {
    forall k :: 0 <= k < |current| ==> !Conflict(g, pos, current[k])
  }

  /**
   * The complete selections reached by `backtrack(pos, current)`, in the order the search
   * reaches them: first those that include the code at `pos` (when it fits), then those that
   * leave it out.
   */
  function Leaves(g: Grouping, pos: nat, current: seq<nat>): seq<seq<nat>>
    requires g.WellFormed() && pos <= |g.codes| && Below(current, |g.codes|)
    decreases |g.codes| - pos
  {
    if pos == |g.codes| then [current]
    else
      (if Compatible(g, pos, current) then Leaves(g, pos + 1, current + [pos]) else [])
      + Leaves(g, pos + 1, current)
  }

  /** The search's running state: `max_len` and `max_schedules`. */
  datatype Tally = Tally(maxLen: nat, schedules: seq<seq<nat>>)

  /** What the search does at one complete selection (utils/timetable_service.py:47-54). */
  function Visit(t: Tally, leaf: seq<nat>): Tally
  {
    if |leaf| > t.maxLen then Tally(|leaf|, [leaf])
    else if |leaf| == t.maxLen then Tally(t.maxLen, t.schedules + [leaf])
    else t
  }

  /** The running state after visiting `leaves` in order. */
  function VisitAll(t: Tally, leaves: seq<seq<nat>>): Tally
    decreases |leaves|
  {
    if leaves == [] then t else VisitAll(Visit(t, leaves[0]), leaves[1..])
  }

  /** The length of the longest selection in `leaves`, 0 when there is none. */
  function MaxLength(leaves: seq<seq<nat>>): nat
  {
    if leaves == [] then 0
    else
      var rest := MaxLength(leaves[1..]);
      if |leaves[0]| >= rest then |leaves[0]| else rest
  }

  /** `MaxLength` bounds every selection and is reached by one when there is any. */
  lemma {:induction false} MaxLengthIsMaximum(leaves: seq<seq<nat>>)
    ensures forall k :: 0 <= k < |leaves| ==> |leaves[k]| <= MaxLength(leaves)
    ensures leaves != [] ==> exists k :: 0 <= k < |leaves| && |leaves[k]| == MaxLength(leaves)
  {
    if leaves != [] {
      var rest := leaves[1..];
      MaxLengthIsMaximum(rest);
      assert forall k :: 1 <= k < |leaves| ==> leaves[k] == rest[k - 1];
      if |leaves[0]| < MaxLength(rest) {
        var k :| 0 <= k < |rest| && |rest[k]| == MaxLength(rest);
        assert leaves[k + 1] == rest[k];
      }
    }
  }

  /** The selections of length `len`, in their original order. */
  function WithLength(leaves: seq<seq<nat>>, len: nat): seq<seq<nat>>
  {
    if leaves == [] then []
    else (if |leaves[0]| == len then [leaves[0]] else []) + WithLength(leaves[1..], len)
  }

  /** `WithLength` keeps exactly the selections of the given length. */
  lemma {:induction false} WithLengthMembers(leaves: seq<seq<nat>>, len: nat)
    ensures forall x :: x in WithLength(leaves, len) <==> x in leaves && |x| == len
  {
    if leaves != [] {
      WithLengthMembers(leaves[1..], len);
      assert leaves == [leaves[0]] + leaves[1..];
    }
  }

  /** Every conflict-free selection, in search order. */
  function AllSchedules(g: Grouping): seq<seq<nat>>
    requires g.WellFormed()
  {
    Leaves(g, 0, [])
  }

  /** The largest number of courses that fit together. */
  function MaxSize(g: Grouping): nat
    requires g.WellFormed()
  {
    MaxLength(AllSchedules(g))
  }

  /** The maximum conflict-free selections, in search order. */
  function MaximumSchedules(g: Grouping): seq<seq<nat>>
    requires g.WellFormed()
  {
    WithLength(AllSchedules(g), MaxSize(g))
  }

  /**
   * The search order: at the first course on which the two selections decide differently,
   * `a` includes it and `b` leaves it out.
   */
  ghost predicate IncludedEarlier(a: seq<nat>, b: seq<nat>)
  {
    exists p: nat :: p in a && p !in b && forall q: nat :: q < p ==> (q in a <==> q in b)
  }

  ghost predicate InSearchOrder(ls: seq<seq<nat>>)
  {
    forall i, j :: 0 <= i < j < |ls| ==> IncludedEarlier(ls[i], ls[j])
  }

  /** The state of the closure over `max_len`, `max_schedules` and `current`. */
  class MaxScheduleSearch {
    const g: Grouping
    var current: seq<nat>
    var maxLen: nat
    var maxSchedules: seq<seq<nat>>

    constructor (g: Grouping)
      requires g.WellFormed()
      ensures this.g == g && current == [] && maxLen == 0 && maxSchedules == []
    {
      this.g := g;
      current := [];
      maxLen := 0;
      maxSchedules := [];
    }

    /** A complete selection: a longer one restarts the list, one as long is appended. */
    method Record()
      modifies this
      ensures current == old(current)
      ensures Tally(maxLen, maxSchedules) == Visit(Tally(old(maxLen), old(maxSchedules)), current)
    {
      if |current| > maxLen {
        maxLen := |current|;
        maxSchedules := [current];
      } else if |current| == maxLen {
        maxSchedules := maxSchedules + [current];
      }
    }

    /** `backtrack(pos, current)`: visits every complete selection below this point, in order. */
    method Backtrack(pos: nat)
      requires g.WellFormed() && pos <= |g.codes| && Below(current, |g.codes|)
      modifies this
      ensures current == old(current)
      ensures Tally(maxLen, maxSchedules)
           == VisitAll(Tally(old(maxLen), old(maxSchedules)), Leaves(g, pos, old(current)))
      decreases |g.codes| - pos
    {
      if pos == |g.codes| {
        VisitOne(Tally(maxLen, maxSchedules), current);
        Record();
        return;
      }
      ghost var start := Tally(maxLen, maxSchedules);
      ghost var chosen := current;
      ghost var included := if Compatible(g, pos, chosen) then Leaves(g, pos + 1, chosen + [pos]) else [];
      assert Leaves(g, pos, chosen) == included + Leaves(g, pos + 1, chosen);
      var canAdd := CanInclude(g, pos, current);
      if canAdd {
        current := current + [pos];
        Backtrack(pos + 1);
        assert current == chosen + [pos];
        current := current[..|current| - 1];
        assert current == chosen;
      }
      assert Tally(maxLen, maxSchedules) == VisitAll(start, included);
      Backtrack(pos + 1);
      VisitAllAppend(start, included, Leaves(g, pos + 1, chosen));
    }
  }

  /** `all(not check_conflicts(...) for i in current)`, stopping at the first conflict. */
  method CanInclude(g: Grouping, pos: nat, current: seq<nat>) returns (ok: bool)
    requires g.WellFormed() && pos < |g.codes| && Below(current, |g.codes|)
    ensures ok <==> Compatible(g, pos, current)
  {
    for k := 0 to |current|
      invariant forall k' :: 0 <= k' < k ==> !Conflict(g, pos, current[k'])
    {
      var clash := CheckConflicts(g, g.codes[pos], g.codes[current[k]]);
      if clash {
        return false;
      }
    }
    return true;
  }

  /** `find_max_schedules`: runs the search from the empty selection. */
  method FindMaxSchedules(g: Grouping) returns (schedules: seq<seq<nat>>, maxLen: nat)
    requires g.WellFormed()
    ensures schedules == MaximumSchedules(g) && maxLen == MaxSize(g)
    ensures forall s :: s in schedules ==> IsSchedule(g, s) && |s| == maxLen
    ensures forall s :: IsSchedule(g, s) ==> |s| <= maxLen
    ensures forall s :: IsSchedule(g, s) && |s| == maxLen ==> s in schedules
  {
    var search := new MaxScheduleSearch(g);
    search.Backtrack(0);
    schedules, maxLen := search.maxSchedules, search.maxLen;
    TallyOfVisitAll(0, [], AllSchedules(g));
    MaximumSchedulesCorrect(g);
  }

  /** Visiting two runs of selections one after the other is visiting their concatenation. */
  lemma VisitOne(t: Tally, leaf: seq<nat>)
    ensures VisitAll(t, [leaf]) == Visit(t, leaf)
  {
    assert [leaf][1..] == [];
  }

  lemma {:induction false} VisitAllAppend(t: Tally, a: seq<seq<nat>>, b: seq<seq<nat>>)
    ensures VisitAll(t, a + b) == VisitAll(VisitAll(t, a), b)
    decreases |a|
  {
    if a != [] {
      assert (a + b)[0] == a[0] && (a + b)[1..] == a[1..] + b;
      VisitAllAppend(Visit(t, a[0]), a[1..], b);
    } else {
      assert a + b == b;
    }
  }

  /**
   * The running maximum ends at the larger of the starting size and the longest selection;
   * the kept list is the longest selections in visiting order, behind the starting list
   * when no selection was longer than the starting size.
   */
  lemma {:induction false} TallyOfVisitAll(m: nat, ms: seq<seq<nat>>, leaves: seq<seq<nat>>)
    ensures var top := if MaxLength(leaves) > m then MaxLength(leaves) else m;
      VisitAll(Tally(m, ms), leaves)
      == Tally(top, (if MaxLength(leaves) <= m then ms else []) + WithLength(leaves, top))
    decreases |leaves|
  {
    if leaves != [] {
      var x, rest := leaves[0], leaves[1..];
      var mr := MaxLength(rest);
      var ml := if |x| >= mr then |x| else mr;
      assert MaxLength(leaves) == ml;
      var top := if ml > m then ml else m;
      var t := Visit(Tally(m, ms), x);
      TallyOfVisitAll(t.maxLen, t.schedules, rest);
      var wr := WithLength(rest, top);
      assert WithLength(leaves, top) == (if |x| == top then [x] else []) + wr;
      if |x| > m {
        assert t == Tally(|x|, [x]);
        if mr <= |x| {
          assert top == |x|;
          assert VisitAll(t, rest) == Tally(top, [x] + wr);
        } else {
          assert top == mr;
          assert VisitAll(t, rest) == Tally(top, wr);
        }
      } else if |x| == m {
        assert t == Tally(m, ms + [x]);
        if mr <= m {
          assert top == m;
          assert VisitAll(t, rest) == Tally(top, ms + [x] + wr);
          assert ms + [x] + wr == ms + ([x] + wr);
        } else {
          assert top == mr;
          assert VisitAll(t, rest) == Tally(top, wr);
        }
      } else {
        assert t == Tally(m, ms);
        if mr <= m {
          assert top == m;
          assert VisitAll(t, rest) == Tally(top, ms + wr);
        } else {
          assert VisitAll(t, rest) == Tally(top, wr);
        }
      }
    }
  }

  /** Selections that extend `current` with positions from `pos` on. */
  predicate Extends(current: seq<nat>, pos: nat, s: seq<nat>)
  {
    |current| <= |s| && s[..|current|] == current
    && forall k :: |current| <= k < |s| ==> pos <= s[k]
  }

  /** The search's precondition at `backtrack(pos, current)`. */
  predicate Partial(g: Grouping, pos: nat, current: seq<nat>)
    requires g.WellFormed()
  {
    pos <= |g.codes| && IsSchedule(g, current) && Below(current, pos)
  }

  lemma ExtendPartial(g: Grouping, pos: nat, current: seq<nat>)
    requires g.WellFormed() && pos < |g.codes| && Partial(g, pos, current)
    requires Compatible(g, pos, current)
    ensures Partial(g, pos + 1, current + [pos])
  {
    var c := current + [pos];
    forall i, j | 0 <= i < j < |c|
      ensures !Conflict(g, c[j], c[i])
    {
      if j == |current| {
        assert c[j] == pos && c[i] == current[i];
      } else {
        assert c[j] == current[j] && c[i] == current[i];
      }
    }
  }

  /** Every selection the search reaches is a conflict-free extension of the current one. */
  lemma {:induction false} LeavesSound(g: Grouping, pos: nat, current: seq<nat>)
    requires g.WellFormed() && Partial(g, pos, current)
    ensures forall s :: s in Leaves(g, pos, current) ==> IsSchedule(g, s) && Extends(current, pos, s)
    decreases |g.codes| - pos
  {
    if pos < |g.codes| {
      if Compatible(g, pos, current) {
        ExtendPartial(g, pos, current);
        LeavesSound(g, pos + 1, current + [pos]);
        forall s | s in Leaves(g, pos + 1, current + [pos])
          ensures Extends(current, pos, s)
        {
          assert s[..|current| + 1][..|current|] == s[..|current|];
        }
      }
      LeavesSound(g, pos + 1, current);
    }
  }

  /** The search reaches every conflict-free extension of the current selection. */
  lemma {:induction false} LeavesComplete(g: Grouping, pos: nat, current: seq<nat>, s: seq<nat>)
    requires g.WellFormed() && Partial(g, pos, current)
    requires IsSchedule(g, s) && Extends(current, pos, s)
    ensures s in Leaves(g, pos, current)
    decreases |g.codes| - pos
  {
    if pos == |g.codes| {
      assert s == s[..|current|];
    } else if |s| > |current| && s[|current|] == pos {
      forall k | 0 <= k < |current|
        ensures !Conflict(g, pos, current[k])
      {
        assert s[k] == current[k];
      }
      ExtendPartial(g, pos, current);
      assert s[..|current| + 1] == current + [pos];
      LeavesComplete(g, pos + 1, current + [pos], s);
    } else {
      LeavesComplete(g, pos + 1, current, s);
    }
  }

  /** Below `pos`, an extension contains exactly the positions of the current selection. */
  lemma MembersBelow(current: seq<nat>, pos: nat, s: seq<nat>, q: nat)
    requires Extends(current, pos, s) && q < pos
    ensures q in s <==> q in current
  {
    if q in s {
      var k :| 0 <= k < |s| && s[k] == q;
      assert k < |current| && current[k] == q;
    }
    if q in current {
      var k :| 0 <= k < |current| && current[k] == q;
      assert s[k] == q;
    }
  }

  lemma InSearchOrderConcat(a: seq<seq<nat>>, b: seq<seq<nat>>)
    requires InSearchOrder(a) && InSearchOrder(b)
    requires forall x, y :: x in a && y in b ==> IncludedEarlier(x, y)
    ensures InSearchOrder(a + b)
  {
    var c := a + b;
    forall i, j | 0 <= i < j < |c|
      ensures IncludedEarlier(c[i], c[j])
    {
      if j < |a| {
        assert c[i] == a[i] && c[j] == a[j];
      } else if i < |a| {
        assert c[i] in a && c[j] in b;
      } else {
        assert c[i] == b[i - |a|] && c[j] == b[j - |a|];
      }
    }
  }

  /**
   * A selection that includes `pos` on top of `current` comes before one that extends
   * `current` past `pos` without it.
   */
  lemma IncludeBeforeExclude(current: seq<nat>, pos: nat, x: seq<nat>, y: seq<nat>)
    requires Below(current, pos)
    requires Extends(current + [pos], pos + 1, x) && Extends(current, pos + 1, y)
    ensures IncludedEarlier(x, y)
  {
    assert x[|current|] == pos;
    assert Extends(current, pos, x) by {
      assert x[..|current| + 1][..|current|] == x[..|current|];
    }
    forall k | 0 <= k < |y|
      ensures y[k] != pos
    {
      if k < |current| {
        assert y[k] == y[..|current|][k];
      }
    }
    assert pos in x && pos !in y;
    forall q: nat | q < pos
      ensures q in x <==> q in y
    {
      MembersBelow(current, pos, x, q);
      MembersBelow(current, pos + 1, y, q);
    }
  }

  /** The search reaches selections in search order: "include" before "exclude". */
  lemma {:induction false} LeavesInSearchOrder(g: Grouping, pos: nat, current: seq<nat>)
    requires g.WellFormed() && Partial(g, pos, current)
    ensures InSearchOrder(Leaves(g, pos, current))
    decreases |g.codes| - pos
  {
    if pos < |g.codes| {
      var excl := Leaves(g, pos + 1, current);
      LeavesInSearchOrder(g, pos + 1, current);
      LeavesSound(g, pos + 1, current);
      if Compatible(g, pos, current) {
        var incl := Leaves(g, pos + 1, current + [pos]);
        ExtendPartial(g, pos, current);
        LeavesInSearchOrder(g, pos + 1, current + [pos]);
        LeavesSound(g, pos + 1, current + [pos]);
        forall x, y | x in incl && y in excl
          ensures IncludedEarlier(x, y)
        {
          IncludeBeforeExclude(current, pos, x, y);
        }
        InSearchOrderConcat(incl, excl);
      } else {
        assert Leaves(g, pos, current) == [] + excl;
      }
    }
  }

  lemma {:induction false} WithLengthInSearchOrder(leaves: seq<seq<nat>>, len: nat)
    requires InSearchOrder(leaves)
    ensures InSearchOrder(WithLength(leaves, len))
  {
    if leaves != [] {
      var rest := leaves[1..];
      assert InSearchOrder(rest) by {
        forall i, j | 0 <= i < j < |rest|
          ensures IncludedEarlier(rest[i], rest[j])
        {
          assert rest[i] == leaves[i + 1] && rest[j] == leaves[j + 1];
        }
      }
      WithLengthInSearchOrder(rest, len);
      WithLengthMembers(rest, len);
      if |leaves[0]| == len {
        forall y | y in WithLength(rest, len)
          ensures IncludedEarlier(leaves[0], y)
        {
          var k :| 0 <= k < |rest| && rest[k] == y;
          assert leaves[k + 1] == y;
        }
        InSearchOrderConcat([leaves[0]], WithLength(rest, len));
      } else {
        assert WithLength(leaves, len) == WithLength(rest, len);
      }
    }
  }

  /** A list in search order holds no selection twice. */
  lemma InSearchOrderDistinct(ls: seq<seq<nat>>)
    requires InSearchOrder(ls)
    ensures forall i, j :: 0 <= i < j < |ls| ==> ls[i] != ls[j]
  {
    forall i, j | 0 <= i < j < |ls|
      ensures ls[i] != ls[j]
    {
      assert IncludedEarlier(ls[i], ls[j]);
    }
  }

  /** The conflict-free selections are exactly the complete selections the search reaches. */
  lemma AllSchedulesExact(g: Grouping)
    requires g.WellFormed()
    ensures forall s :: s in AllSchedules(g) <==> IsSchedule(g, s)
  {
    LeavesSound(g, 0, []);
    forall s | IsSchedule(g, s)
      ensures s in AllSchedules(g)
    {
      LeavesComplete(g, 0, [], s);
    }
  }

  /** No conflict-free selection is larger than `MaxSize`, and the kept ones are exactly those of that size. */
  lemma MaximumSchedulesExact(g: Grouping)
    requires g.WellFormed()
    ensures forall s :: IsSchedule(g, s) ==> |s| <= MaxSize(g)
    ensures forall s :: s in MaximumSchedules(g) <==> IsSchedule(g, s) && |s| == MaxSize(g)
  {
    var all := AllSchedules(g);
    AllSchedulesExact(g);
    MaxLengthIsMaximum(all);
    WithLengthMembers(all, MaxSize(g));
    forall s | IsSchedule(g, s)
      ensures |s| <= MaxSize(g)
    {
      var k :| 0 <= k < |all| && all[k] == s;
    }
  }

  /** With at least one course the maximum size is positive and some selection reaches it. */
  lemma MaximumSchedulesNonEmpty(g: Grouping)
    requires g.WellFormed() && |g.codes| > 0
    ensures MaxSize(g) > 0 && MaximumSchedules(g) != []
  {
    var all := AllSchedules(g);
    MaximumSchedulesExact(g);
    assert IsSchedule(g, [0]);
    MaxLengthIsMaximum(all);
    var k :| 0 <= k < |all| && |all[k]| == MaxSize(g);
    AllSchedulesExact(g);
    assert all[k] in all;
    assert all[k] in MaximumSchedules(g);
  }

  /**
   * The search's result, in full: every kept selection is conflict-free and of the maximum
   * size; no conflict-free selection is larger; every conflict-free selection of that size is
   * kept, exactly once; they come in search order; and with at least one course the result
   * is non-empty and holds no empty selection.
   */
  lemma MaximumSchedulesCorrect(g: Grouping)
    requires g.WellFormed()
    ensures forall s :: s in MaximumSchedules(g) ==> IsSchedule(g, s) && |s| == MaxSize(g)
    ensures forall s :: IsSchedule(g, s) ==> |s| <= MaxSize(g)
    ensures forall s :: IsSchedule(g, s) && |s| == MaxSize(g) ==> s in MaximumSchedules(g)
    ensures InSearchOrder(MaximumSchedules(g))
    ensures forall i, j :: 0 <= i < j < |MaximumSchedules(g)| ==> MaximumSchedules(g)[i] != MaximumSchedules(g)[j]
    ensures |g.codes| > 0 ==> MaxSize(g) > 0 && MaximumSchedules(g) != []
  {
    MaximumSchedulesExact(g);
    LeavesInSearchOrder(g, 0, []);
    WithLengthInSearchOrder(AllSchedules(g), MaxSize(g));
    InSearchOrderDistinct(MaximumSchedules(g));
    if |g.codes| > 0 {
      MaximumSchedulesNonEmpty(g);
    }
  }
}
