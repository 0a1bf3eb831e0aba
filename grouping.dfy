/**
 * The grouping step of `TimetableAlgorithm.generate_combinations`: session records are
 * collected per course code, records without a day are dropped, codes keep the order in
 * which they were first seen, and records keep input order inside their group.
 */
module Grouping {
  import opened Wrappers
  import opened Sessions

  /**
   * The engine's `course_sessions` dictionary: `codes` is its key order and `sessions`
   * maps every key to its records.
   */
  datatype Grouping = Grouping(codes: seq<string>, sessions: map<string, seq<Session>>)
  {
    ghost predicate WellFormed()
    {
      && (forall i, j :: 0 <= i < j < |codes| ==> codes[i] != codes[j])
      && (forall c :: c in sessions <==> c in codes)
    }
  }

  /** A well-formed grouping has an empty dictionary exactly when it has no keys. */
  lemma EmptyMapNoCodes(g: Grouping)
    requires g.WellFormed()
    ensures g.sessions == map[] <==> g.codes == []
  {
    if g.codes != [] {
      assert g.codes[0] in g.sessions;
    }
  }

  /** A record takes part in grouping exactly when its day is present. */
  predicate Usable(s: Session)
  {
    s.day.Some?
  }

  /** The codes of the usable records, each once, in order of first appearance. */
  function CodesFirstSeen(xs: seq<Session>): seq<string>
  {
    if xs == [] then []
    else
      var earlier := CodesFirstSeen(xs[..|xs| - 1]);
      var s := xs[|xs| - 1];
      if !Usable(s) || s.code in earlier then earlier else earlier + [s.code]
  }

  /** The usable records with code `c`, in input order. */
  function SessionsOf(xs: seq<Session>, c: string): seq<Session>
  {
    if xs == [] then []
    else
      var s := xs[|xs| - 1];
      SessionsOf(xs[..|xs| - 1], c) + (if Usable(s) && s.code == c then [s] else [])
  }

  /** The grouping that the loop at utils/timetable_service.py:13-20 builds. */
  function Grouped(xs: seq<Session>): (g: Grouping)
    ensures g.WellFormed()
  {
    CodesFirstSeenMembers(xs);
    var codes := CodesFirstSeen(xs);
    Grouping(codes, map c | c in codes :: SessionsOf(xs, c))
  }

  /** `course_sessions` is empty exactly when no record has a day. */
  predicate NothingUsable(xs: seq<Session>)
  {
    forall k :: 0 <= k < |xs| ==> !Usable(xs[k])
  }

  /** Groups records by course code, skipping records without a day. */
  method GroupByCode(input: seq<Session>) returns (g: Grouping)
    ensures g == Grouped(input)
  {
    var codes: seq<string> := [];
    var sessions: map<string, seq<Session>> := map[];
    for k := 0 to |input|
      invariant codes == CodesFirstSeen(input[..k])
      invariant forall c :: c in sessions <==> c in codes
      invariant forall c :: c in sessions ==> sessions[c] == SessionsOf(input[..k], c)
      invariant forall c :: c !in codes ==> SessionsOf(input[..k], c) == []
    {
      var s := input[k];
      assert input[..k + 1][..k] == input[..k];
      if s.day.None? {
        continue;
      }
      if s.code in sessions {
        sessions := sessions[s.code := sessions[s.code] + [s]];
      } else {
        codes := codes + [s.code];
        sessions := sessions[s.code := [s]];
      }
    }
    assert input[..|input|] == input;
    g := Grouping(codes, sessions);
  }

  /**
   * A code is a group key exactly when some usable record carries it, and no key occurs
   * twice.
   */
  lemma {:induction false} CodesFirstSeenMembers(xs: seq<Session>)
    ensures forall c :: c in CodesFirstSeen(xs) <==> exists k :: 0 <= k < |xs| && Usable(xs[k]) && xs[k].code == c
    ensures forall i, j :: 0 <= i < j < |CodesFirstSeen(xs)| ==> CodesFirstSeen(xs)[i] != CodesFirstSeen(xs)[j]
  {
    if xs != [] {
      var init := xs[..|xs| - 1];
      CodesFirstSeenMembers(init);
      forall c
        ensures c in CodesFirstSeen(xs) <==> exists k :: 0 <= k < |xs| && Usable(xs[k]) && xs[k].code == c
      {
        if c in CodesFirstSeen(init) {
          var k :| 0 <= k < |init| && Usable(init[k]) && init[k].code == c;
          assert xs[k] == init[k];
        }
        if exists k :: 0 <= k < |xs| && Usable(xs[k]) && xs[k].code == c {
          var k :| 0 <= k < |xs| && Usable(xs[k]) && xs[k].code == c;
          if k < |init| {
            assert init[k] == xs[k];
          }
        }
      }
    }
  }

  /**
   * A record lies in the group of `c` exactly when it is an input record with a day and code
   * `c`: every usable record lands in its code's group, and records without a day appear
   * nowhere.
   */
  lemma {:induction false} SessionsOfMembers(xs: seq<Session>, c: string, s: Session)
    ensures s in SessionsOf(xs, c) <==> s in xs && Usable(s) && s.code == c
  {
    if xs != [] {
      var init := xs[..|xs| - 1];
      SessionsOfMembers(init, c, s);
      assert xs == init + [xs[|xs| - 1]];
    }
  }

  /** The engine fails exactly when no record has a day. */
  lemma NoCodesIffNothingUsable(xs: seq<Session>)
    ensures CodesFirstSeen(xs) == [] <==> NothingUsable(xs)
  {
    CodesFirstSeenMembers(xs);
    if CodesFirstSeen(xs) != [] {
      assert CodesFirstSeen(xs)[0] in CodesFirstSeen(xs);
    }
    if !NothingUsable(xs) {
      var k :| 0 <= k < |xs| && Usable(xs[k]);
      assert xs[k].code in CodesFirstSeen(xs);
    }
  }

  /**
   * Keys are in first-seen order: wherever a usable record with the later key occurs, a
   * usable record with the earlier key occurs before it.
   */
  lemma {:induction false} CodesInFirstSeenOrder(xs: seq<Session>, i: nat, j: nat, p: nat)
    requires i < j < |CodesFirstSeen(xs)|
    requires p < |xs| && Usable(xs[p]) && xs[p].code == CodesFirstSeen(xs)[j]
    ensures exists q :: 0 <= q < p && Usable(xs[q]) && xs[q].code == CodesFirstSeen(xs)[i]
  {
    var init := xs[..|xs| - 1];
    var codes, earlier := CodesFirstSeen(xs), CodesFirstSeen(init);
    CodesFirstSeenMembers(init);
    assert codes[..|earlier|] == earlier;
    if p < |init| {
      assert init[p] == xs[p];
      if j < |earlier| {
        CodesInFirstSeenOrder(init, i, j, p);
        var q :| 0 <= q < p && Usable(init[q]) && init[q].code == earlier[i];
        assert xs[q] == init[q];
      }
    } else {
      assert codes[i] == earlier[i] && earlier[i] in earlier;
      var q :| 0 <= q < |init| && Usable(init[q]) && init[q].code == earlier[i];
      assert xs[q] == init[q];
    }
  }
}
