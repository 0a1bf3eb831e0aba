/** The string helpers of utils/helper.py. */
module Helper {
  import opened Wrappers
  import opened PyBuiltins

  /** The weekday names, indexed 0 (Monday) to 4 (Friday). */
  const Weekdays: seq<string> := ["Monday", "Tuesday", "Wednesday", "Thursday", "Friday"]

  /**
   * `show_date`: plain list indexing into the weekday names. Python indexing accepts
   * -5..-1 (counting from the end); any other int raises IndexError, and a non-int raises
   * TypeError; both are caught and give `None`.
   */
  function ShowDate(day: PyValue): Option<string>
  {
    match day
    case PyInt(d) =>
      if -|Weekdays| <= d < |Weekdays| then Some(Weekdays[if d < 0 then d + |Weekdays| else d])
      else None
    case _ => None
  }

  /**
   * `show_date` names exactly the indices -5..4; 0..4 are Monday..Friday in order, and a
   * negative index names the same day as the index five above it.
   */
  lemma ShowDateRange(d: int)
    ensures ShowDate(PyInt(d)).Some? <==> -5 <= d < 5
    ensures 0 <= d < 5 ==> ShowDate(PyInt(d)) == Some(Weekdays[d])
    ensures -5 <= d < 0 ==> ShowDate(PyInt(d)) == ShowDate(PyInt(d + 5))
  {
  }

  /** No value other than an int has a day name. */
  lemma ShowDateNonInt(v: PyValue)
    requires !v.PyInt?
    ensures ShowDate(v) == None
  {
  }

  /**
   * `format_time`: a string that splits on '-' into exactly two pieces becomes the stripped
   * pieces joined by " - "; for any other string the tuple unpacking raises, and the input
   * is returned unchanged.
   */
  function FormatTime(s: string): string
  {
    var parts := Split(s, '-');
    if |parts| == 2 then Strip(parts[0]) + " - " + Strip(parts[1]) else s
  }

  /** A string with exactly one '-' is reformatted around that dash. */
  lemma FormatTimeOneDash(a: string, b: string)
    requires '-' !in a && '-' !in b
    ensures FormatTime(a + "-" + b) == Strip(a) + " - " + Strip(b)
  {
    SplitTwo(a, '-', b);
  }

  /** A string with no '-' or with two or more is returned as it is. */
  lemma FormatTimeUnchanged(s: string)
    requires Count(s, '-') != 1
    ensures FormatTime(s) == s
  {
  }

  lemma StripWithout(s: string, c: char)
    requires c !in s
    ensures c !in Strip(s)
  {
    StripIsSlice(s);
    var i, j :| 0 <= i <= j <= |s| && Strip(s) == s[i..j];
    forall k | 0 <= k < j - i
      ensures Strip(s)[k] != c
    {
      assert Strip(s)[k] == s[i + k];
    }
  }

  /** Formatting an already formatted time changes nothing. */
  lemma FormatTimeIdempotent(s: string)
    ensures FormatTime(FormatTime(s)) == FormatTime(s)
  {
    var parts := Split(s, '-');
    if |parts| == 2 {
      var l, r := Strip(parts[0]), Strip(parts[1]);
      StripWithout(parts[0], '-');
      StripWithout(parts[1], '-');
      assert FormatTime(s) == (l + " ") + "-" + (" " + r);
      SplitTwo(l + " ", '-', " " + r);
      StripPadded(l);
      StripPadded(r);
    }
  }
}
