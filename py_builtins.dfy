/**
 * The few pieces of Python's built-in string behaviour that the modelled code relies on:
 * `str.isspace`, `str.strip()`, `str.split(sep)` with a one-character separator, and
 * `int(str)` for base-10 text.
 */
module PyBuiltins {
  import opened Wrappers

  /**
   * A Python value as far as the modelled code distinguishes it: an `int` (a `bool` counts
   * as the int 0 or 1), a `str`, `None`, or anything else.
   */
  datatype PyValue = PyInt(i: int) | PyStr(s: string) | PyNone | PyOther

  /** The characters for which Python's `str.isspace()` holds. */
  predicate IsSpace(c: char)
  {
    || c == ' ' || c == '\t' || c == '\n' || c == '\r'
    || c == '\U{000B}' || c == '\U{000C}'
    || ('\U{001C}' <= c <= '\U{001F}')
    || c == '\U{0085}' || c == '\U{00A0}' || c == '\U{1680}'
    || ('\U{2000}' <= c <= '\U{200A}')
    || c == '\U{2028}' || c == '\U{2029}' || c == '\U{202F}' || c == '\U{205F}' || c == '\U{3000}'
  }

  function TrimLeft(s: string): (t: string)
    ensures |t| <= |s|
    ensures t == [] || !IsSpace(t[0])
  {
    if s != [] && IsSpace(s[0]) then TrimLeft(s[1..]) else s
  }

  function TrimRight(s: string): (t: string)
    ensures |t| <= |s|
    ensures t == [] || !IsSpace(t[|t| - 1])
  {
    if s != [] && IsSpace(s[|s| - 1]) then TrimRight(s[..|s| - 1]) else s
  }

  /** A string with no leading and no trailing whitespace. */
  predicate IsStripped(s: string)
  {
    s == [] || (!IsSpace(s[0]) && !IsSpace(s[|s| - 1]))
  }

  /** Python's `s.strip()`: a slice of `s` with the surrounding whitespace removed. */
  function Strip(s: string): (t: string)
    ensures IsStripped(t)
  {
    StripStripped(s);
    TrimRight(TrimLeft(s))
  }

  /** `lstrip` keeps a suffix of its input and removes only whitespace. */
  lemma {:induction false} TrimLeftIsSuffix(s: string)
    ensures TrimLeft(s) == s[|s| - |TrimLeft(s)|..]
    ensures forall k :: 0 <= k < |s| - |TrimLeft(s)| ==> IsSpace(s[k])
  {
    if s != [] && IsSpace(s[0]) {
      var rest := s[1..];
      TrimLeftIsSuffix(rest);
      forall k | 1 <= k < |s| - |TrimLeft(s)|
        ensures IsSpace(s[k])
      {
        assert s[k] == rest[k - 1];
      }
    }
  }

  /** `rstrip` keeps a prefix of its input and removes only whitespace. */
  lemma {:induction false} TrimRightIsPrefix(s: string)
    ensures TrimRight(s) == s[..|TrimRight(s)|]
    ensures forall k :: |TrimRight(s)| <= k < |s| ==> IsSpace(s[k])
  {
    if s != [] && IsSpace(s[|s| - 1]) {
      var rest := s[..|s| - 1];
      TrimRightIsPrefix(rest);
      forall k | |TrimRight(s)| <= k < |s| - 1
        ensures IsSpace(s[k])
      {
        assert s[k] == rest[k];
      }
    }
  }

  lemma {:induction false} TrimRightKeepsFront(s: string)
    requires s != [] && !IsSpace(s[0])
    ensures TrimRight(s) != [] && TrimRight(s)[0] == s[0]
  {
    if IsSpace(s[|s| - 1]) {
      assert |s| > 1;
      TrimRightKeepsFront(s[..|s| - 1]);
    }
  }

  lemma StripStripped(s: string)
    ensures IsStripped(TrimRight(TrimLeft(s)))
  {
    var l := TrimLeft(s);
    if l != [] {
      TrimRightKeepsFront(l);
    }
  }

  /**
   * `strip` keeps a slice of its input and removes only whitespace around it; with
   * `IsStripped` this determines the result.
   */
  lemma StripIsSlice(s: string)
    ensures exists i, j ::
      (&& 0 <= i <= j <= |s| && Strip(s) == s[i..j]
       && (forall k :: 0 <= k < i ==> IsSpace(s[k]))
       && (forall k :: j <= k < |s| ==> IsSpace(s[k])))
  {
    var l := TrimLeft(s);
    TrimLeftIsSuffix(s);
    TrimRightIsPrefix(l);
    var i := |s| - |l|;
    var t := TrimRight(l);
    PrefixOfSuffix(s, i, l, t);
    assert Strip(s) == t;
  }

  lemma PrefixOfSuffix(s: string, i: nat, l: string, t: string)
    requires i <= |s| && l == s[i..] && |t| <= |l| && t == l[..|t|]
    requires forall k :: |t| <= k < |l| ==> IsSpace(l[k])
    ensures t == s[i..i + |t|]
    ensures forall k :: i + |t| <= k < |s| ==> IsSpace(s[k])
  {
    forall k | i + |t| <= k < |s|
      ensures IsSpace(s[k])
    {
      assert s[k] == l[k - i];
    }
  }

  lemma TrimLeftStripped(x: string)
    requires IsStripped(x)
    ensures TrimLeft(x) == x
  {
  }

  lemma TrimRightStripped(x: string)
    requires IsStripped(x)
    ensures TrimRight(x) == x
  {
  }

  /** Stripping an already stripped string after adding one space on either side gives it back. */
  lemma StripPadded(x: string)
    requires IsStripped(x)
    ensures Strip(x + " ") == x
    ensures Strip(" " + x) == x
  {
    if x == [] {
      assert TrimLeft(" ") == TrimLeft([]);
      assert x + " " == " " == " " + x;
    } else {
      assert (x + " ")[..|x + " "| - 1] == x;
      assert TrimRight(x + " ") == TrimRight(x);
      TrimRightStripped(x);
      TrimLeftStripped(x);
      assert (" " + x)[1..] == x;
      assert TrimLeft(" " + x) == TrimLeft(x);
    }
  }

  /** Number of occurrences of `c` in `s`. */
  function Count(s: string, c: char): nat
  {
    multiset(s)[c]
  }

  /**
   * Python's `s.split(sep)` for a one-character separator: the pieces between consecutive
   * separators, always at least one (the empty string splits into `[""]`).
   */
  function Split(s: string, sep: char): (parts: seq<string>)
    ensures |parts| == Count(s, sep) + 1
    ensures forall k :: 0 <= k < |parts| ==> sep !in parts[k]
  {
    if s == [] then [[]]
    else
      var rest := Split(s[1..], sep);
      assert s == [s[0]] + s[1..];
      if s[0] == sep then [[]] + rest
      else [[s[0]] + rest[0]] + rest[1..]
  }

  /** Python's `sep.join(parts)`. */
  function Join(parts: seq<string>, sep: char): string
  {
    if |parts| <= 1 then (if parts == [] then [] else parts[0])
    else parts[0] + [sep] + Join(parts[1..], sep)
  }

  /** Splitting and joining again gives the original string back. */
  lemma {:induction false} JoinSplit(s: string, sep: char)
    ensures Join(Split(s, sep), sep) == s
  {
    if s != [] {
      JoinSplit(s[1..], sep);
      var rest := Split(s[1..], sep);
      if s[0] == sep {
        assert Split(s, sep)[1..] == rest;
      } else {
        var parts := Split(s, sep);
        if |rest| == 1 {
          assert parts == [[s[0]] + rest[0]];
        } else {
          assert parts[1..] == rest[1..];
          assert Join(rest, sep) == rest[0] + [sep] + Join(rest[1..], sep);
        }
      }
    }
  }

  lemma {:induction false} SplitWithout(a: string, sep: char)
    requires sep !in a
    ensures Split(a, sep) == [a]
  {
    if a != [] {
      SplitWithout(a[1..], sep);
      assert [a[0]] + a[1..] == a;
    }
  }

  /** The first separator ends the first piece. */
  lemma {:induction false} SplitAtFirst(a: string, sep: char, b: string)
    requires sep !in a
    ensures Split(a + [sep] + b, sep) == [a] + Split(b, sep)
  {
    if a == [] {
      assert (a + [sep] + b)[1..] == b;
    } else {
      var s := a + [sep] + b;
      assert s[1..] == a[1..] + [sep] + b;
      SplitAtFirst(a[1..], sep, b);
      assert [a[0]] + a[1..] == a;
    }
  }

  /** A string with exactly one separator splits into the two pieces around it. */
  lemma SplitTwo(a: string, sep: char, b: string)
    requires sep !in a && sep !in b
    ensures Split(a + [sep] + b, sep) == [a, b]
  {
    SplitAtFirst(a, sep, b);
    SplitWithout(b, sep);
  }

  /** Splitting into exactly two pieces happens exactly when the string is `a + sep + b`. */
  lemma SplitPair(s: string, sep: char)
    requires |Split(s, sep)| == 2
    ensures s == Split(s, sep)[0] + [sep] + Split(s, sep)[1]
  {
    JoinSplit(s, sep);
    var parts := Split(s, sep);
    assert parts[1..] == [parts[1]];
  }

  function DigitValue(c: char): nat
    requires '0' <= c <= '9'
  {
    (c as int) - ('0' as int)
  }

  function DigitChar(d: nat): (c: char)
    requires d < 10
    ensures '0' <= c <= '9' && DigitValue(c) == d
  {
    (('0' as int) + d) as char
  }

  /**
   * The digit body accepted by `int()`: ASCII digits, with single underscores allowed
   * between two digits.
   */
  predicate IsDigitBody(s: string)
  {
    && |s| > 0
    && '0' <= s[0] <= '9' && '0' <= s[|s| - 1] <= '9'
    && (forall k :: 0 <= k < |s| ==> ('0' <= s[k] <= '9' || s[k] == '_'))
    && (forall i, j :: 0 <= i < |s| && 0 <= j < |s| && j == i + 1 ==> !(s[i] == '_' && s[j] == '_'))
  }

  /** The value of a digit body, underscores ignored. */
  function DigitsValue(s: string): nat
    requires forall k :: 0 <= k < |s| ==> ('0' <= s[k] <= '9' || s[k] == '_')
  {
    if s == [] then 0
    else if s[|s| - 1] == '_' then DigitsValue(s[..|s| - 1])
    else 10 * DigitsValue(s[..|s| - 1]) + DigitValue(s[|s| - 1])
  }

  /**
   * Python's `int(s)` for base 10: surrounding whitespace stripped, one optional sign,
   * then a digit body. `None` stands for the `ValueError` it raises otherwise.
   */
  function ParseInt(s: string): Option<int>
  {
    var t := Strip(s);
    if |t| > 0 && (t[0] == '+' || t[0] == '-') then
      var body := t[1..];
      if IsDigitBody(body) then
        Some(if t[0] == '-' then -(DigitsValue(body) as int) else DigitsValue(body))
      else None
    else if IsDigitBody(t) then Some(DigitsValue(t))
    else None
  }
}
