/** The few Python string built-ins that build.py relies on, stated over
    `string` (a sequence of Unicode code points, as a Python `str` is):
    `str.isspace` on one character, `str.strip()`, `str.split("\n")`,
    `sep.join(parts)` and the substring test `w in s`. */
module Strings {

  /** The characters Python's `str.isspace` accepts, and hence the ones that
      `str.strip()` with no argument removes. */
  predicate IsSpace(c: char)
    ensures IsSpace(c) ==> !('!' <= c <= '~')
    ensures c == ' ' || c == '\t' || c == '\n' || c == '\r' ==> IsSpace(c)
  {
    var n := c as int;
    || (0x09 <= n <= 0x0D)
    || (0x1C <= n <= 0x20)
    || n == 0x85 || n == 0xA0 || n == 0x1680
    || (0x2000 <= n <= 0x200A)
    || n == 0x2028 || n == 0x2029 || n == 0x202F || n == 0x205F || n == 0x3000
  }

  predicate AllSpace(s: string)
  {
    forall k :: 0 <= k < |s| ==> IsSpace(s[k])
  }

  /** No whitespace at either end: what `s.strip()` leaves unchanged. */
  predicate IsStripped(s: string)
  {
    s == [] || (!IsSpace(s[0]) && !IsSpace(s[|s| - 1]))
  }

  /** How many whitespace characters `s` starts with: what `s.lstrip()`
      drops. */
  function LeadingSpace(s: string): (n: nat)
    ensures n <= |s|
    ensures forall k :: 0 <= k < n ==> IsSpace(s[k])
    ensures n == |s| || !IsSpace(s[n])
  {
    if |s| > 0 && IsSpace(s[0]) then
      var n := 1 + LeadingSpace(s[1..]);
      assert forall k :: 1 <= k < n ==> s[k] == s[1..][k - 1];
      n
    else 0
  }

  /** How many whitespace characters `s` ends with: what `s.rstrip()` drops. */
  function TrailingSpace(s: string): (n: nat)
    ensures n <= |s|
    ensures forall k :: |s| - n <= k < |s| ==> IsSpace(s[k])
    ensures n == |s| || !IsSpace(s[|s| - 1 - n])
  {
    if |s| > 0 && IsSpace(s[|s| - 1]) then
      var n := 1 + TrailingSpace(s[..|s| - 1]);
      assert forall k :: |s| - n <= k < |s| - 1 ==> s[k] == s[..|s| - 1][k];
      n
    else 0
  }

  /** `s.strip()`: the leading whitespace and then the trailing whitespace
      are cut off. */
  function Strip(s: string): (r: string)
    ensures IsStripped(r)
    ensures |r| <= |s|
  {
    var t := s[LeadingSpace(s)..];
    var r := t[..|t| - TrailingSpace(t)];
    assert r != [] ==> r[0] == t[0];
    r
  }

  /** The stripped string is the middle of `s`, and only whitespace lies on
      either side of it. */
  lemma StripInfix(s: string)
    ensures var n, r := LeadingSpace(s), Strip(s);
      && n + |r| <= |s|
      && r == s[n..n + |r|]
      && (forall k :: 0 <= k < n ==> IsSpace(s[k]))
      && (forall k :: n + |r| <= k < |s| ==> IsSpace(s[k]))
  {
    var n := LeadingSpace(s);
    DropThenCut(s, n, TrailingSpace(s[n..]));
  }

  /** Cutting `m` characters off the end of `s[n..]` is slicing `s`, and
      whitespace at the end of `s[n..]` is whitespace at the end of `s`. */
  lemma DropThenCut(s: string, n: nat, m: nat)
    requires n + m <= |s|
    requires forall k :: |s| - n - m <= k < |s| - n ==> IsSpace(s[n..][k])
    ensures s[n..][..|s| - n - m] == s[n..|s| - m]
    ensures forall k :: |s| - m <= k < |s| ==> IsSpace(s[k])
  {
    forall k | |s| - m <= k < |s| ensures IsSpace(s[k]) {
      assert s[k] == s[n..][k - n];
    }
  }

  /** A string strips to nothing exactly when it is all whitespace. */
  lemma StripEmptyIff(s: string)
    ensures Strip(s) == [] <==> AllSpace(s)
  {
    StripInfix(s);
    if !AllSpace(s) {
      var k :| 0 <= k < |s| && !IsSpace(s[k]);
      assert LeadingSpace(s) <= k;
    }
  }

  /** `s.strip()` leaves a stripped string alone, so stripping is idempotent. */
  lemma StripOfStripped(s: string)
    requires IsStripped(s)
    ensures Strip(s) == s
  {
    assert LeadingSpace(s) == 0;
    assert s[0..] == s;
    assert TrailingSpace(s) == 0;
  }

  /** Every character of `s.strip()` is a character of `s`. */
  lemma StripExcludes(s: string, c: char)
    ensures c !in s ==> c !in Strip(s)
  {
    StripInfix(s);
    var n := LeadingSpace(s);
    forall k | 0 <= k < |Strip(s)| ensures Strip(s)[k] == s[n + k] {
    }
  }

  /** The summed lengths of the parts. */
  function TotalLength(parts: seq<string>): nat
  {
    if parts == [] then 0 else |parts[0]| + TotalLength(parts[1..])
  }

  /** Python's `sep.join(parts)`: the parts in order, with one separator
      between each two neighbours and none at either end. */
  function Join(parts: seq<string>, sep: string): string
  {
    if |parts| == 0 then ""
    else if |parts| == 1 then parts[0]
    else parts[0] + sep + Join(parts[1..], sep)
  }

  /** The joined string holds every character of the parts and one
      separator per gap between neighbours. */
  lemma {:induction false} JoinLength(parts: seq<string>, sep: string)
    ensures |parts| == 0 ==> Join(parts, sep) == ""
    ensures |parts| > 0 ==> |Join(parts, sep)| == TotalLength(parts) + (|parts| - 1) * |sep|
  {
    if |parts| > 1 {
      JoinLength(parts[1..], sep);
      assert (|parts| - 1) * |sep| == (|parts| - 2) * |sep| + |sep|;
    }
  }

  lemma {:induction false} JoinAppend(x: seq<string>, y: seq<string>, sep: string)
    requires |x| > 0 && |y| > 0
    ensures Join(x + y, sep) == Join(x, sep) + sep + Join(y, sep)
  {
    if |x| == 1 {
      assert (x + y)[1..] == y;
    } else {
      assert (x + y)[1..] == x[1..] + y;
      JoinAppend(x[1..], y, sep);
    }
  }

  /** A character found neither in the parts nor in the separator is not in
      the joined string. */
  lemma {:induction false} JoinExcludes(parts: seq<string>, sep: string, c: char)
    requires forall k :: 0 <= k < |parts| ==> c !in parts[k]
    requires c !in sep
    ensures c !in Join(parts, sep)
  {
    if |parts| > 1 {
      JoinExcludes(parts[1..], sep, c);
    }
  }

  /** Joining non-empty parts gives the empty string only for no parts. */
  lemma JoinEmptyIff(parts: seq<string>, sep: string)
    requires forall k :: 0 <= k < |parts| ==> parts[k] != []
    ensures Join(parts, sep) == [] <==> parts == []
  {
    if |parts| > 1 {
      assert Join(parts, sep)[0] == parts[0][0];
    }
  }

  /** Non-empty stripped parts joined by a separator give a stripped string. */
  lemma {:induction false} JoinStripped(parts: seq<string>, sep: string)
    requires forall k :: 0 <= k < |parts| ==> parts[k] != [] && IsStripped(parts[k])
    ensures IsStripped(Join(parts, sep))
  {
    if |parts| > 1 {
      JoinStripped(parts[1..], sep);
      JoinEmptyIff(parts[1..], sep);
      var j := Join(parts, sep);
      var rest := Join(parts[1..], sep);
      assert j[0] == parts[0][0];
      assert j[|j| - 1] == rest[|rest| - 1];
    }
  }

  /** Python's `s.split("\n")`: always at least one line, no line holds a
      newline, and joining the lines back with "\n" gives `s` again. */
  function SplitLines(s: string): (lines: seq<string>)
    ensures |lines| >= 1
    ensures forall k :: 0 <= k < |lines| ==> '\n' !in lines[k]
    ensures Join(lines, "\n") == s
  {
    if |s| == 0 then [""]
    else
      var rest := SplitLines(s[1..]);
      if s[0] == '\n' then
        assert ([""] + rest)[1..] == rest;
        [""] + rest
      else
        var lines := [[s[0]] + rest[0]] + rest[1..];
        assert |rest| > 1 ==> lines[1..] == rest[1..];
        assert '\n' !in [s[0]] + rest[0];
        lines
  }

  /** A string without a newline is a single line. */
  lemma {:induction false} SplitLinesSingle(s: string)
    requires '\n' !in s
    ensures SplitLines(s) == [s]
  {
    if |s| > 0 {
      SplitLinesSingle(s[1..]);
    }
  }

  /** Splitting distributes over a newline: the lines of `a + "\n" + b` are
      the lines of `a` followed by the lines of `b`. */
  lemma {:induction false} SplitLinesAppend(a: string, b: string)
    ensures SplitLines(a + "\n" + b) == SplitLines(a) + SplitLines(b)
  {
    var s := a + "\n" + b;
    if |a| == 0 {
      assert s == "\n" + b;
      assert s[1..] == b;
    } else {
      assert s[0] == a[0];
      assert s[1..] == a[1..] + "\n" + b;
      SplitLinesAppend(a[1..], b);
    }
  }

  /** The converse round trip: newline-free lines joined by "\n" split back
      into the same lines. */
  lemma {:induction false} SplitJoinLines(lines: seq<string>)
    requires |lines| >= 1
    requires forall k :: 0 <= k < |lines| ==> '\n' !in lines[k]
    ensures SplitLines(Join(lines, "\n")) == lines
  {
    if |lines| == 1 {
      SplitLinesSingle(lines[0]);
    } else {
      SplitJoinLines(lines[1..]);
      SplitLinesAppend(lines[0], Join(lines[1..], "\n"));
      SplitLinesSingle(lines[0]);
      assert [lines[0]] + lines[1..] == lines;
    }
  }

  /** `w` occurs in `s` starting at index `i`. */
  predicate InfixAt(s: string, w: string, i: int)
  {
    0 <= i && i + |w| <= |s| && s[i..i + |w|] == w
  }

  /** The middle part of a concatenation occurs where the first part ends. */
  lemma InfixOfConcat(a: string, w: string, b: string)
    ensures InfixAt(a + w + b, w, |a|)
  {
    assert (a + w + b)[|a|..|a| + |w|] == w;
  }

  /** An occurrence stays where it is when more text is appended. */
  lemma InfixExtend(a: string, b: string, w: string, i: int)
    requires InfixAt(a, w, i)
    ensures InfixAt(a + b, w, i)
  {
    assert (a + b)[i..i + |w|] == a[i..i + |w|];
  }

  /** Python's substring test `w in s`. */
  predicate Contains(s: string, w: string)
  {
    exists i | 0 <= i <= |s| :: InfixAt(s, w, i)
  }
}
