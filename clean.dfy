/** `clean_lines`: split the text into lines, strip every line, drop the
    lines that strip to nothing, and join what is left with "<br>". */
module Clean {
  import opened Strings

  const LineBreak := "<br>"

  /** What one line contributes to the comprehension below: its stripped
      form, unless that is empty. */
  function Kept(line: string): (kept: seq<string>)
    ensures kept == [] <==> AllSpace(line)
    ensures forall k :: 0 <= k < |kept| ==> kept[k] != [] && IsStripped(kept[k])
    ensures '\n' !in line ==> forall k :: 0 <= k < |kept| ==> '\n' !in kept[k]
  {
    var t := Strip(line);
    StripEmptyIff(line);
    StripExcludes(line, '\n');
    if t == [] then [] else [t]
  }

  /** The list comprehension `[line.strip() for line in lines if line.strip()]`. */
  function KeptLines(lines: seq<string>): (kept: seq<string>)
    ensures |kept| <= |lines|
  {
    if lines == [] then [] else Kept(lines[0]) + KeptLines(lines[1..])
  }

  /** Every kept line is a non-empty stripped line, and there are no more
      kept lines than lines. */
  lemma {:induction false} KeptLinesStripped(lines: seq<string>)
    ensures |KeptLines(lines)| <= |lines|
    ensures forall k :: 0 <= k < |KeptLines(lines)| ==>
              KeptLines(lines)[k] != [] && IsStripped(KeptLines(lines)[k])
  {
    if lines != [] {
      KeptLinesStripped(lines[1..]);
      var head, tail := Kept(lines[0]), KeptLines(lines[1..]);
      assert forall k :: 0 <= k < |tail| ==> (head + tail)[|head| + k] == tail[k];
    }
  }

  /** Lines without newlines are kept without newlines. */
  lemma {:induction false} KeptLinesNoNewline(lines: seq<string>)
    requires forall k :: 0 <= k < |lines| ==> '\n' !in lines[k]
    ensures forall k :: 0 <= k < |KeptLines(lines)| ==> '\n' !in KeptLines(lines)[k]
  {
    if lines != [] {
      KeptLinesNoNewline(lines[1..]);
      var head, tail := Kept(lines[0]), KeptLines(lines[1..]);
      assert forall k :: 0 <= k < |tail| ==> (head + tail)[|head| + k] == tail[k];
    }
  }

  /** Nothing is kept exactly when every line is blank. */
  lemma {:induction false} KeptLinesEmptyIff(lines: seq<string>)
    ensures KeptLines(lines) == [] <==> forall k :: 0 <= k < |lines| ==> AllSpace(lines[k])
  {
    if lines != [] {
      KeptLinesEmptyIff(lines[1..]);
      assert forall k :: 1 <= k < |lines| ==> lines[1..][k - 1] == lines[k];
    }
  }

  /** Keeping lines distributes over concatenation: the kept lines of the
      first part come first, in their order, then those of the second. */
  lemma {:induction false} KeptLinesAppend(a: seq<string>, b: seq<string>)
    ensures KeptLines(a + b) == KeptLines(a) + KeptLines(b)
  {
    if a == [] {
      assert a + b == b;
    } else {
      assert (a + b)[0] == a[0];
      assert (a + b)[1..] == a[1..] + b;
      KeptLinesAppend(a[1..], b);
    }
  }

  /** A single line is kept, stripped, exactly when it is not blank. */
  lemma KeptLine(line: string)
    ensures KeptLines([line]) == if AllSpace(line) then [] else [Strip(line)]
  {
    StripEmptyIff(line);
    assert [line][1..] == [];
    assert KeptLines([line]) == Kept(line) + [];
  }

  /** A text is all whitespace exactly when every one of its lines is. */
  lemma {:induction false} AllSpaceLines(lines: seq<string>)
    requires |lines| >= 1
    ensures AllSpace(Join(lines, "\n")) <==> forall k :: 0 <= k < |lines| ==> AllSpace(lines[k])
  {
    if |lines| > 1 {
      AllSpaceLines(lines[1..]);
      var j := Join(lines, "\n");
      var rest := Join(lines[1..], "\n");
      assert j == lines[0] + "\n" + rest;
      if AllSpace(j) {
        forall k | 0 <= k < |rest| ensures IsSpace(rest[k]) {
          assert rest[k] == j[|lines[0]| + 1 + k];
        }
        forall k | 0 <= k < |lines[0]| ensures IsSpace(lines[0][k]) {
          assert lines[0][k] == j[k];
        }
      }
    }
  }

  /** `clean_lines(text)`: the result holds no newline, has no whitespace at
      either end, and is empty exactly when the text is all whitespace. */
  function CleanLines(text: string): (r: string)
    ensures '\n' !in r
    ensures IsStripped(r)
    ensures r == [] <==> AllSpace(text)
  {
    var lines := SplitLines(text);
    var kept := KeptLines(lines);
    KeptLinesStripped(lines);
    KeptLinesNoNewline(lines);
    KeptLinesEmptyIff(lines);
    JoinExcludes(kept, LineBreak, '\n');
    JoinStripped(kept, LineBreak);
    JoinEmptyIff(kept, LineBreak);
    AllSpaceLines(lines);
    Join(kept, LineBreak)
  }

  /** Cleaning is idempotent. */
  lemma CleanLinesIdempotent(text: string)
    ensures CleanLines(CleanLines(text)) == CleanLines(text)
  {
    var r := CleanLines(text);
    SplitLinesSingle(r);
    StripOfStripped(r);
    KeptLine(r);
    StripEmptyIff(r);
  }

  /** Two pieces of text joined by "<br>", leaving out an empty one. */
  function Glue(x: string, y: string): string
  {
    if x == [] then y else if y == [] then x else x + LineBreak + y
  }

  /** Joining two lists of non-empty pieces with "<br>" glues their joins. */
  lemma JoinGlue(x: seq<string>, y: seq<string>)
    requires forall k :: 0 <= k < |x| ==> x[k] != []
    requires forall k :: 0 <= k < |y| ==> y[k] != []
    ensures Join(x + y, LineBreak) == Glue(Join(x, LineBreak), Join(y, LineBreak))
  {
    JoinEmptyIff(x, LineBreak);
    JoinEmptyIff(y, LineBreak);
    if x == [] {
      assert x + y == y;
    } else if y == [] {
      assert x + y == x;
    } else {
      JoinAppend(x, y, LineBreak);
    }
  }

  /** Cleaning keeps the order of the lines: cleaning `a + "\n" + b` gives
      the cleaned `a` followed by the cleaned `b`. */
  lemma CleanLinesAppend(a: string, b: string)
    ensures CleanLines(a + "\n" + b) == Glue(CleanLines(a), CleanLines(b))
  {
    var la, lb := SplitLines(a), SplitLines(b);
    SplitLinesAppend(a, b);
    KeptLinesAppend(la, lb);
    KeptLinesStripped(la);
    KeptLinesStripped(lb);
    JoinGlue(KeptLines(la), KeptLines(lb));
  }
}
