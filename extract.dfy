/** `extract_today_menu`: the case-insensitive, dot-matches-newline search
    for `TODAY(.*?)(MÅNDAG|TISDAG|ONSDAG|TORSDAG|FREDAG|$)`, written out as
    the scan the regular-expression engine performs, followed by
    `clean_lines` on the captured group. */
module Extract {
  import opened Options
  import opened Strings
  import Weekdays
  import Clean

  const NoLunchMessage := "Ingen lunch idag."
  const NoMenuMessage := "Ingen meny hittades."

  /** The alternatives of the stop group, in the order the pattern lists them. */
  const StopLabels: seq<string> := ["MÅNDAG", "TISDAG", "ONSDAG", "TORSDAG", "FREDAG"]

  /** Case folding for the case-insensitive match: ASCII letters and Å/å,
      which are all the letters the five labels use. */
  function Fold(c: char): char
  {
    if 'A' <= c <= 'Z' then (c as int + 32) as char
    else if c == 'Å' then 'å'
    else c
  }

  /** `word` matches `text` case-insensitively at index `i`. */
  predicate OccursAt(text: string, word: string, i: nat)
  {
    i + |word| <= |text| && forall k :: 0 <= k < |word| ==> Fold(text[i + k]) == Fold(word[k])
  }

  /** One of the five weekday labels starts at index `i`. */
  predicate LabelAt(text: string, i: nat)
  {
    exists j :: 0 <= j < |StopLabels| && OccursAt(text, StopLabels[j], i)
  }

  /** The stop group can match at `e`: a weekday label starts there, or `$`
      matches there, which without MULTILINE is the end of the text or just
      before a newline that is the text's last character. */
  predicate IsStop(text: string, e: nat)
  {
    || e == |text|
    || (e + 1 == |text| && text[e] == '\n')
    || LabelAt(text, e)
  }

  /** The leftmost index at or after `from` where `word` matches. */
  function FindWord(text: string, word: string, from: nat): (r: Option<nat>)
    requires from <= |text|
    ensures r.Some? ==> from <= r.value <= |text| && OccursAt(text, word, r.value)
    ensures forall i: nat :: from <= i && (r.None? || i < r.value) ==> !OccursAt(text, word, i)
    decreases |text| - from
  {
    if OccursAt(text, word, from) then Some(from)
    else if from == |text| then None
    else FindWord(text, word, from + 1)
  }

  /** The lazy `(.*?)` grows one character at a time until the stop group
      matches: the first stop position at or after `from`. */
  function StopAt(text: string, from: nat): (e: nat)
    requires from <= |text|
    ensures from <= e <= |text| && IsStop(text, e)
    ensures forall i: nat :: from <= i < e ==> !IsStop(text, i)
    decreases |text| - from
  {
    if IsStop(text, from) then from else StopAt(text, from + 1)
  }

  /** Where a successful search matched: today's label starts at `at`, and
      the captured group ends at `stop`. */
  datatype Hit = Hit(at: nat, stop: nat)

  /** `re.search`: the match starts at the leftmost occurrence of the label
      (the lazy group and the `$` alternative let every occurrence complete a
      match), and the group ends at the first stop after the label. */
  function Search(word: string, text: string): (r: Option<Hit>)
    ensures r.None? <==> forall i: nat :: !OccursAt(text, word, i)
    ensures r.Some? ==>
      && OccursAt(text, word, r.value.at)
      && (forall i: nat :: i < r.value.at ==> !OccursAt(text, word, i))
      && r.value.at + |word| <= r.value.stop <= |text|
      && IsStop(text, r.value.stop)
      && (forall i: nat :: r.value.at + |word| <= i < r.value.stop ==> !IsStop(text, i))
  {
    match FindWord(text, word, 0)
    case None => None
    case Some(p) => Some(Hit(p, StopAt(text, p + |word|)))
  }

  /** A match inside a slice is a match in the whole text that ends within
      the slice, and conversely. */
  lemma OccursInSlice(text: string, lo: nat, hi: nat, word: string, i: nat)
    requires lo <= hi <= |text|
    ensures OccursAt(text[lo..hi], word, i) <==> lo + i + |word| <= hi && OccursAt(text, word, lo + i)
  {
    if lo + i + |word| <= hi {
      forall k | 0 <= k < |word|
        ensures (Fold(text[lo..hi][i + k]) == Fold(word[k])) == (Fold(text[lo + i + k]) == Fold(word[k]))
      {
      }
    }
  }

  /** An exact copy of `word` is a case-insensitive match. */
  lemma OccursExactly(text: string, word: string, i: nat)
    requires InfixAt(text, word, i)
    ensures OccursAt(text, word, i)
  {
    forall k | 0 <= k < |word| ensures Fold(text[i + k]) == Fold(word[k]) {
      assert text[i..i + |word|][k] == word[k];
    }
  }

  /** A stretch of text in which no stop position lies contains none of the
      five labels. */
  lemma NoLabelBeforeStop(text: string, lo: nat, hi: nat)
    requires lo <= hi <= |text|
    requires forall i: nat :: lo <= i < hi ==> !IsStop(text, i)
    ensures forall j, i: nat :: 0 <= j < |StopLabels| ==> !OccursAt(text[lo..hi], StopLabels[j], i)
  {
    forall j, i: nat | 0 <= j < |StopLabels| ensures !OccursAt(text[lo..hi], StopLabels[j], i) {
      OccursInSlice(text, lo, hi, StopLabels[j], i);
      assert |StopLabels[j]| > 0;
      if lo + i < hi {
        assert !IsStop(text, lo + i);
      }
    }
  }

  /** `match.group(1)`: present exactly when the label occurs, and then free
      of every one of the five labels. */
  function Capture(word: string, text: string): (segment: Option<string>)
    ensures segment.None? <==> forall i: nat :: !OccursAt(text, word, i)
    ensures segment.Some? ==>
      forall j, i: nat :: 0 <= j < |StopLabels| ==> !OccursAt(segment.value, StopLabels[j], i)
  {
    match Search(word, text)
    case None => None
    case Some(h) =>
      NoLabelBeforeStop(text, h.at + |word|, h.stop);
      Some(text[h.at + |word|..h.stop])
  }

  /** `extract_today_menu(raw_text)` with the module-level `TODAY` passed as
      `today`: no label gives the no-lunch message, a label that does not
      occur gives the no-menu message, and the result never holds a newline. */
  function ExtractTodayMenu(today: Option<string>, rawText: string): (menu: string)
    ensures today.None? || today.value == [] ==> menu == NoLunchMessage
    ensures today.Some? && today.value != [] && (forall i: nat :: !OccursAt(rawText, today.value, i)) ==>
              menu == NoMenuMessage
    ensures '\n' !in menu
  {
    if today.None? || today.value == [] then NoLunchMessage
    else
      match Capture(today.value, rawText)
      case None => NoMenuMessage
      case Some(segment) => Clean.CleanLines(segment)
  }

  /** The search is determined by the leftmost occurrence `p` of the label
      and the first stop `e` after it. */
  lemma SearchAt(word: string, text: string, p: nat, e: nat)
    requires OccursAt(text, word, p)
    requires forall i: nat :: i < p ==> !OccursAt(text, word, i)
    requires p + |word| <= e <= |text| && IsStop(text, e)
    requires forall i: nat :: p + |word| <= i < e ==> !IsStop(text, i)
    ensures Search(word, text) == Some(Hit(p, e))
  {
    assert Search(word, text).Some?;
  }

  /** When the label occurs, the menu is the cleaned text that runs from just
      after its leftmost occurrence `p` to the first stop `e` after it. */
  lemma ExtractFound(word: string, text: string, p: nat, e: nat)
    requires word != []
    requires OccursAt(text, word, p)
    requires forall i: nat :: i < p ==> !OccursAt(text, word, i)
    requires p + |word| <= e <= |text| && IsStop(text, e)
    requires forall i: nat :: p + |word| <= i < e ==> !IsStop(text, i)
    ensures ExtractTodayMenu(Some(word), text) == Clean.CleanLines(text[p + |word|..e])
  {
    SearchAt(word, text, p, e);
    assert Capture(word, text) == Some(text[p + |word|..e]);
  }

  /** The pattern's alternatives are the values of the weekday table. */
  lemma StopLabelsAreWeekdays(i: int)
    requires 0 <= i < |StopLabels|
    ensures Weekdays.WeekdayLabel(i) == Some(StopLabels[i])
  {
  }

  /** On a weekend day the menu is the no-lunch message, whatever the text. */
  lemma WeekendHasNoLunch(index: int, rawText: string)
    requires !(0 <= index <= 4)
    ensures ExtractTodayMenu(Weekdays.WeekdayLabel(index), rawText) == NoLunchMessage
  {
  }

  /** On a weekday, an empty text gives the no-menu message. Empty text comes
      from an HTML page without visible text, from a landing page without a
      PDF link, or from a PDF where no page yields text. */
  lemma EmptyTextHasNoMenu(index: int)
    requires 0 <= index <= 4
    ensures ExtractTodayMenu(Weekdays.WeekdayLabel(index), "") == NoMenuMessage
  {
    Weekdays.LabelsDistinct(index, index);
  }

  /** A text in which none of the five labels occurs has no menu for any
      weekday. */
  lemma NoLabelsNoMenu(index: int, text: string)
    requires 0 <= index <= 4
    requires forall i: nat :: !LabelAt(text, i)
    ensures ExtractTodayMenu(Weekdays.WeekdayLabel(index), text) == NoMenuMessage
  {
    StopLabelsAreWeekdays(index);
    forall i: nat ensures !OccursAt(text, StopLabels[index], i) {
      assert !LabelAt(text, i);
    }
  }

  /** In the worked case below, no stop lies between the end of "TISDAG"
      and the start of "ONSDAG". */
  lemma TuesdayNoStop(text: string, i: nat)
    requires text == "TISDAG: Fish. ONSDAG: Soup."
    requires 6 <= i < 14
    ensures !IsStop(text, i)
  {
    forall j | 0 <= j < |StopLabels| ensures !OccursAt(text, StopLabels[j], i) {
      if Fold(text[i]) == Fold(StopLabels[j][0]) {
        assert Fold(text[i + 1]) != Fold(StopLabels[j][1]);
      }
    }
  }

  /** In the worked case below, the captured group is the text between
      "TISDAG" and "ONSDAG". */
  lemma TuesdayCapture(text: string, word: string)
    requires text == "TISDAG: Fish. ONSDAG: Soup." && word == "TISDAG"
    ensures Capture(word, text) == Some(": Fish. ")
  {
    assert text[0..6] == word;
    OccursExactly(text, word, 0);
    assert text[14..20] == StopLabels[2];
    OccursExactly(text, StopLabels[2], 14);
    assert LabelAt(text, 14);
    forall i: nat | 6 <= i < 14 ensures !IsStop(text, i) {
      TuesdayNoStop(text, i);
    }
    SearchAt(word, text, 0, 14);
    assert text[6..14] == ": Fish. ";
  }

  /** A worked case: on Tuesday, "TISDAG: Fish. ONSDAG: Soup." yields
      ": Fish." — the group starts right after the label, so the colon and
      the space after it are part of the menu, and it stops at "ONSDAG". */
  lemma TuesdayExample(text: string, word: string)
    requires text == "TISDAG: Fish. ONSDAG: Soup." && word == "TISDAG"
    ensures ExtractTodayMenu(Some(word), text) == ": Fish."
  {
    TuesdayCapture(text, word);
    CleanFish(": Fish. ");
  }

  lemma CleanFish(segment: string)
    requires segment == ": Fish. "
    ensures Clean.CleanLines(segment) == ": Fish."
  {
    SplitLinesSingle(segment);
    assert LeadingSpace(segment) == 0;
    assert TrailingSpace(segment) == 1 by {
      assert segment[..|segment| - 1] == ": Fish.";
    }
    assert segment[0..][..|segment| - 1] == ": Fish.";
    Clean.KeptLine(segment);
  }
}
