/** The day resolver: the fixed table from Python's weekday index
    (Monday is 0) to the Swedish upper-case label of that weekday, and the
    lookup `WEEKDAYS.get(index, None)` that gives no label on weekends. */
module Weekdays {
  import opened Options

  const Table: map<int, string> :=
    map[0 := "MÅNDAG", 1 := "TISDAG", 2 := "ONSDAG", 3 := "TORSDAG", 4 := "FREDAG"]

  /** The label of the day with the given index, or no label. The clock
      reading `datetime.now().weekday()` is the caller's argument. */
  function WeekdayLabel(index: int): (day: Option<string>)
    ensures day.Some? <==> 0 <= index <= 4
    ensures index == 0 ==> day == Some("MÅNDAG")
    ensures index == 1 ==> day == Some("TISDAG")
    ensures index == 2 ==> day == Some("ONSDAG")
    ensures index == 3 ==> day == Some("TORSDAG")
    ensures index == 4 ==> day == Some("FREDAG")
  {
    if index in Table then Some(Table[index]) else None
  }

  /** Different weekdays get different labels, and every label is a
      non-empty word. */
  lemma LabelsDistinct(i: int, j: int)
    requires WeekdayLabel(i).Some? && WeekdayLabel(i) == WeekdayLabel(j)
    ensures i == j
    ensures WeekdayLabel(i).value != []
  {
  }
}
