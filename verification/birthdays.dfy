/** `get_upcoming_birthdays` and `find_next_weekday`: which contacts have a
    birthday within the next week, and the weekday on which to congratulate
    them. The clock reading `datetime.today()` is the parameter `today`. */
module Birthdays {
  import opened Wrappers
  import opened Calendar
  import DateFormat
  import opened Records
  import opened AddressBook
  import opened Collecting

  /** One entry of the report: the contact's name and the congratulation
      date (the source renders it as `YYYY.MM.DD`). */
  datatype Upcoming = Upcoming(name: string, congratulation: Date)

  /** How many days ahead a birthday still counts as upcoming. */
  const Window := 7

  /** The birthday moved into `today`'s year, or into the next year when
      that day is already past. The source renders the birthday with
      `strftime`, parses it back, then calls `replace(year=...)`, which
      raises ValueError for 29 February in a common year and for year
      10000. */
  function Project(birthday: Date, today: Date): (r: Result<Date>)
    requires ValidDate(birthday) && ValidDate(today)
    ensures r.Ok? ==> ValidDate(r.value) && r.value.month == birthday.month && r.value.day == birthday.day
    ensures r.Ok? ==> !Before(r.value, today)
    ensures r.Ok? ==> r.value.year == today.year || r.value.year == today.year + 1
    ensures r.Err? <==>
      var thisYear := Date(today.year, birthday.month, birthday.day);
      || !ValidDate(thisYear)
      || (Before(thisYear, today) && !ValidDate(Date(today.year + 1, birthday.month, birthday.day)))
    ensures r.Err? ==> r.error == ValueError
  {
    DateFormat.ParseFormat(birthday);
    match DateFormat.ParseDate(DateFormat.FormatDate(birthday))
    case Err(e) => Err(e)
    case Ok(b) =>
      match ReplaceYear(b, today.year)
      case Err(e) => Err(e)
      case Ok(c) => if Before(c, today) then ReplaceYear(c, today.year + 1) else Ok(c)
  }

  /** The congratulation date: a Saturday or Sunday moves to the following
      Monday (`+ timedelta(days=7 - weekday)`), any other day stays. The
      addition never overflows because 9999-12-31 is a Friday. */
  function CongratulationDate(p: Date): (c: Date)
    requires ValidDate(p)
    ensures ValidDate(c) && Weekday(c) < 5
    ensures Weekday(p) < 5 ==> c == p
    ensures Weekday(p) == 5 ==> DaysBetween(p, c) == 2
    ensures Weekday(p) == 6 ==> DaysBetween(p, c) == 1
  {
    var w := Weekday(p);
    if w >= 5 then
      RoomBeforeLastDay(p);
      var shifted := AddDays(p, 7 - w);
      WeekdayAfter(p, shifted.value, 7 - w);
      shifted.value
    else p
  }

  /** A Saturday or Sunday is never among the last days Python supports,
      so the following Monday exists. */
  lemma RoomBeforeLastDay(p: Date)
    requires ValidDate(p) && Weekday(p) >= 5
    ensures ToOrdinal(p) + 7 - Weekday(p) <= MaxOrdinal
  {
    OrdinalRange(p);
    WeekendRoom(ToOrdinal(p), Weekday(p));
  }

  /** The same fact on ordinals: the last two ordinals fall on weekdays 3
      and 4 (Thursday and Friday). */
  lemma WeekendRoom(o: int, w: int)
    requires 1 <= o <= MaxOrdinal && w == (o + 6) % 7 && w >= 5
    ensures o + 7 - w <= MaxOrdinal
  {
    assert (MaxOrdinal - 1 + 6) % 7 == 3;
    assert (MaxOrdinal + 6) % 7 == 4;
  }

  /** The record has a birthday whose projection exists and lies 0 to 7
      days after `today`. */
  predicate DueSoon(r: Record, today: Date) {
    && ValidDate(today) && WellFormed(r) && r.birthday.Some?
    && var p := Project(r.birthday.value, today);
    && p.Ok?
    && 0 <= DaysBetween(today, p.value) <= Window
  }

  /** The record has a birthday whose projection raises. */
  predicate Fails(r: Record, today: Date) {
    && ValidDate(today) && WellFormed(r) && r.birthday.Some?
    && Project(r.birthday.value, today).Err?
  }

  /** `e` is the report line for `r`: the record is due soon, the name is
      the record's, the congratulation date is a weekday, and it is the
      projected birthday itself when that is a weekday, the day after for a
      Sunday and two days after for a Saturday. */
  predicate Announces(r: Record, today: Date, e: Upcoming) {
    && DueSoon(r, today)
    && e.name == r.name
    && ValidDate(e.congratulation)
    && Weekday(e.congratulation) < 5
    && var p := Project(r.birthday.value, today).value;
       var gap := DaysBetween(p, e.congratulation);
       || (Weekday(p) < 5 && gap == 0)
       || (Weekday(p) == 5 && gap == 2)
       || (Weekday(p) == 6 && gap == 1)
  }

  /** The loop body of `get_upcoming_birthdays` for one record. */
  function Check(r: Record, today: Date): (res: Result<Option<Upcoming>>)
    requires WellFormed(r) && ValidDate(today)
    ensures res.Err? <==> Fails(r, today)
    ensures res.Ok? && res.value.Some? ==> Announces(r, today, res.value.value)
    ensures res.Ok? && res.value.None? ==> !DueSoon(r, today)
    ensures res.Err? ==> res.error == ValueError
  {
    match r.birthday
    case None => Ok(None)
    case Some(b) =>
      match Project(b, today)
      case Err(e) => Err(e)
      case Ok(p) =>
        if 0 <= DaysBetween(today, p) <= Window then
          Ok(Some(Upcoming(r.name, CongratulationDate(p))))
        else Ok(None)
  }

  /** `get_upcoming_birthdays` over records in iteration order: the first
      projection that raises aborts the whole scan. `ScanSound` and
      `ScanComplete` say which entries the report holds. */
  function Scan(rs: seq<Record>, today: Date): (res: Result<seq<Upcoming>>)
    requires ValidDate(today)
    requires forall i :: 0 <= i < |rs| ==> WellFormed(rs[i])
    ensures res.Err? <==> exists i :: 0 <= i < |rs| && Fails(rs[i], today)
    ensures res.Err? ==> res.error == ValueError
    ensures res.Ok? ==> |res.value| <= |rs|
  {
    ScanErrors(rs, today);
    ScanErrorKind(rs, today);
    Collect(rs, CheckStep(today))
  }

  /** `Check` with `today` fixed, as the step of the loop. */
  function CheckStep(today: Date): Record --> Result<Option<Upcoming>> {
    r requires WellFormed(r) && ValidDate(today) => Check(r, today)
  }

  lemma CheckStepIs(today: Date, r: Record)
    requires WellFormed(r) && ValidDate(today)
    ensures CheckStep(today).requires(r) && CheckStep(today)(r) == Check(r, today)
  {
  }

  /** The only error the scan lets escape is the projection's ValueError. */
  lemma ScanErrorKind(rs: seq<Record>, today: Date)
    requires ValidDate(today) && forall i :: 0 <= i < |rs| ==> WellFormed(rs[i])
    ensures var res := Collect(rs, CheckStep(today));
      res.Err? ==> res.error == ValueError
  {
    var step := CheckStep(today);
    CollectError(rs, step);
    var res := Collect(rs, step);
    if res.Err? {
      var i :| 0 <= i < |rs| && step(rs[i]) == Err(res.error);
      CheckStepIs(today, rs[i]);
    }
  }

  lemma ScanErrors(rs: seq<Record>, today: Date)
    requires ValidDate(today) && forall i :: 0 <= i < |rs| ==> WellFormed(rs[i])
    ensures Collect(rs, CheckStep(today)).Err? <==> exists i :: 0 <= i < |rs| && Fails(rs[i], today)
  {
    var step := CheckStep(today);
    var res := Collect(rs, step);
    if i :| 0 <= i < |rs| && Fails(rs[i], today) {
      CheckStepIs(today, rs[i]);
      assert step(rs[i]).Err?;
    }
    if i :| 0 <= i < |rs| && step(rs[i]).Err? {
      CheckStepIs(today, rs[i]);
      assert Fails(rs[i], today);
    }
  }

  /** Every entry of the report announces one of the records. */
  lemma ScanSound(rs: seq<Record>, today: Date)
    requires ValidDate(today) && forall i :: 0 <= i < |rs| ==> WellFormed(rs[i])
    ensures var res := Scan(rs, today);
      res.Ok? ==> forall k :: 0 <= k < |res.value| ==>
        exists i :: 0 <= i < |rs| && Announces(rs[i], today, res.value[k])
  {
    var step := CheckStep(today);
    CollectSound(rs, step);
    var res := Collect(rs, step);
    if res.Ok? {
      var out := res.value;
      forall k | 0 <= k < |out|
        ensures exists i :: 0 <= i < |rs| && Announces(rs[i], today, out[k])
      {
        var i :| 0 <= i < |rs| && step(rs[i]) == Ok(Some(out[k]));
        CheckStepIs(today, rs[i]);
        assert Check(rs[i], today) == Ok(Some(out[k]));
        assert Announces(rs[i], today, out[k]);
      }
    }
  }

  lemma DueSoonIsReported(r: Record, today: Date)
    requires WellFormed(r) && ValidDate(today) && DueSoon(r, today)
    requires Check(r, today).Ok?
    ensures Check(r, today).value.Some? && Announces(r, today, Check(r, today).value.value)
  {
  }

  /** Every record due soon is announced by some entry of the report. */
  lemma ScanComplete(rs: seq<Record>, today: Date)
    requires ValidDate(today) && forall i :: 0 <= i < |rs| ==> WellFormed(rs[i])
    ensures var res := Scan(rs, today);
      res.Ok? ==> forall i :: 0 <= i < |rs| && DueSoon(rs[i], today) ==>
        exists k :: 0 <= k < |res.value| && Announces(rs[i], today, res.value[k])
  {
    var res := Collect(rs, CheckStep(today));
    if res.Ok? {
      forall i | 0 <= i < |rs| && DueSoon(rs[i], today)
        ensures exists k :: 0 <= k < |res.value| && Announces(rs[i], today, res.value[k])
      {
        ScanCompleteAt(rs, today, i);
      }
    }
  }

  lemma ScanCompleteAt(rs: seq<Record>, today: Date, i: nat)
    requires ValidDate(today) && forall j :: 0 <= j < |rs| ==> WellFormed(rs[j])
    requires i < |rs| && DueSoon(rs[i], today)
    requires Collect(rs, CheckStep(today)).Ok?
    ensures var out := Collect(rs, CheckStep(today)).value;
      exists k :: 0 <= k < |out| && Announces(rs[i], today, out[k])
  {
    var step := CheckStep(today);
    var out := Collect(rs, step).value;
    CollectComplete(rs, step);
    CheckStepIs(today, rs[i]);
    assert !step(rs[i]).Err?;
    DueSoonIsReported(rs[i], today);
    var e := Check(rs[i], today).value.value;
    var k :| 0 <= k < |out| && out[k] == step(rs[i]).value.value;
    assert out[k] == e;
  }

  /** Scanning two runs of records one after the other: the report for the
      first run comes first. */
  lemma ScanAppend(rs1: seq<Record>, rs2: seq<Record>, today: Date)
    requires ValidDate(today)
    requires forall i :: 0 <= i < |rs1| ==> WellFormed(rs1[i])
    requires forall i :: 0 <= i < |rs2| ==> WellFormed(rs2[i])
    ensures forall i :: 0 <= i < |rs1 + rs2| ==> WellFormed((rs1 + rs2)[i])
    ensures Scan(rs1 + rs2, today) == Join(Scan(rs1, today), Scan(rs2, today))
  {
    CollectAppend(rs1, rs2, CheckStep(today));
  }

  /** A scan of one record is that record's `Check`: its one entry, no
      entry, or its error. With `ScanAppend`, every record contributes its
      own slot of the report, in order. */
  lemma ScanOne(r: Record, today: Date)
    requires WellFormed(r) && ValidDate(today)
    ensures Scan([r], today) == match Check(r, today) case Err(e) => Err(e) case Ok(h) => Ok(Emit(h))
  {
    CheckStepIs(today, r);
    CollectOne(r, CheckStep(today));
  }

  /** An entry from `Check` carries the record's name. */
  lemma CheckName(r: Record, today: Date)
    requires WellFormed(r) && ValidDate(today)
    ensures var res := Check(r, today);
      res.Ok? && res.value.Some? ==> res.value.value.name == r.name
  {
  }

  /** Every entry of the report carries the name of one of the records. */
  lemma ScanNames(rs: seq<Record>, today: Date)
    requires ValidDate(today) && forall i :: 0 <= i < |rs| ==> WellFormed(rs[i])
    ensures var res := Scan(rs, today);
      res.Ok? ==> forall k :: 0 <= k < |res.value| ==> exists i :: 0 <= i < |rs| && rs[i].name == res.value[k].name
  {
    ScanSound(rs, today);
  }

  /** Records with pairwise different names are announced under pairwise
      different names: nobody is reported twice. */
  lemma {:induction false} ScanNamesDistinct(rs: seq<Record>, today: Date)
    requires ValidDate(today) && forall i :: 0 <= i < |rs| ==> WellFormed(rs[i])
    requires forall i, j :: 0 <= i < j < |rs| ==> rs[i].name != rs[j].name
    ensures var res := Scan(rs, today);
      res.Ok? ==> forall j, k :: 0 <= j < k < |res.value| ==> res.value[j].name != res.value[k].name
  {
    var res := Scan(rs, today);
    if |rs| > 0 && res.Ok? {
      var tl := rs[1..];
      assert rs == [rs[0]] + tl;
      assert forall i :: 0 <= i < |tl| ==> tl[i] == rs[i + 1];
      ScanAppend([rs[0]], tl, today);
      ScanOne(rs[0], today);
      ScanNamesDistinct(tl, today);
      ScanNames(tl, today);
      CheckName(rs[0], today);
      var h := Check(rs[0], today).value;
      var tail := Scan(tl, today).value;
      assert res.value == Emit(h) + tail;
      forall k | 0 <= k < |tail|
        ensures tail[k].name != rs[0].name
      {
        var i :| 0 <= i < |tl| && tl[i].name == tail[k].name;
      }
      PrependDistinct(Emit(h), tail, rs[0].name);
    }
  }

  /** Putting at most one entry named `n` in front of entries with pairwise
      different names, none of them `n`, keeps the names pairwise different. */
  lemma PrependDistinct(head: seq<Upcoming>, tail: seq<Upcoming>, n: string)
    requires |head| <= 1 && forall k :: 0 <= k < |head| ==> head[k].name == n
    requires forall k :: 0 <= k < |tail| ==> tail[k].name != n
    requires forall j, k :: 0 <= j < k < |tail| ==> tail[j].name != tail[k].name
    ensures forall j, k :: 0 <= j < k < |head + tail| ==> (head + tail)[j].name != (head + tail)[k].name
  {
    var v := head + tail;
    forall j, k | 0 <= j < k < |v|
      ensures v[j].name != v[k].name
    {
      assert v[k] == tail[k - |head|];
      if j >= |head| {
        assert v[j] == tail[j - |head|];
      }
    }
  }

  // ---------------------------------------------------------------------
  // The address book's report

  /** `book.get_upcoming_birthdays()` with the clock reading `today`. */
  function UpcomingBirthdays(b: Book, today: Date): (res: Result<seq<Upcoming>>)
    requires Valid(b) && ValidDate(today)
    ensures res.Err? <==> exists n :: n in b.records && Fails(b.records[n], today)
    ensures res.Ok? ==> forall k :: 0 <= k < |res.value| ==>
              res.value[k].name in b.records && Announces(b.records[res.value[k].name], today, res.value[k])
    ensures res.Ok? ==> forall n :: n in b.records && DueSoon(b.records[n], today) ==>
              exists k :: 0 <= k < |res.value| && res.value[k].name == n
    ensures res.Ok? ==> forall j, k :: 0 <= j < k < |res.value| ==> res.value[j].name != res.value[k].name
    ensures res.Err? ==> res.error == ValueError
  {
    BookNamesDistinct(b, today);
    BookErrors(b, today);
    BookSound(b, today);
    BookComplete(b, today);
    Scan(Values(b), today)
  }

  lemma BookErrors(b: Book, today: Date)
    requires Valid(b) && ValidDate(today)
    ensures Scan(Values(b), today).Err? <==> exists n :: n in b.records && Fails(b.records[n], today)
  {
    var rs := Values(b);
    if n :| n in b.records && Fails(b.records[n], today) {
      var i :| 0 <= i < |b.keys| && b.keys[i] == n;
      assert Fails(rs[i], today);
    }
    if i :| 0 <= i < |rs| && Fails(rs[i], today) {
      assert Fails(b.records[b.keys[i]], today);
    }
  }

  lemma BookSound(b: Book, today: Date)
    requires Valid(b) && ValidDate(today)
    ensures var res := Scan(Values(b), today);
      res.Ok? ==> forall k :: 0 <= k < |res.value| ==>
        res.value[k].name in b.records && Announces(b.records[res.value[k].name], today, res.value[k])
  {
    var rs := Values(b);
    var res := Scan(rs, today);
    if res.Ok? {
      ScanSound(rs, today);
      forall k | 0 <= k < |res.value|
        ensures res.value[k].name in b.records && Announces(b.records[res.value[k].name], today, res.value[k])
      {
        var i :| 0 <= i < |rs| && Announces(rs[i], today, res.value[k]);
        assert res.value[k].name == b.keys[i] && rs[i] == b.records[b.keys[i]];
      }
    }
  }

  lemma BookComplete(b: Book, today: Date)
    requires Valid(b) && ValidDate(today)
    ensures var res := Scan(Values(b), today);
      res.Ok? ==> forall n :: n in b.records && DueSoon(b.records[n], today) ==>
        exists k :: 0 <= k < |res.value| && res.value[k].name == n
  {
    var rs := Values(b);
    var res := Scan(rs, today);
    if res.Ok? {
      ScanComplete(rs, today);
      forall n | n in b.records && DueSoon(b.records[n], today)
        ensures exists k :: 0 <= k < |res.value| && res.value[k].name == n
      {
        var i :| 0 <= i < |b.keys| && b.keys[i] == n;
        assert rs[i] == b.records[n];
        var k :| 0 <= k < |res.value| && Announces(rs[i], today, res.value[k]);
      }
    }
  }

  /** No contact is named twice in the report. */
  lemma BookNamesDistinct(b: Book, today: Date)
    requires Valid(b) && ValidDate(today)
    ensures var res := Scan(Values(b), today);
      res.Ok? ==> forall j, k :: 0 <= j < k < |res.value| ==> res.value[j].name != res.value[k].name
  {
    var rs := Values(b);
    assert forall i, j :: 0 <= i < j < |rs| ==> rs[i].name != rs[j].name by {
      forall i, j | 0 <= i < j < |rs|
        ensures rs[i].name != rs[j].name
      {
        assert rs[i].name == b.keys[i] && rs[j].name == b.keys[j];
      }
    }
    ScanNamesDistinct(rs, today);
  }

  /** A contact added under a new name is reported after all the others. */
  lemma NewContactReportedLast(b: Book, r: Record, today: Date)
    requires Valid(b) && WellFormed(r) && r.name !in b.records && ValidDate(today)
    ensures UpcomingBirthdays(AddRecord(b, r), today) == Join(UpcomingBirthdays(b, today), Scan([r], today))
  {
    ValuesAfterAdd(b, r);
    ScanAppend(Values(b), [r], today);
  }

  // ---------------------------------------------------------------------
  // Properties of the projection

  /** The projection is the first date on or after `today` with the
      birthday's month and day. */
  lemma ProjectIsNextOccurrence(birthday: Date, today: Date, q: Date)
    requires ValidDate(birthday) && ValidDate(today) && Project(birthday, today).Ok?
    requires ValidDate(q) && q.month == birthday.month && q.day == birthday.day && !Before(q, today)
    ensures !Before(q, Project(birthday, today).value)
  {
  }

  /** The `0 <=` half of the window test never fails: the projection is
      never in the past. */
  lemma ProjectNotInPast(birthday: Date, today: Date)
    requires ValidDate(birthday) && ValidDate(today) && Project(birthday, today).Ok?
    ensures DaysBetween(today, Project(birthday, today).value) >= 0
  {
    OrdinalOrder(Project(birthday, today).value, today);
  }

  /** The projection raises only for a 29 February birthday or in the year
      9999. */
  lemma ProjectFailsOnlyOnLeapDayOrLastYear(birthday: Date, today: Date)
    requires ValidDate(birthday) && ValidDate(today) && Project(birthday, today).Err?
    ensures (birthday.month == 2 && birthday.day == 29) || today.year == MaxYear
  {
  }

  // ---------------------------------------------------------------------
  // find_next_weekday

  /** `find_next_weekday(d, weekday)`: moves `d` forward by
      `DaysAhead(d.weekday(), weekday)` days, which is 1 to 7 days for a
      weekday in 0..6. `NextWeekdayLands` gives the weekday of the result
      and `NextWeekdayIsNearest` says no earlier day has it. */
  function FindNextWeekday(d: Date, weekday: int): (r: Result<Date>)
    requires ValidDate(d)
    ensures r.Ok? ==> ValidDate(r.value) && DaysBetween(d, r.value) == DaysAhead(Weekday(d), weekday)
    ensures weekday >= 0 ==> (r.Ok? <==> ToOrdinal(d) + DaysAhead(Weekday(d), weekday) <= MaxOrdinal)
    ensures r.Err? ==> r.error == OverflowError
  {
    OrdinalRange(d);
    AddDays(d, DaysAhead(Weekday(d), weekday))
  }

  /** `weekday - from`, plus 7 when that is not positive: the days from a
      day with weekday `from` to the next day with weekday `weekday`. */
  function DaysAhead(from: int, weekday: int): (n: int)
    requires 0 <= from < 7
    ensures weekday >= 0 ==> n >= 1
    ensures 0 <= weekday < 7 ==> n <= 7
  {
    var n := weekday - from;
    if n <= 0 then n + 7 else n
  }

  /** Counting `DaysAhead(from, weekday)` days forward from weekday `from`
      lands on `weekday` (taken modulo 7, as date arithmetic does). */
  lemma AheadLandsOnWeekday(from: int, weekday: int)
    requires 0 <= from < 7
    ensures (from + DaysAhead(from, weekday)) % 7 == weekday % 7
  {
    var n := weekday - from;
    assert (from + n + 7) % 7 == (from + n) % 7;
  }

  /** The date `find_next_weekday` returns falls on `weekday` (modulo 7). */
  lemma NextWeekdayLands(d: Date, weekday: int, r: Date)
    requires ValidDate(d) && FindNextWeekday(d, weekday) == Ok(r)
    ensures Weekday(r) == weekday % 7
  {
    var ahead := DaysAhead(Weekday(d), weekday);
    assert ToOrdinal(r) == ToOrdinal(d) + ahead;
    WeekdayAfter(d, r, ahead);
    AheadLandsOnWeekday(Weekday(d), weekday);
  }

  /** No day strictly inside the gap `find_next_weekday` jumps over falls
      on `weekday`. */
  lemma NextWeekdayIsNearest(d: Date, weekday: int, e: Date)
    requires ValidDate(d) && ValidDate(e) && 0 <= weekday < 7
    requires 0 < DaysBetween(d, e) < DaysAhead(Weekday(d), weekday)
    ensures Weekday(e) != weekday
  {
    var j := DaysBetween(d, e);
    WeekdayAfter(d, e, j);
    NoEarlierMatch(Weekday(d), j, weekday);
  }

  /** Counting forward from weekday `from`, weekday `w` does not come up
      before `DaysAhead(from, w)` days. */
  lemma NoEarlierMatch(from: int, j: int, w: int)
    requires 0 <= from < 7 && 0 <= w < 7 && 0 < j < DaysAhead(from, w)
    ensures (from + j) % 7 != w
  {
    assert (from + j) % 7 == if from + j < 7 then from + j else from + j - 7;
  }

  // ---------------------------------------------------------------------
  // Worked examples

  /** 15 June 2024 is a Saturday five days after Monday 10 June: reported
      for Monday 17 June. */
  lemma SaturdayBirthdayMovesToMonday()
    ensures Check(Record("Ann", [], Some(Date(1990, 6, 15))), Date(2024, 6, 10))
         == Ok(Some(Upcoming("Ann", Date(2024, 6, 17))))
  {
    SaturdayMovesToMonday();
  }

  /** Saturday 15 June 2024 is congratulated on Monday 17 June. */
  lemma SaturdayMovesToMonday()
    ensures CongratulationDate(Date(2024, 6, 15)) == Date(2024, 6, 17)
  {
    var p, monday := Date(2024, 6, 15), Date(2024, 6, 17);
    assert Weekday(p) == 5;
    OrdinalOrder(CongratulationDate(p), monday);
  }

  /** A birthday already past this year rolls to next year and is far
      away. */
  lemma PastBirthdayRollsToNextYear()
    ensures Project(Date(1990, 6, 5), Date(2024, 6, 10)) == Ok(Date(2025, 6, 5))
    ensures Check(Record("Bob", [], Some(Date(1990, 6, 5))), Date(2024, 6, 10)) == Ok(None)
  {
  }

  /** A Saturday exactly seven days ahead is still reported, on the Monday
      nine days ahead. */
  lemma ShiftLeavesWindow()
    ensures Check(Record("Ann", [], Some(Date(1990, 6, 15))), Date(2024, 6, 8))
         == Ok(Some(Upcoming("Ann", Date(2024, 6, 17))))
    ensures DaysBetween(Date(2024, 6, 8), Date(2024, 6, 17)) == 9
  {
    SaturdayMovesToMonday();
  }

  /** A 29 February birthday makes the scan raise in a common year. */
  lemma LeapDayBirthdayRaises()
    ensures Check(Record("Eve", [], Some(Date(2000, 2, 29))), Date(2023, 3, 1)) == Err(ValueError)
  {
  }
}
