/** Business days, and the days that a command template is filled with. */
module BusinessDays {

  /** Day number 0 is 1 January 1970, a Thursday; weekday 0 is Sunday. */
  function Weekday(day: int): int {
    (day + 4) % 7
  }

  const SUNDAY := 0
  const SATURDAY := 6

  datatype DayParser = DayParser(eodHour: int, skipWeekDays: seq<int>, isHoliday: int -> bool) {
    predicate IsBusinessDay(day: int) {
      !isHoliday(day) && Weekday(day) !in skipWeekDays
    }

    /** The last business day up to and including day. */
    ghost predicate IsLastUpTo(day: int, r: int) {
      IsBusinessDay(r) && r <= day && forall x :: r < x <= day ==> !IsBusinessDay(x)
    }

    ghost predicate HasBusinessDay(day: int) {
      exists b :: b <= day && IsBusinessDay(b)
    }

    /** Walks back a day at a time. Without a business day on the way the walk would not end. */
    method WeekdayBackward(day: int) returns (d: int)
      requires HasBusinessDay(day)
      ensures IsLastUpTo(day, d)
      ensures d <= day && !isHoliday(d) && Weekday(d) !in skipWeekDays
      ensures forall x :: d < x <= day ==> isHoliday(x) || Weekday(x) in skipWeekDays
    {
      ghost var b :| b <= day && IsBusinessDay(b);
      d := day;
      while !IsBusinessDay(d)
        invariant b <= d <= day && forall x :: d < x <= day ==> !IsBusinessDay(x)
        decreases d - b
      {
        d := d - 1;
      }
      forall x | d < x <= day ensures isHoliday(x) || Weekday(x) in skipWeekDays {
        assert !IsBusinessDay(x);
      }
    }

    /** The end of day of x is over on this day at this hour. */
    predicate HasEnded(x: int, day: int, hour: int) {
      x < day || (x == day && hour >= eodHour)
    }

    /** The business day whose end is the last to have passed. */
    ghost predicate IsLastEnded(day: int, hour: int, r: int) {
      && IsBusinessDay(r) && HasEnded(r, day, hour)
      && forall x :: r < x && IsBusinessDay(x) ==> !HasEnded(x, day, hour)
    }

    /** The end-of-day date and the business date of a moment. Its day and hour are read in its own zone; localDay is
        its day in the parser's zone, where the business date is looked for. */
    method Dates(day: int, hour: int, localDay: int) returns (eodDay: int, wDay: int)
      requires HasBusinessDay(if hour < eodHour then day - 1 else day) && HasBusinessDay(localDay)
      ensures IsLastEnded(day, hour, eodDay) && IsLastUpTo(localDay, wDay)
    {
      if hour < eodHour {
        eodDay := WeekdayBackward(day - 1);
      } else {
        eodDay := WeekdayBackward(day);
      }
      LastEndedIff(day, hour, eodDay);
      wDay := WeekdayBackward(localDay);
    }

    /** The day found from the day before or from the day itself, by the hour, is the last business day that has
        ended. */
    lemma LastEndedIff(day: int, hour: int, r: int)
      ensures IsLastEnded(day, hour, r) <==> IsLastUpTo(if hour < eodHour then day - 1 else day, r)
    {
      var last := if hour < eodHour then day - 1 else day;
      assert forall x :: HasEnded(x, day, hour) <==> x <= last;
    }

    /** The code finds one day only. */
    lemma LastUpToIsUnique(day: int, r: int, r': int)
      requires IsLastUpTo(day, r) && IsLastUpTo(day, r')
      ensures r == r'
    {
      assert !(r < r') && !(r' < r);
    }

    /** Later moments have no earlier end-of-day date. */
    lemma LastEndedIsMonotone(day: int, hour: int, r: int, day': int, hour': int, r': int)
      requires day < day' || (day == day' && hour <= hour')
      requires IsLastEnded(day, hour, r) && IsLastEnded(day', hour', r')
      ensures r <= r'
    {
      assert HasEnded(r, day', hour');
      assert !(r' < r);
    }

    /** How the two dates compare, whatever the two zones: the end-of-day date is later exactly when a business day
        that has ended is still to come in the parser's zone, and earlier exactly when a business day that has not
        ended has begun there. */
    lemma DatesCompare(day: int, hour: int, localDay: int, eodDay: int, wDay: int)
      requires IsLastEnded(day, hour, eodDay) && IsLastUpTo(localDay, wDay)
      ensures eodDay > wDay <==> exists x :: IsBusinessDay(x) && localDay < x && HasEnded(x, day, hour)
      ensures eodDay < wDay <==> exists x :: IsBusinessDay(x) && x <= localDay && !HasEnded(x, day, hour)
    {
      if x :| IsBusinessDay(x) && localDay < x && HasEnded(x, day, hour) {
        assert x <= eodDay;
      }
      if x :| IsBusinessDay(x) && x <= localDay && !HasEnded(x, day, hour) {
        assert x <= wDay && eodDay < x;
      }
    }

    /** In one zone the end-of-day date is never after the business date, and they differ exactly on a business day
        before the cutoff. */
    lemma LastEndedAgainstLastUpTo(day: int, hour: int, eodDay: int, wDay: int)
      requires IsLastEnded(day, hour, eodDay) && IsLastUpTo(day, wDay)
      ensures eodDay <= wDay
      ensures eodDay < wDay <==> IsBusinessDay(day) && hour < eodHour
      ensures IsBusinessDay(day) <==> wDay == day
    {
      DatesCompare(day, hour, day, eodDay, wDay);
      assert forall x :: x <= day && !HasEnded(x, day, hour) <==> x == day && hour < eodHour;
    }

    /** In two zones it can be: on a business day after its end, where the parser's zone is still on the day before. */
    lemma EndedDayCanBeLater(day: int, hour: int, eodDay: int, wDay: int)
      requires IsBusinessDay(day) && hour >= eodHour
      requires IsLastEnded(day, hour, eodDay) && IsLastUpTo(day - 1, wDay)
      ensures wDay < eodDay == day
    {
      DatesCompare(day, hour, day - 1, eodDay, wDay);
      assert HasEnded(day, day, hour);
    }

    ghost predicate SomeWeekdayKept() {
      exists w :: 0 <= w < 7 && w !in skipWeekDays
    }

    /** Without holidays there is a business day before any day exactly when some weekday is not skipped; and then it
        is at most six days back. */
    lemma AlwaysHasBusinessDayIff()
      requires forall day :: !isHoliday(day)
      ensures (forall day :: HasBusinessDay(day)) <==> SomeWeekdayKept()
      ensures SomeWeekdayKept() ==> forall day, r :: IsLastUpTo(day, r) ==> day - r <= 6
    {
      if w :| 0 <= w < 7 && w !in skipWeekDays {
        forall day ensures HasBusinessDay(day) {
          var b := InLastSeven(day, w);
          assert IsBusinessDay(b);
        }
        forall day, r | IsLastUpTo(day, r) ensures day - r <= 6 {
          var b := InLastSeven(day, w);
          assert IsBusinessDay(b);
        }
      }
      if HasBusinessDay(0) {
        var b :| b <= 0 && IsBusinessDay(b);
        assert Weekday(b) !in skipWeekDays;
      }
    }
  }

  lemma InLastSeven(day: int, w: int) returns (b: int)
    requires 0 <= w < 7
    ensures day - 6 <= b <= day && Weekday(b) == w
  {
    b := day - (Weekday(day) - w) % 7;
  }

  /** The parser before any option is applied. */
  function Default(): DayParser {
    DayParser(17, [SATURDAY, SUNDAY], day => false)
  }

  /** With the default settings every moment has its dates. */
  lemma DefaultHasBusinessDay(day: int)
    ensures Default().HasBusinessDay(day)
  {
    assert 1 !in Default().skipWeekDays;
    Default().AlwaysHasBusinessDayIff();
  }

  /** The weekdays follow one another, and 1 November 2016 was a Tuesday. */
  lemma WeekdaysFollow(day: int)
    ensures Weekday(day + 1) == if Weekday(day) == 6 then 0 else Weekday(day) + 1
    ensures Weekday(17106) == 2
  {
  }

  /** With the default settings Monday to Friday are business days, and a day ends at 17 hours. On that Tuesday the
      end-of-day date is Monday the 31st before 17 hours and the 1st from then on; on the Monday morning it is Friday
      the 28th, and on the Sunday all day. */
  lemma DefaultDays(day: int, hour: int)
    ensures Default().IsBusinessDay(day) <==> 1 <= Weekday(day) <= 5
    ensures 0 <= hour < 17 ==> Default().IsLastEnded(17106, hour, 17105)
    ensures 17 <= hour < 24 ==> Default().IsLastEnded(17106, hour, 17106)
    ensures 0 <= hour < 17 ==> Default().IsLastEnded(17105, hour, 17102)
    ensures 0 <= hour < 24 ==> Default().IsLastEnded(17104, hour, 17102)
  {
    Default().LastEndedIff(17106, hour, 17105);
    Default().LastEndedIff(17106, hour, 17106);
    Default().LastEndedIff(17105, hour, 17102);
    Default().LastEndedIff(17104, hour, 17102);
    assert Weekday(17103) == 6 && Weekday(17104) == 0 && Weekday(17102) == 5 && Weekday(17105) == 1;
  }
}
