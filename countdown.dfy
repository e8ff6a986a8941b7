/** The countdown and the month calendar of the invitation
    (components/invitation/CountdownSection.tsx). Time is integer
    milliseconds; the weekday of the first of the month and the length of the
    month, which the component reads from the Date library, are inputs. */
module Countdown {
  import opened Optional
  import opened Numerals
  import opened Seqs

  const MsPerSecond := 1000
  const MsPerMinute := 60 * 1000
  const MsPerHour := 60 * 60 * 1000
  const MsPerDay := 24 * 60 * 60 * 1000

  datatype TimeLeft = TimeLeft(days: int, hours: int, minutes: int, seconds: int)

  /** The four figures the tick computes from a positive difference. */
  function SplitDuration(difference: nat): (t: TimeLeft)
    ensures t.days >= 0 && 0 <= t.hours < 24 && 0 <= t.minutes < 60 && 0 <= t.seconds < 60
    ensures t.days * 86400 + t.hours * 3600 + t.minutes * 60 + t.seconds == difference / 1000
  {
    var t := TimeLeft(difference / MsPerDay, (difference / MsPerHour) % 24, (difference / MsPerMinute) % 60,
                      (difference / MsPerSecond) % 60);
    Recompose(difference);
    t
  }

  /** Whole minutes, hours and days are whole seconds, minutes and hours
      divided once more. */
  lemma MinutesOf(d: nat) ensures d / MsPerMinute == d / MsPerSecond / 60 {}
  lemma HoursOf(d: nat) ensures d / MsPerHour == d / MsPerMinute / 60 {}
  lemma DaysOf(d: nat) ensures d / MsPerDay == d / MsPerHour / 24 {}

  /** Days, hours, minutes and seconds of s seconds recompose s. */
  lemma RecomposeSeconds(s: nat)
    ensures (s / 60 / 60 / 24) * 86400 + ((s / 60 / 60) % 24) * 3600 + ((s / 60) % 60) * 60 + s % 60 == s
  {
    var m := s / 60;
    var h := m / 60;
    assert s == 60 * m + s % 60;
    assert m == 60 * h + m % 60;
    assert h == 24 * (h / 24) + h % 24;
  }

  /** The seconds, minutes, hours and days recompose the whole seconds. */
  lemma Recompose(difference: nat)
    ensures (difference / MsPerDay) * 86400 + ((difference / MsPerHour) % 24) * 3600
              + ((difference / MsPerMinute) % 60) * 60 + (difference / MsPerSecond) % 60 == difference / 1000
  {
    MinutesOf(difference);
    HoursOf(difference);
    DaysOf(difference);
    RecomposeSeconds(difference / 1000);
  }

  /** The countdown's state: the figures last shown. */
  class CountdownState {
    var days: int
    var hours: int
    var minutes: int
    var seconds: int

    predicate Valid()
      reads this
    {
      days >= 0 && 0 <= hours < 24 && 0 <= minutes < 60 && 0 <= seconds < 60
    }

    function Shown(): TimeLeft
      reads this
    {
      TimeLeft(days, hours, minutes, seconds)
    }

    /** Mounting: all zeros. */
    constructor ()
      ensures Valid() && Shown() == TimeLeft(0, 0, 0, 0)
    {
      days, hours, minutes, seconds := 0, 0, 0, 0;
    }

    /** calculateTimeLeft, given target time minus now: a target in the future
        replaces the figures; otherwise they stay as they were. */
    method Tick(difference: int)
      requires Valid()
      modifies this
      ensures Valid()
      ensures difference > 0 ==> Shown() == SplitDuration(difference)
      ensures difference <= 0 ==> Shown() == old(Shown())
    {
      if difference > 0 {
        var t := SplitDuration(difference);
        days, hours, minutes, seconds := t.days, t.hours, t.minutes, t.seconds;
      }
    }
  }

  /** formatNumber: toString, padded on the left with '0' to two characters. */
  function FormatNumber(n: int): (r: string)
    ensures |r| >= 2
    ensures |IntToString(n)| >= 2 ==> r == IntToString(n)
    ensures |IntToString(n)| < 2 ==> r == "0" + IntToString(n)
    ensures n >= 0 ==> ParseInt(r) == Some(n)
  {
    var s := IntToString(n);
    FormatReadsBack(n);
    if |s| < 2 then "0" + s else s
  }

  /** The padded figure of a non-negative number reads back as that number. */
  lemma FormatReadsBack(n: int)
    ensures var s := IntToString(n);
            n >= 0 ==> ParseInt(if |s| < 2 then "0" + s else s) == Some(n)
  {
    ParseIntOfIntToString(n);
    if n >= 0 && |IntToString(n)| < 2 {
      PaddedReadsBack(n);
    }
  }

  lemma PaddedReadsBack(n: nat)
    ensures ParseInt("0" + ToRadix(n, 10)) == Some(n)
  {
    var s := ToRadix(n, 10);
    var t := "0" + s;
    assert forall i :: 0 <= i < |t| ==> DigitValue(t[i]) < 10 by {
      forall i | 0 <= i < |t| ensures DigitValue(t[i]) < 10 {
        if i > 0 {
          assert t[i] == s[i - 1];
        }
      }
    }
    ParseUnsignedDecimal(t);
    ParsePlain(t, FromRadix(t, 10));
    FromRadixLeadingZero(s, 10);
    FromToRadix(n, 10);
  }

  /** Figures below 100 are always exactly two digits. */
  lemma FormatTwoDigits(n: nat)
    requires n < 100
    ensures |FormatNumber(n)| == 2
  {
    if n >= 10 {
      DivMod(n, 10);
      assert n / 10 < 10;
      ToRadixStep(n, 10);
    }
  }

  /** The grid length: whole weeks covering the leading blanks and the days. */
  function TotalCells(first: nat, daysInMonth: nat): (n: nat)
    ensures n % 7 == 0
    ensures first + daysInMonth <= n < first + daysInMonth + 7
  {
    (first + daysInMonth + 6) / 7 * 7
  }

  /** Cell i of the grid: its day of the month, or nothing. */
  function Cell(first: nat, daysInMonth: nat, i: nat): (c: Option<int>)
  {
    var dayNum := i - first + 1;
    if dayNum > 0 && dayNum <= daysInMonth then Some(dayNum) else None
  }

  /** calendarData.days. */
  function CalendarDays(first: nat, daysInMonth: nat): (r: seq<Option<int>>)
    ensures |r| == TotalCells(first, daysInMonth)
    ensures forall i :: 0 <= i < first && i < |r| ==> r[i].None?
    ensures forall d :: 1 <= d <= daysInMonth ==> r[first + d - 1] == Some(d)
    ensures forall i :: first + daysInMonth <= i < |r| ==> r[i].None?
    ensures forall i :: 0 <= i < |r| ==> r[i].Some? ==> 1 <= r[i].value <= daysInMonth
  {
    seq(TotalCells(first, daysInMonth), i requires 0 <= i => Cell(first, daysInMonth, i))
  }

  predicate IsDay(c: Option<int>) { c.Some? }

  /** The grid holds exactly daysInMonth days, in increasing order. */
  lemma CalendarHoldsEveryDay(first: nat, daysInMonth: nat)
    ensures var r := CalendarDays(first, daysInMonth);
            && Count(r, IsDay) == daysInMonth
            && forall i, j :: 0 <= i < j < |r| && r[i].Some? && r[j].Some? ==> r[i].value < r[j].value
  {
    var r := CalendarDays(first, daysInMonth);
    var end := first + daysInMonth;
    var lead, days, trail := r[..first], r[first..end], r[end..];
    assert r == lead + days + trail;
    assert forall i :: 0 <= i < |lead| ==> !IsDay(lead[i]) by {
      forall i | 0 <= i < |lead| ensures !IsDay(lead[i]) {
        assert lead[i] == r[i];
      }
    }
    assert forall i :: 0 <= i < |days| ==> IsDay(days[i]) by {
      forall i | 0 <= i < |days| ensures IsDay(days[i]) {
        assert days[i] == r[first + (i + 1) - 1];
      }
    }
    assert forall i :: 0 <= i < |trail| ==> !IsDay(trail[i]) by {
      forall i | 0 <= i < |trail| ensures !IsDay(trail[i]) {
        assert trail[i] == r[end + i];
      }
    }
    CountParts(lead, days, trail);
    forall i, j | 0 <= i < j < |r| && r[i].Some? && r[j].Some? ensures r[i].value < r[j].value {
      assert r[i] == Cell(first, daysInMonth, i) && r[j] == Cell(first, daysInMonth, j);
    }
  }

  lemma CountParts(lead: seq<Option<int>>, days: seq<Option<int>>, trail: seq<Option<int>>)
    requires forall i :: 0 <= i < |lead| ==> !IsDay(lead[i])
    requires forall i :: 0 <= i < |days| ==> IsDay(days[i])
    requires forall i :: 0 <= i < |trail| ==> !IsDay(trail[i])
    ensures Count(lead + days + trail, IsDay) == |days|
  {
    FilterAppend(lead + days, trail, IsDay);
    FilterAppend(lead, days, IsDay);
    FilterNone(lead, IsDay);
    FilterAll(days, IsDay);
    FilterNone(trail, IsDay);
  }

  /** `d === weddingDay`: the cell that is highlighted. */
  predicate Highlighted(c: Option<int>, weddingDay: int) { c.Some? && c.value == weddingDay }

  /** A wedding day inside the month is highlighted in exactly one cell, at
      its place in the grid; any other wedding day in none. */
  lemma HighlightedOnce(first: nat, daysInMonth: nat, weddingDay: int)
    ensures var r := CalendarDays(first, daysInMonth);
            && (1 <= weddingDay <= daysInMonth ==>
                  forall i :: 0 <= i < |r| ==> (Highlighted(r[i], weddingDay) <==> i == first + weddingDay - 1))
            && (!(1 <= weddingDay <= daysInMonth) ==> forall i :: 0 <= i < |r| ==> !Highlighted(r[i], weddingDay))
  {
    var r := CalendarDays(first, daysInMonth);
    forall i | 0 <= i < |r| ensures Highlighted(r[i], weddingDay) <==> r[i] == Cell(first, daysInMonth, i) && i == first + weddingDay - 1 && 1 <= weddingDay <= daysInMonth {
      assert r[i] == Cell(first, daysInMonth, i);
    }
  }

  const MonthNames: seq<string> := ["January", "February", "March", "April", "May", "June", "July",
                                    "August", "September", "October", "November", "December"]

  /** `monthNames[month]` for the zero-based month the Date library gives. */
  function MonthName(month: nat): (r: string)
    requires month < 12
    ensures r == MonthNames[month]
    ensures r != []
  {
    MonthNames[month]
  }
}
