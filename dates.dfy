/**
  Calendar days. The source passes dates around as 'Y-m-d' strings and uses
  PHP's DateTime to step them; here a date is the number of days since
  1970-01-01, which was a Thursday. Comparing day numbers agrees with
  comparing 'Y-m-d' strings.
 */
module Dates {

  type Day = int

  /** ISO-8601 day of the week, as PHP's date('N'): 1 = Monday, ..., 7 = Sunday. */
  function IsoWeekday(d: Day): (n: int)
    ensures 1 <= n <= 7
    ensures d % 7 == 4 ==> n == 1
  {
    (d + 3) % 7 + 1
  }

  /** Saturday or Sunday: the days the destination is configured to refuse. */
  predicate IsWeekend(d: Day)
  {
    IsoWeekday(d) >= 6
  }

  /** Of two days in a row after a weekend day, at least one is a weekday. */
  lemma WeekendIsAtMostTwoDays(d: Day)
    ensures !(IsWeekend(d) && IsWeekend(d + 1) && IsWeekend(d + 2))
  {
  }

  /** The first weekday strictly after `d`. */
  function NextWorkday(d: Day): (r: Day)
    ensures d < r <= d + 3
    ensures !IsWeekend(r)
    ensures forall k :: d < k < r ==> IsWeekend(k)
  {
    WeekendIsAtMostTwoDays(d + 1);
    if !IsWeekend(d + 1) then d + 1
    else if !IsWeekend(d + 2) then d + 2
    else d + 3
  }

  /** The last weekday strictly before `d`. */
  function PrevWorkday(d: Day): (r: Day)
    ensures d - 3 <= r < d
    ensures !IsWeekend(r)
    ensures forall k :: r < k < d ==> IsWeekend(k)
  {
    WeekendIsAtMostTwoDays(d - 3);
    if !IsWeekend(d - 1) then d - 1
    else if !IsWeekend(d - 2) then d - 2
    else d - 3
  }

  /** Stepping forward to the next weekday and back again returns to a weekday. */
  lemma PrevOfNextWorkday(d: Day)
    requires !IsWeekend(d)
    ensures PrevWorkday(NextWorkday(d)) == d
  {
  }

  /** Stepping back to the previous weekday and forward again returns to a weekday. */
  lemma NextOfPrevWorkday(d: Day)
    requires !IsWeekend(d)
    ensures NextWorkday(PrevWorkday(d)) == d
  {
  }

  /** The two arguments the source passes to modifyDateString: '+1 day' and '-1 day'. */
  datatype Step = Forward | Backward

  /**
    Moves one day in the given direction, then keeps moving while the day
    is a weekend (a do-while loop). The result is the nearest weekday
    strictly after (Forward) or strictly before (Backward) the input.
   */
  method ModifyDateString(date: Day, step: Step) returns (r: Day)
    ensures step == Forward ==> r == NextWorkday(date)
    ensures step == Backward ==> r == PrevWorkday(date)
  {
    var delta := if step == Forward then 1 else -1;
    r := date + delta;
    while IsWeekend(r)
      invariant step == Forward ==> date < r <= NextWorkday(date)
      invariant step == Forward ==> forall k :: date < k < r ==> IsWeekend(k)
      invariant step == Backward ==> PrevWorkday(date) <= r < date
      invariant step == Backward ==> forall k :: r < k < date ==> IsWeekend(k)
      decreases if step == Forward then NextWorkday(date) - r else r - PrevWorkday(date)
    {
      r := r + delta;
    }
  }
}
