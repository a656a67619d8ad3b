/**
 * The presentation-date offset computed by `confirm_slots`: how many days after "today"
 * the booked occurrence lies. Weekdays are Python's `datetime.weekday()` indices,
 * 0 = Monday .. 6 = Sunday. The code computes `3 - weekday`, so the occurrence weekday
 * is 3 (Thursday), although the surrounding comment and messages speak of Wednesday (2).
 */
module Occurrence {

  type Weekday = w: int | 0 <= w <= 6

  /** The weekday the offset arithmetic lands on. */
  const EventWeekday: Weekday := 3

  /** `CronTrigger(day_of_week="tue", ...)`: the reminder job runs on Tuesdays. */
  const ReminderWeekday: Weekday := 1

  /** The weekday `days` days after `today`. */
  function WeekdayAfter(today: Weekday, days: int): Weekday {
    (today + days) % 7
  }

  /** Days from `today` to the next event weekday, strictly in the future. */
  function DaysAhead(today: Weekday): (d: int)
    ensures 1 <= d <= 7
    ensures WeekdayAfter(today, d) == EventWeekday
    ensures forall k :: 1 <= k < d ==> WeekdayAfter(today, k) != EventWeekday
  {
    var d := 3 - today;
    if d <= 0 then d + 7 else d
  }

  /** Signing up on the event weekday itself books the following week, never today. */
  lemma OnEventDayBooksNextWeek()
    ensures DaysAhead(EventWeekday) == 7
  {
  }

  /**
   * The reminder job asks for signups dated "tomorrow" as seen on its Tuesday run, i.e. a
   * Wednesday; the offset above always yields a Thursday, so the two weekdays never agree.
   */
  lemma ReminderDayMissesBookedDay(today: Weekday)
    ensures WeekdayAfter(today, DaysAhead(today)) != WeekdayAfter(ReminderWeekday, 1)
  {
  }
}
