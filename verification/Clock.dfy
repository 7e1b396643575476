/** What Schedule.Next asks of the clock of a location: calendar fields of an instant (in whole
    seconds) and the instant of a date. The laws say that units nest and follow each other without
    gaps, which is where a location with daylight saving time would fail. */
module Clocks {

  // A calendar date and a time of day. A month or a day beyond its range runs on into the next one.
  datatype Civil = Civil(year: int, month: int, day: int, hour: int, minute: int, second: int)

  datatype Clock = Clock(read: int -> Civil, write: Civil -> int, weekday: int -> int) {

    function Year(t: int): int { read(t).year }
    function Month(t: int): int { read(t).month }
    function Day(t: int): int { read(t).day }
    function Hour(t: int): int { read(t).hour }
    function Minute(t: int): int { read(t).minute }
    function Second(t: int): int { read(t).second }

    function AddMonth(t: int): int { write(read(t).(month := Month(t) + 1)) }
    function YearEnd(y: int): int { write(Civil(y + 1, 1, 1, 0, 0, 0)) }

    // Truncation to the start of a unit.
    function MonthFloor(t: int): int { write(read(t).(day := 1, hour := 0, minute := 0, second := 0)) }
    function DayFloor(t: int): int { write(read(t).(hour := 0, minute := 0, second := 0)) }
    function HourFloor(t: int): int { write(read(t).(minute := 0, second := 0)) }
    function MinuteFloor(t: int): int { write(read(t).(second := 0)) }

    ghost predicate SameMonth(t: int, u: int) { Month(t) == Month(u) && Year(t) == Year(u) }
    ghost predicate SameDay(t: int, u: int) { SameMonth(t, u) && Day(t) == Day(u) && weekday(t) == weekday(u) }
    ghost predicate SameHour(t: int, u: int) { SameDay(t, u) && Hour(t) == Hour(u) }
    ghost predicate SameMinute(t: int, u: int) { SameHour(t, u) && Minute(t) == Minute(u) }

    ghost predicate MonthLaw(t: int) {
      var f := MonthFloor(t);
      var n := AddMonth(f);
      && f <= t < n
      && (forall u :: f <= u < n ==> SameMonth(t, u))
      && n == MonthFloor(n)
      && (Month(n) != 1 ==> Year(n) == Year(t))
      && (t == f ==> t == DayFloor(t))
    }

    ghost predicate DayLaw(t: int) {
      var f := DayFloor(t);
      var n := f + 86400;
      && f <= t < n
      && (forall u :: f <= u < n ==> SameDay(t, u))
      && n == DayFloor(n)
      && (if Day(n) == 1 then n == MonthFloor(n) else SameMonth(t, n))
      && (t == f ==> t == HourFloor(t))
    }

    ghost predicate HourLaw(t: int) {
      var f := HourFloor(t);
      var n := f + 3600;
      && f <= t < n
      && (forall u :: f <= u < n ==> SameHour(t, u))
      && n == HourFloor(n)
      && (if Hour(n) == 0 then n == DayFloor(n) else SameDay(t, n))
      && (t == f ==> t == MinuteFloor(t))
    }

    ghost predicate MinuteLaw(t: int) {
      var f := MinuteFloor(t);
      var n := f + 60;
      && f <= t < n
      && (forall u :: f <= u < n ==> SameMinute(t, u))
      && n == MinuteFloor(n)
      && (if Minute(n) == 0 then n == HourFloor(n) else SameHour(t, n))
    }

    ghost predicate SecondLaw(t: int) {
      && t == write(read(t))
      && (if Second(t + 1) == 0 then t + 1 == MinuteFloor(t + 1) else SameMinute(t, t + 1))
    }

    ghost predicate YearLaw(t: int, y: int) {
      Year(t) <= y <==> t < YearEnd(y)
    }

    ghost predicate LawfulAt(t: int) {
      && MonthLaw(t) && DayLaw(t) && HourLaw(t) && MinuteLaw(t) && SecondLaw(t)
      && forall y :: YearLaw(t, y)
    }

    ghost predicate Lawful() {
      forall t :: LawfulAt(t)
    }
  }
}
