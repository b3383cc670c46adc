/**
  Instants and the browser's civil time. An instant is a count of minutes since
  the epoch in UTC; the browser's time zone is a constant offset `zone` in
  minutes east of UTC. The date input yields a day number (days since the
  epoch) and the time input a minute of the day.
 */
module Clock {

  const MinutesPerDay: int := 1440

  /** `new Date(`${date}T${time}`)`: a local date and time read in the browser's zone. */
  function LocalInstant(day: int, minute: int, zone: int): int {
    day * MinutesPerDay + minute - zone
  }

  /** The day of `toISOString().split('T')[0]`: the calendar day in UTC. */
  function UtcDay(t: int): int {
    t / MinutesPerDay
  }

  /** The calendar day of `t` in the browser's zone. */
  function LocalDay(t: int, zone: int): int {
    (t + zone) / MinutesPerDay
  }

  /** The `HH:MM` of `toLocaleTimeString(...)`: minutes after local midnight. */
  function LocalMinute(t: int, zone: int): (m: int)
    ensures 0 <= m < MinutesPerDay
  {
    (t + zone) % MinutesPerDay
  }

  /** Reading back the local day and minute of an instant gives the instant. */
  lemma LocalRoundTrip(t: int, zone: int)
    ensures LocalInstant(LocalDay(t, zone), LocalMinute(t, zone), zone) == t
  {
    var u := t + zone;
    assert u == (u / MinutesPerDay) * MinutesPerDay + u % MinutesPerDay;
  }

  /** Mixing the UTC day with the local minute gives the instant back only when both calendars agree on the day. */
  lemma MixedRoundTrip(t: int, zone: int)
    ensures LocalInstant(UtcDay(t), LocalMinute(t, zone), zone) == t + (UtcDay(t) - LocalDay(t, zone)) * MinutesPerDay
    ensures LocalInstant(UtcDay(t), LocalMinute(t, zone), zone) == t <==> UtcDay(t) == LocalDay(t, zone)
  {
    LocalRoundTrip(t, zone);
    assert LocalInstant(UtcDay(t), LocalMinute(t, zone), zone)
      == LocalInstant(LocalDay(t, zone), LocalMinute(t, zone), zone) + (UtcDay(t) - LocalDay(t, zone)) * MinutesPerDay;
  }
}
