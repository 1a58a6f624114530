/** Elapsed time since a store was created, in whole seconds, and the day and
    hour counters derived from it. The source divides an `f64` number of
    seconds and casts the floor with `as u32` / `as u16`, which saturates. */
module Elapsed {
  import opened Base

  const SECS_PER_DAY: nat := 86400
  const SECS_PER_HOUR: nat := 3600

  /** `(secs / 86400.0).floor() as u32`. */
  function DayOf(secs: nat): (d: u32)
    ensures d * SECS_PER_DAY <= secs
    ensures secs < (U32_MAX + 1) * SECS_PER_DAY ==> d == secs / SECS_PER_DAY
  {
    Saturate(secs / SECS_PER_DAY, U32_MAX)
  }

  /** `((secs - day * 86400.0) / 3600.0).floor() as u16`: the hour within the day. */
  function HourOf(secs: nat): (h: u16)
    ensures secs < (U32_MAX + 1) * SECS_PER_DAY ==> h == (secs % SECS_PER_DAY) / SECS_PER_HOUR && h < 24
  {
    Saturate((secs - DayOf(secs) * SECS_PER_DAY) / SECS_PER_HOUR, U16_MAX)
  }

  /** Later calls never see an earlier day. */
  lemma DayOfMonotone(s: nat, t: nat)
    requires s <= t
    ensures DayOf(s) <= DayOf(t)
  {
    assert s / SECS_PER_DAY <= t / SECS_PER_DAY;
  }
}
