/** Relative times: seconds and microseconds in the source, one number of microseconds here. */
module Reltime {
  datatype Time = Time(sec: int, usec: int)

  function Micros(t: Time): int {
    t.sec * 1_000_000 + t.usec
  }

  predicate Elapsed(now: int, at: int, secs: int) {
    now - at > secs * 1_000_000
  }

  /** os_reltime_sub */
  function Sub(a: Time, b: Time): Time {
    if a.usec < b.usec then Time(a.sec - b.sec - 1, a.usec - b.usec + 1_000_000)
    else Time(a.sec - b.sec, a.usec - b.usec)
  }

  /** os_reltime_expired compares the age's two parts; that is comparing microseconds. */
  lemma ElapsedByParts(now: Time, at: Time, secs: int)
    requires 0 <= now.usec < 1_000_000 && 0 <= at.usec < 1_000_000
    ensures var age := Sub(now, at);
      Elapsed(Micros(now), Micros(at), secs) <==> age.sec > secs || (age.sec == secs && age.usec > 0)
  {
  }
}
