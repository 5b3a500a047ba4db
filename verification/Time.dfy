/** Times as the kernel sends them, and as points on a line of nanoseconds around the epoch. */
module Time {
  const MAX: int := 0x7FFF_FFFF_FFFF_FFFF
  const MIN: int := -0x8000_0000_0000_0000

  // Every operation below stays within the width it is computed in.
  newtype I64 = x: int | -0x8000_0000_0000_0000 <= x < 0x8000_0000_0000_0000
  newtype U64 = x: int | 0 <= x < 0x1_0000_0000_0000_0000
  newtype U32 = x: int | 0 <= x < 0x1_0000_0000

  const NANOS: U32 := 1_000_000_000
  const BILLION: int := 1_000_000_000

  datatype Duration = Duration(secs: U64, nanos: U32)

  function Length(d: Duration): int { d.secs as int * BILLION + d.nanos as int }

  /** A system clock's reading: a distance from the epoch, after it or before it. A distance is
      normalized, and the epoch itself is not before itself. */
  datatype SystemTime = Since(d: Duration) | Before(d: Duration)

  predicate Normal(t: SystemTime) {
    t.d.nanos < NANOS && (t.Before? ==> t.d != Duration(0, 0))
  }

  function Point(t: SystemTime): int { if t.Since? then Length(t.d) else -Length(t.d) }

  /** Seconds and nanoseconds, the latter counting forward from the second. */
  datatype Stamp = Stamp(secs: I64, nanos: U32)

  function Value(s: Stamp): int { s.secs as int * BILLION + s.nanos as int }

  function TimeFromSystemTime(t: SystemTime): Stamp
    requires Normal(t)
  {
    match t
    case Since(d) =>
      if d.secs as int <= MAX then Stamp(d.secs as I64, d.nanos) else Stamp(MAX as I64, 999_999_999)
    case Before(d) =>
      if d.secs as int >= MAX + 1 then Stamp(MIN as I64, 0)
      else if d.nanos == 0 then Stamp(-(d.secs as I64), 0)
      else Stamp(-(d.secs as I64) - 1, NANOS - d.nanos)
  }

  function UnsignedAbs(x: I64): U64 { if x < 0 then (-(x as int)) as U64 else x as U64 }

  function SystemTimeFromTime(secs: I64, nsecs: U32): SystemTime {
    var nsecs := if nsecs > 999_999_999 then 999_999_999 else nsecs;
    if secs >= 0 then Since(Duration(secs as U64, nsecs))
    else if nsecs == 0 then Before(Duration(UnsignedAbs(secs), 0))
    else Before(Duration(UnsignedAbs(secs) - 1, NANOS - nsecs))
  }

  /** The point a stamp from the kernel stands for is the one it counts to, and malformed
      nanoseconds are cut to the last of the second. */
  lemma PointOfTime(secs: I64, nsecs: U32)
    ensures Point(SystemTimeFromTime(secs, nsecs))
            == secs as int * BILLION + if nsecs < NANOS then nsecs as int else BILLION - 1
    ensures Normal(SystemTimeFromTime(secs, nsecs))
  {
  }

  function Clamped(x: int): int {
    var lo, hi := MIN * BILLION, MAX * BILLION + (BILLION - 1);
    if x < lo then lo else if x > hi then hi else x
  }

  /** On every time there is, conversion is the clamp to the representable range. */
  lemma TimeIsClamped(t: SystemTime)
    requires Normal(t)
    ensures Value(TimeFromSystemTime(t)) == Clamped(Point(t)) && TimeFromSystemTime(t).nanos < NANOS
  {
  }

  /** The two conversions undo each other: on every well-formed stamp, and on every time in
      the representable range. */
  lemma RoundTrip(secs: I64, nsecs: U32)
    requires nsecs < NANOS
    ensures Normal(SystemTimeFromTime(secs, nsecs))
    ensures TimeFromSystemTime(SystemTimeFromTime(secs, nsecs)) == Stamp(secs, nsecs)
  {
  }

  lemma RoundTripBack(t: SystemTime)
    requires Normal(t)
    ensures var s := TimeFromSystemTime(t);
            SystemTimeFromTime(s.secs, s.nanos) == t <==> Clamped(Point(t)) == Point(t)
  {
  }

  predicate AtMost(a: Stamp, b: Stamp) { a.secs < b.secs || (a.secs == b.secs && a.nanos <= b.nanos) }

  /** Earlier times never get later stamps. */
  lemma OrderIsKept(t: SystemTime, u: SystemTime)
    requires Normal(t) && Normal(u) && Point(t) <= Point(u)
    ensures AtMost(TimeFromSystemTime(t), TimeFromSystemTime(u))
  {
  }
}
