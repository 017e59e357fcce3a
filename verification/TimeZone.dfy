/** A time zone as offset transitions, and the two conversions that `session_timestamps` and
    `_rematerialize_future` make: wall clock to UTC with `fold=0` (PEP 495), and UTC to wall clock.

    Wall-clock readings are instants too: microseconds from midnight at the start of local day 0.
 */
module TimeZone {
  import opened Basics
  import opened Calendar

  /** From the instant `at` on, the wall clock is `offset` ahead of UTC. */
  datatype Transition = Transition(at: int, offset: int)

  datatype Zone = Zone(base: int, changes: seq<Transition>) {

    /** The offset after the first `k` transitions. */
    function Offset(k: nat): int
      requires k <= |changes|
    {
      if k == 0 then base else changes[k - 1].offset
    }

    /** The first wall reading, with `fold=0`, that uses the offset of transition `k`: the end of the gap when
        the clock springs forward, and the end of the repeated stretch when it falls back. */
    function WallSwitch(k: nat): int
      requires k < |changes|
    {
      changes[k].at + Max(Offset(k), Offset(k + 1))
    }

    /** Transitions are more than two days apart, no two offsets are a day or more apart, and the wall readings
        that a spring-forward skips or lands on lie inside one local day. */
    ghost predicate Regular() {
      && (forall j, k | 0 <= j < k < |changes| :: changes[j].at + 2 * DAY < changes[k].at)
      && (forall j, k | 0 <= j <= |changes| && 0 <= k <= |changes| :: Offset(j) - Offset(k) < DAY)
      && (forall k | 0 <= k < |changes| :: ClearOfMidnight(k))
    }

    predicate ClearOfMidnight(k: nat)
      requires k < |changes|
    {
      Offset(k) < Offset(k + 1) ==>
          DayOf(changes[k].at + Offset(k)) == DayOf(changes[k].at + 2 * Offset(k + 1) - Offset(k))
    }

    /** How many transitions have happened at an instant: `bisect_right` on their UTC times. */
    function Passed(utc: int, n: nat := |changes|): (k: nat)
      requires n <= |changes|
      ensures k <= n
      ensures k > 0 ==> changes[k - 1].at <= utc
      ensures k < n ==> utc < changes[k].at
    {
      if n == 0 then 0 else if changes[n - 1].at <= utc then n else Passed(utc, n - 1)
    }

    /** How many transitions a wall reading is past, with `fold=0`. */
    function WallPassed(wall: int, n: nat := |changes|): (k: nat)
      requires n <= |changes|
      ensures k <= n
      ensures k > 0 ==> WallSwitch(k - 1) <= wall
      ensures k < n ==> wall < WallSwitch(k)
    {
      if n == 0 then 0 else if WallSwitch(n - 1) <= wall then n else WallPassed(wall, n - 1)
    }

    /** `datetime.replace(tzinfo=zone).astimezone(UTC)`. */
    function ToUtc(wall: int): int { wall - Offset(WallPassed(wall)) }

    /** `datetime.astimezone(zone)`, without its time zone. */
    function ToWall(utc: int): int { utc + Offset(Passed(utc)) }

    /** `starts_at.astimezone(zone).date()`. */
    function LocalDate(utc: int): int { DayOf(ToWall(utc)) }

    /** A wall reading that a spring-forward skips. */
    predicate InGap(k: nat, wall: int)
      requires k < |changes|
    {
      changes[k].at + Offset(k) <= wall < changes[k].at + Offset(k + 1)
    }
  }

  lemma TransitionOrder(z: Zone, k: nat)
    requires z.Regular() && k + 1 < |z.changes|
    ensures z.changes[k].at + 2 * DAY < z.changes[k + 1].at
  {
  }

  lemma OffsetsWithinADay(z: Zone, j: nat, k: nat)
    requires z.Regular() && j <= |z.changes| && k <= |z.changes|
    ensures z.Offset(j) - z.Offset(k) < DAY
  {
  }

  lemma PassedUnique(z: Zone, utc: int, k: nat)
    requires z.Regular() && k <= |z.changes|
    requires k > 0 ==> z.changes[k - 1].at <= utc
    requires k < |z.changes| ==> utc < z.changes[k].at
    ensures z.Passed(utc) == k
  {
  }

  /** UTC and back: a wall reading comes back as itself, or moved out of the gap it fell in. */
  lemma WallRoundTrip(z: Zone, wall: int)
    requires z.Regular()
    ensures var k := z.WallPassed(wall);
            z.ToWall(z.ToUtc(wall)) ==
            wall + if k < |z.changes| && z.InGap(k, wall) then z.Offset(k + 1) - z.Offset(k) else 0
  {
    hide Zone.Regular;
    var k := z.WallPassed(wall);
    var utc := z.ToUtc(wall);
    var n := |z.changes|;
    if k < n && z.InGap(k, wall) {
      OffsetsWithinADay(z, k + 1, k);
      if k + 1 < n {
        TransitionOrder(z, k);
      }
      PassedUnique(z, utc, k + 1);
    } else {
      PassedUnique(z, utc, k);
    }
  }

  /** A wall reading that no spring-forward skips is kept: sessions start and end at the template's hours. */
  lemma KeptOutsideGaps(z: Zone, wall: int)
    requires z.Regular() && forall k | 0 <= k < |z.changes| :: !z.InGap(k, wall)
    ensures z.ToWall(z.ToUtc(wall)) == wall
  {
    hide Zone.Regular, Zone.InGap;
    WallRoundTrip(z, wall);
  }

  /** A wall reading that comes twice means its first time (`fold=0`). */
  lemma FirstOfTwo(z: Zone, utc: int)
    requires z.Regular()
    ensures z.ToUtc(z.ToWall(utc)) <= utc
  {
    hide Zone.Regular;
    var wall := z.ToWall(utc);
    var k, i := z.Passed(utc), z.WallPassed(wall);
    if i < k {
      OffsetsWithinADay(z, i, k);
      OffsetsWithinADay(z, i + 1, k);
      if i + 1 < k {
        WallSwitchesApart(z, i, k - 1);
        OffsetsWithinADay(z, k - 1, k);
      }
    } else if k < i {
      if k + 1 < i {
        WallSwitchesApart(z, k, i - 1);
      }
    }
  }

  lemma GapClearOfMidnight(z: Zone, k: nat, wall: int)
    requires z.Regular() && k < |z.changes| && z.InGap(k, wall)
    ensures DayOf(wall + z.Offset(k + 1) - z.Offset(k)) == DayOf(wall)
  {
    hide DayOf;
    var lo, hi := z.changes[k].at + z.Offset(k), z.changes[k].at + 2 * z.Offset(k + 1) - z.Offset(k);
    assert z.ClearOfMidnight(k);
    var moved := wall + z.Offset(k + 1) - z.Offset(k);
    DayOfMonotone(lo, wall);
    DayOfMonotone(wall, moved);
    DayOfMonotone(moved, hi);
  }

  /** Turning a session's local date and time into UTC and back gives the same local date. */
  lemma DateRoundTrip(z: Zone, wall: int)
    requires z.Regular()
    ensures z.LocalDate(z.ToUtc(wall)) == DayOf(wall)
  {
    hide Zone.Regular, Zone.ToUtc, Zone.ToWall, DayOf;
    WallRoundTrip(z, wall);
    var k := z.WallPassed(wall);
    if k < |z.changes| && z.InGap(k, wall) {
      GapClearOfMidnight(z, k, wall);
    }
  }

  lemma DayOfMonotone(a: int, b: int)
    requires a <= b
    ensures DayOf(a) <= DayOf(b)
  {
  }

  /** The same time of day on a later date is a later instant. */
  lemma LaterDatesStartLater(z: Zone, a: int, b: int)
    requires z.Regular()
    requires a + DAY <= b
    ensures z.ToUtc(a) < z.ToUtc(b)
  {
  }

  lemma WallSwitchesApart(z: Zone, j: nat, k: nat)
    requires z.Regular() && j < k < |z.changes|
    ensures z.WallSwitch(j) + DAY < z.WallSwitch(k)
  {
  }

  lemma GapIndex(z: Zone, wall: int, k: nat)
    requires z.Regular() && k < |z.changes| && z.InGap(k, wall)
    ensures z.WallPassed(wall) == k
  {
    hide Zone.Regular;
    var i := z.WallPassed(wall);
    OffsetsWithinADay(z, k + 1, k);
    if k < i - 1 {
      WallSwitchesApart(z, k, i - 1);
    } else if i < k {
      WallSwitchesApart(z, i, k);
    }
  }

  /** At most one transition separates two wall readings less than a day apart. */
  lemma NextSwitch(z: Zone, start: int, end: int)
    requires z.Regular()
    requires start < end < start + DAY
    ensures z.WallPassed(end) - z.WallPassed(start) in {0, 1}
  {
    hide Zone.Regular, Zone.WallSwitch;
    var i, j := z.WallPassed(start), z.WallPassed(end);
    if j + 1 < i {
      WallSwitchesApart(z, j, i - 1);
    } else if i + 1 < j {
      WallSwitchesApart(z, i, j - 1);
    }
  }

  /** A session is lost to a spring-forward when its start falls in the gap, its end is past the gap by wall clock,
      and there is no more wall time between them than the clock skipped. */
  predicate LostInGap(z: Zone, k: nat, start: int, end: int)
    requires k < |z.changes|
  {
    && z.InGap(k, start)
    && z.changes[k].at + z.Offset(k + 1) <= end
    && end - start <= z.Offset(k + 1) - z.Offset(k)
  }

  ghost predicate Lost(z: Zone, start: int, end: int) {
    exists k :: 0 <= k < |z.changes| && LostInGap(z, k, start, end)
  }

  /** Within one local day the end instant is after the start instant, unless a spring-forward swallows the session. */
  lemma EndAfterStart(z: Zone, start: int, end: int)
    requires z.Regular()
    requires start < end < start + DAY
    ensures z.ToUtc(start) < z.ToUtc(end) <==> !Lost(z, start, end)
  {
    hide Zone.Regular;
    NextSwitch(z, start, end);
    var i, j := z.WallPassed(start), z.WallPassed(end);
    forall k | 0 <= k < |z.changes| && LostInGap(z, k, start, end)
      ensures k == i && j == i + 1
    {
      GapIndex(z, start, k);
    }
    if j == i + 1 && z.ToUtc(end) <= z.ToUtc(start) {
      assert LostInGap(z, i, start, end);
    }
  }

  const HOUR: int := 3_600_000_000
  const MINUTE: int := 60_000_000

  /** Clocks two hours ahead of UTC spring forward at 02:00: a session from 02:10 to 03:05 on that night would end
      five minutes before it starts. */
  lemma SwallowedSession()
    ensures var z := Zone(2 * HOUR, [Transition(1000 * DAY, 3 * HOUR)]);
            var start, end := 1000 * DAY + 2 * HOUR + 10 * MINUTE, 1000 * DAY + 3 * HOUR + 5 * MINUTE;
            z.Regular() && DayOf(start) == DayOf(end) && start < end && z.ToUtc(end) == z.ToUtc(start) - 5 * MINUTE
  {
    var z := Zone(2 * HOUR, [Transition(1000 * DAY, 3 * HOUR)]);
    assert z.Offset(0) == 2 * HOUR && z.Offset(1) == 3 * HOUR;
    assert z.WallSwitch(0) == 1000 * DAY + 3 * HOUR;
  }
}
