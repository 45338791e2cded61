/**
 * libeos-payg/service.c: when the wall clock is set, the service compares how far both
 * clocks moved since the last comparison and reports the difference.
 */
module ClockJump {
  import opened Integers
  import opened ManagerState

  /** The jump that happened between two pairs of readings. */
  function Delta(before: Clock, after: Clock): int {
    (after.wall - before.wall) - (after.boot - before.boot)
  }

  /** How far the wall clock is ahead of the boot clock. */
  function Offset(clock: Clock): int {
    clock.wall - clock.boot
  }

  function SumOfDeltas(readings: seq<Clock>): int {
    if |readings| < 2 then 0
    else SumOfDeltas(readings[..|readings| - 1]) + Delta(readings[|readings| - 2], readings[|readings| - 1])
  }

  /** However many jumps are reported, their sum is the total change of the offset. */
  lemma {:induction false} DeltasTelescope(readings: seq<Clock>)
    requires readings != []
    ensures SumOfDeltas(readings) == Offset(readings[|readings| - 1]) - Offset(readings[0])
  {
    if |readings| < 2 {
    } else {
      DeltasTelescope(readings[..|readings| - 1]);
    }
  }

  /** The fields of EpgService that the callback reads and overwrites. */
  class JumpDetector {
    var realtimeV0: Seconds
    var boottimeV0: Seconds
    ghost var readings: seq<Clock>

    ghost predicate Valid()
      reads this
    {
      readings != [] && readings[|readings| - 1] == Clock(boottimeV0, realtimeV0)
    }

    constructor Init(clock: Clock)
      ensures Valid() && readings == [clock]
    {
      realtimeV0, boottimeV0, readings := clock.wall, clock.boot, [clock];
    }

    /** The provider is told about the jump only if it is not zero. */
    method ClockJumpCb(clock: Clock) returns (delta: int)
      requires Valid()
      modifies this
      ensures Valid() && readings == old(readings) + [clock]
      ensures delta == Delta(Clock(old(boottimeV0), old(realtimeV0)), clock)
      ensures SumOfDeltas(readings) == SumOfDeltas(old(readings)) + delta
      ensures realtimeV0 == clock.wall && boottimeV0 == clock.boot
    {
      delta := (clock.wall - realtimeV0) - (clock.boot - boottimeV0);
      realtimeV0 := clock.wall;
      boottimeV0 := clock.boot;
      readings := readings + [clock];
      assert readings[..|readings| - 1] == old(readings);
    }
  }
}
