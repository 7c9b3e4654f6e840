/** The frame clock (src/simulation.rs): the simulated window [time, nextTime]
    and the wall-clock pacing of frames. The system clock is a parameter. */
module Simulation {

  /** The shortest wall-clock frame, in milliseconds. */
  const FRAME_TIME_CAP: int := 16

  function Max(a: int, b: int): int { if a >= b then a else b }

  /** How long `advance_time` sleeps: what is left of the frame's budget since
      the last frame, never negative. */
  function MsToSleep(currentTime: int, lastSimulated: int): int
  {
    Max(0, FRAME_TIME_CAP - (currentTime - lastSimulated))
  }

  /** The sleep is never negative, is at most one frame when the clock has not
      gone backwards, and ends at the later of now and the end of the frame's
      budget. */
  lemma MsToSleepBounds(currentTime: int, lastSimulated: int)
    ensures MsToSleep(currentTime, lastSimulated) >= 0
    ensures currentTime >= lastSimulated ==> MsToSleep(currentTime, lastSimulated) <= FRAME_TIME_CAP
    ensures currentTime + MsToSleep(currentTime, lastSimulated)
            == Max(currentTime, lastSimulated + FRAME_TIME_CAP)
    ensures currentTime - lastSimulated >= FRAME_TIME_CAP ==> MsToSleep(currentTime, lastSimulated) == 0
  {
  }

  /** The `SimulationConfig` resource. */
  class SimulationConfig {
    var timeDelta: real

    constructor (timeDelta: real)
      ensures this.timeDelta == timeDelta
    {
      this.timeDelta := timeDelta;
    }

    /** `adjust_simulation_speed`: scales the simulated time per frame. */
    method AdjustSimulationSpeed(factor: real)
      modifies this
      ensures timeDelta == old(timeDelta) * factor
    {
      timeDelta := timeDelta * factor;
    }
  }

  /** The `SimulationData` resource. */
  class SimulationData {
    var time: real
    var nextTime: real
    var lastSimulated: int

    /** `init_simulation`: the first window is [0, time_delta]; `now` is the
        wall clock in milliseconds. */
    constructor Init(config: SimulationConfig, now: int)
      ensures time == 0.0 && nextTime == config.timeDelta && lastSimulated == now
      ensures nextTime - time == config.timeDelta
    {
      time := 0.0;
      nextTime := config.timeDelta;
      lastSimulated := now;
    }

    /** The window spans one step of simulated time. */
    ghost predicate Window(config: SimulationConfig)
      reads this, config
    {
      nextTime - time == config.timeDelta
    }

    /** `advance_time`: the window slides forward by one step; the frame then
        sleeps out the rest of its budget, and `currentTime` is the wall clock. */
    method AdvanceTime(config: SimulationConfig, currentTime: int) returns (msToSleep: int)
      modifies this
      ensures time == old(nextTime) && nextTime == old(nextTime) + config.timeDelta
      ensures Window(config)
      ensures msToSleep == MsToSleep(currentTime, old(lastSimulated)) && msToSleep >= 0
      ensures lastSimulated == Max(currentTime, old(lastSimulated) + FRAME_TIME_CAP)
      ensures config.timeDelta >= 0.0 && old(Window(config)) ==> time >= old(time)
    {
      time := nextTime;
      nextTime := nextTime + config.timeDelta;
      msToSleep := Max(0, FRAME_TIME_CAP - (currentTime - lastSimulated));
      MsToSleepBounds(currentTime, lastSimulated);
      lastSimulated := currentTime + msToSleep;
    }
  }
}
