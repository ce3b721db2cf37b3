/**
 * The flood model of the controller: the water level rises linearly from
 * `StartLevel` at time 0 to `EndLevel` at `EndTime` seconds and stays there.
 * A place is flooded out once its elevation is at or below the water level.
 */
module Flood {

  const StartLevel: real := 0.0
  const EndLevel: real := 20.0
  /** Four hours, in seconds. */
  const EndTime: real := 14400.0

  /** The water level `t` seconds into the simulation. */
  function WaterLevel(t: real): (level: real)
    ensures level <= EndLevel
    ensures t == 0.0 ==> level == StartLevel
    ensures 0.0 <= t ==> StartLevel <= level
    ensures t >= EndTime ==> level == EndLevel
    ensures 0.0 <= t <= EndTime ==> level == StartLevel + (EndLevel - StartLevel) * (t / EndTime)
  {
    var rise := ((EndLevel - StartLevel) / EndTime) * t;
    if rise + StartLevel <= EndLevel then rise + StartLevel else EndLevel
  }

  /** A stop or a connection at `elevation` is impassable at time `t`: a
      place at most 20 m up is flooded out from 720 seconds per metre of
      elevation on, and a higher one never is. */
  function Flooded(elevation: real, t: real): (r: bool)
    ensures r <==> elevation <= EndLevel && elevation * (EndTime / (EndLevel - StartLevel)) <= t
  {
    elevation <= WaterLevel(t)
  }

  lemma WaterLevelMonotone(t1: real, t2: real)
    requires t1 <= t2
    ensures WaterLevel(t1) <= WaterLevel(t2)
  {
  }

  /** Once flooded out, a place stays flooded out. */
  lemma FloodedPersists(elevation: real, t1: real, t2: real)
    requires t1 <= t2
    requires Flooded(elevation, t1)
    ensures Flooded(elevation, t2)
  {
    WaterLevelMonotone(t1, t2);
  }
}
