/**
 * MeatTemp/meat_temp.py: every work item carries the fixed RoomTemp (20 °C) as the
 * temperature the trajectory is integrated toward, while the scan still compares
 * against the grid cell's own room temperature.
 */
module MeatTemp {
  import opened Cooling
  import opened SweepGrid

  /** The time_to_cool sim_temp_change reports: integrate toward roomTempTarget, compare with roomTemp. */
  function CellTime(solve: Solver, initTemp: real, roomTemp: real, roomTempTarget: real): (time: CoolTime)
    requires OneSamplePerTime(solve)
    ensures time.NotReached? <==>
      forall j :: 0 <= j < SimSteps ==> !Within(solve(initTemp, SimTimes(), KValue(), roomTempTarget)[j], roomTemp)
    ensures time.CooledAt? ==> 0.0 <= time.seconds <= SimLen
  {
    var temps := solve(initTemp, SimTimes(), KValue(), roomTempTarget);
    CoolTimeOnSimTimes(temps, roomTemp);
    TimeToCool(temps, SimTimes(), roomTemp)
  }

  /** sim_temp_change: the result echoes init_temp and room_temp, but not the target. */
  method SimTempChange(solve: Solver, initTemp: real, roomTemp: real, roomTempTarget: real)
    returns (result: SimResult)
    requires OneSamplePerTime(solve)
    ensures result == SimResult(initTemp, roomTemp, CellTime(solve, initTemp, roomTemp, roomTempTarget))
  {
    var kValue := KValue();
    var t := Linspace(0.0, SimLen, SimSteps);
    var temps := solve(initTemp, t, kValue, roomTempTarget);
    var timeToCool := ScanForCoolTime(temps, t, roomTemp);
    result := SimResult(initTemp, roomTemp, timeToCool);
  }

  /**
   * A trajectory that stays within a degree of the target throughout is still
   * reported as never reached when the grid's room temperature is two or more
   * degrees from the target.
   */
  lemma TargetMismatchNeverReached(solve: Solver, initTemp: real, roomTemp: real, roomTempTarget: real)
    requires OneSamplePerTime(solve)
    requires forall j :: 0 <= j < SimSteps ==>
      Within(solve(initTemp, SimTimes(), KValue(), roomTempTarget)[j], roomTempTarget)
    requires Abs(roomTemp - roomTempTarget) >= 2.0 * Tolerance
    ensures CellTime(solve, initTemp, roomTemp, roomTempTarget) == NotReached
  {
    var temps := solve(initTemp, SimTimes(), KValue(), roomTempTarget);
    forall j | 0 <= j < |temps| ensures !Within(temps[j], roomTemp) {
      assert Within(temps[j], roomTempTarget);
    }
    CoolTimeOnSimTimes(temps, roomTemp);
  }

  /** The work list: (init_temp, room_temp, ROOM_TEMP) per grid cell, in raveled order. */
  function TempTuples(initTemps: seq<real>, roomTemps: seq<real>): (tuples: seq<(real, real, real)>)
    ensures |tuples| == |roomTemps| * |initTemps|
    ensures forall k :: 0 <= k < |tuples| ==> tuples[k].2 == RoomTemp
    ensures forall r, c :: 0 <= r < |roomTemps| && 0 <= c < |initTemps| ==>
      tuples[FlatIndex(r, c, |roomTemps|, |initTemps|)] == (initTemps[c], roomTemps[r], RoomTemp)
  {
    var pairs := PairGrid(initTemps, roomTemps);
    seq(|pairs|, k requires 0 <= k < |pairs| => (pairs[k].0, pairs[k].1, RoomTemp))
  }

  /** pool.starmap(sim_temp_change, temp_tuples), run as an order-preserving sequential map. */
  method StarMap(solve: Solver, tuples: seq<(real, real, real)>) returns (results: seq<SimResult>)
    requires OneSamplePerTime(solve)
    ensures |results| == |tuples|
    ensures forall k :: 0 <= k < |tuples| ==>
      results[k] == SimResult(tuples[k].0, tuples[k].1, CellTime(solve, tuples[k].0, tuples[k].1, tuples[k].2))
  {
    results := [];
    for k := 0 to |tuples|
      invariant |results| == k
      invariant forall j :: 0 <= j < k ==>
        results[j] == SimResult(tuples[j].0, tuples[j].1, CellTime(solve, tuples[j].0, tuples[j].1, tuples[j].2))
    {
      var result := SimTempChange(solve, tuples[k].0, tuples[k].1, tuples[k].2);
      results := results + [result];
    }
  }

  /**
   * perform_simulation: cell (r, c) of time_grid holds the time for initTemps[c]
   * integrated toward RoomTemp and compared with roomTemps[r].
   */
  method PerformSimulation(solve: Solver, initTemps: seq<real>, roomTemps: seq<real>)
    returns (timeGrid: array2<CoolTime>)
    requires OneSamplePerTime(solve)
    ensures fresh(timeGrid)
    ensures timeGrid.Length0 == |roomTemps| && timeGrid.Length1 == |initTemps|
    ensures forall r, c :: 0 <= r < |roomTemps| && 0 <= c < |initTemps| ==>
      timeGrid[r, c] == CellTime(solve, initTemps[c], roomTemps[r], RoomTemp)
  {
    var tempTuples := TempTuples(initTemps, roomTemps);
    var results := StarMap(solve, tempTuples);
    timeGrid := FillTimeGrid(results, |roomTemps|, |initTemps|);
  }
}
