/**
 * ThawMaster/thaw_master.py: every cell integrates toward its own room
 * temperature and is scanned against that same room temperature.
 */
module ThawMaster {
  import opened Cooling
  import opened SweepGrid

  /** The time_to_cool sim_temp_change reports for one (init_temp, room_temp) pair. */
  function CellTime(solve: Solver, initTemp: real, roomTemp: real): (time: CoolTime)
    requires OneSamplePerTime(solve)
    ensures time.NotReached? <==>
      forall j :: 0 <= j < SimSteps ==> !Within(solve(initTemp, SimTimes(), KValue(), roomTemp)[j], roomTemp)
    ensures time.CooledAt? ==> 0.0 <= time.seconds <= SimLen
  {
    var temps := solve(initTemp, SimTimes(), KValue(), roomTemp);
    CoolTimeOnSimTimes(temps, roomTemp);
    TimeToCool(temps, SimTimes(), roomTemp)
  }

  /** sim_temp_change: solve the trajectory toward roomTemp and scan it against roomTemp. */
  method SimTempChange(solve: Solver, initTemp: real, roomTemp: real) returns (result: SimResult)
    requires OneSamplePerTime(solve)
    ensures result == SimResult(initTemp, roomTemp, CellTime(solve, initTemp, roomTemp))
  {
    var kValue := KValue();
    var t := Linspace(0.0, SimLen, SimSteps);
    var temps := solve(initTemp, t, kValue, roomTemp);
    var timeToCool := ScanForCoolTime(temps, t, roomTemp);
    result := SimResult(initTemp, roomTemp, timeToCool);
  }

  /** A trajectory that starts where odeint starts it, at init_temp, within a degree of the room reports time 0. */
  lemma CloseStartCoolsAtZero(solve: Solver, initTemp: real, roomTemp: real)
    requires OneSamplePerTime(solve)
    requires solve(initTemp, SimTimes(), KValue(), roomTemp)[0] == initTemp
    requires Within(initTemp, roomTemp)
    ensures CellTime(solve, initTemp, roomTemp) == CooledAt(0.0)
  {
    CoolTimeOnSimTimes(solve(initTemp, SimTimes(), KValue(), roomTemp), roomTemp);
  }

  /** The work list: one (init_temp, room_temp) pair per grid cell, in raveled order. */
  function TempTuples(initTemps: seq<real>, roomTemps: seq<real>): (tuples: seq<(real, real)>)
    ensures |tuples| == |roomTemps| * |initTemps|
    ensures forall r, c :: 0 <= r < |roomTemps| && 0 <= c < |initTemps| ==>
      tuples[FlatIndex(r, c, |roomTemps|, |initTemps|)] == (initTemps[c], roomTemps[r])
  {
    PairGrid(initTemps, roomTemps)
  }

  /** pool.starmap(sim_temp_change, temp_tuples), run as an order-preserving sequential map. */
  method StarMap(solve: Solver, tuples: seq<(real, real)>) returns (results: seq<SimResult>)
    requires OneSamplePerTime(solve)
    ensures |results| == |tuples|
    ensures forall k :: 0 <= k < |tuples| ==>
      results[k] == SimResult(tuples[k].0, tuples[k].1, CellTime(solve, tuples[k].0, tuples[k].1))
  {
    results := [];
    for k := 0 to |tuples|
      invariant |results| == k
      invariant forall j :: 0 <= j < k ==>
        results[j] == SimResult(tuples[j].0, tuples[j].1, CellTime(solve, tuples[j].0, tuples[j].1))
    {
      var result := SimTempChange(solve, tuples[k].0, tuples[k].1);
      results := results + [result];
    }
  }

  /**
   * perform_simulation: time_grid has one row per room temperature and one column
   * per initial temperature, and cell (r, c) holds the time for
   * (initTemps[c], roomTemps[r]).
   */
  method PerformSimulation(solve: Solver, initTemps: seq<real>, roomTemps: seq<real>)
    returns (timeGrid: array2<CoolTime>)
    requires OneSamplePerTime(solve)
    ensures fresh(timeGrid)
    ensures timeGrid.Length0 == |roomTemps| && timeGrid.Length1 == |initTemps|
    ensures forall r, c :: 0 <= r < |roomTemps| && 0 <= c < |initTemps| ==>
      timeGrid[r, c] == CellTime(solve, initTemps[c], roomTemps[r])
  {
    var tempTuples := TempTuples(initTemps, roomTemps);
    var results := StarMap(solve, tempTuples);
    timeGrid := FillTimeGrid(results, |roomTemps|, |initTemps|);
  }
}
