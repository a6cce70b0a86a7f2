/**
 * The pieces shared, line for line, by ThawMaster/thaw_master.py and
 * MeatTemp/meat_temp.py: the physical constants, Newton's cooling law, the
 * cooling constant, np.linspace sample times, the "first sample within one
 * degree" scan of sim_temp_change, and the hours/minutes tick label of
 * format_func. Reals are exact; the sources compute in IEEE doubles.
 */
module Cooling {
  import opened Wrappers
  import opened Strings

  // Material and geometry (grams, centimetres, seconds, degrees Celsius)
  const SpecHeatCap: real := 4.0         // J/(g °C)
  const Density: real := 1.04            // g/cm³
  const BlockWidth: real := 4.0          // cm
  const BlockLength: real := 6.0         // cm
  const BlockHeight: real := 3.0         // cm
  const ConvHeatTransCoef: real := 10.0  // W/(m² K)
  const RoomTemp: real := 20.0           // °C, the fixed target of MeatTemp's trajectories
  const SimLen: real := 10000.0          // seconds simulated
  const SimSteps: nat := 1000            // samples per trajectory
  /** "within 1 degree": the comparison is strict */
  const Tolerance: real := 1.0

  /** Mass of the block in grams: volume in cm³ times density. */
  function Mass(w: real, l: real, h: real, density: real): (m: real)
    requires w > 0.0 && l > 0.0 && h > 0.0 && density > 0.0
    ensures m > 0.0
  {
    var volume := w * l * h;
    assert volume > 0.0 by { assert w * l > 0.0; }
    volume * density
  }

  /** Surface area of the block in m²; the cm² area is divided by 10000. */
  function SurfaceArea(w: real, l: real, h: real): (area: real)
    requires w > 0.0 && l > 0.0 && h > 0.0
    ensures area > 0.0
    ensures area * 10000.0 == 2.0 * (w * l + w * h + l * h)
  {
    2.0 * ((w * l + w * h + l * h) / 10000.0)
  }

  /** k = hA / (m c), the rate constant of Newton's law of cooling. */
  function CoolingConstant(convCoef: real, area: real, mass: real, heatCap: real): (k: real)
    requires convCoef > 0.0 && area > 0.0 && mass > 0.0 && heatCap > 0.0
    ensures k > 0.0
    ensures k * (mass * heatCap) == convCoef * area
  {
    assert mass * heatCap > 0.0;
    convCoef * area / (mass * heatCap)
  }

  /** The configured block weighs 74.88 g and exposes 0.0108 m². */
  lemma DerivedConstants()
    ensures Mass(BlockWidth, BlockLength, BlockHeight, Density) == 74.88
    ensures SurfaceArea(BlockWidth, BlockLength, BlockHeight) == 0.0108
  {
  }

  /** The k_value that every trajectory of a sweep shares: about 0.00036 per second. */
  function KValue(): (k: real)
    ensures 0.00036 < k < 0.00037
  {
    var area := SurfaceArea(BlockWidth, BlockLength, BlockHeight);
    var mass := Mass(BlockWidth, BlockLength, BlockHeight, Density);
    DerivedConstants();
    var k := CoolingConstant(ConvHeatTransCoef, area, mass, SpecHeatCap);
    assert k * (74.88 * 4.0) == 10.0 * 0.0108;
    k
  }

  /** Newton's law of cooling, dT/dt = -k (T - room); the time t is unused. */
  function Rate(temp: real, t: real, k: real, roomTemp: real): (dTdt: real)
    ensures temp == roomTemp ==> dTdt == 0.0
    ensures k > 0.0 && temp > roomTemp ==> dTdt < 0.0
    ensures k > 0.0 && temp < roomTemp ==> dTdt > 0.0
  {
    -k * (temp - roomTemp)
  }

  /** np.linspace(start, stop, num): num evenly spaced samples, both ends included. */
  function Linspace(start: real, stop: real, num: nat): (xs: seq<real>)
    ensures |xs| == num
  {
    if num == 1 then [start]
    else
      var step := (stop - start) / ((num - 1) as real);
      seq(num, i => start + (i as real) * step)
  }

  /** Sample i of a linspace, its ends start and stop, and (for start <= stop) its bounds. */
  lemma LinspaceAt(start: real, stop: real, num: nat, i: nat)
    requires i < num
    ensures Linspace(start, stop, num)[i] == start + (if num == 1 then 0.0 else (i as real) * ((stop - start) / ((num - 1) as real)))
    ensures start <= stop ==> start <= Linspace(start, stop, num)[i] <= stop
    ensures i == 0 ==> Linspace(start, stop, num)[i] == start
    ensures i == num - 1 && num > 1 ==> Linspace(start, stop, num)[i] == stop
  {
    if num > 1 && start <= stop {
      var step := (stop - start) / ((num - 1) as real);
      assert step >= 0.0;
      assert step * ((num - 1) as real) == stop - start;
      assert (i as real) * step <= ((num - 1) as real) * step;
    }
  }

  /** The sample times t of sim_temp_change. */
  function SimTimes(): (t: seq<real>)
    ensures |t| == SimSteps
  {
    Linspace(0.0, SimLen, SimSteps)
  }

  /**
   * The trajectory solver (scipy's odeint of Rate), left abstract: from an initial
   * temperature, the sample times, k and the target temperature it yields the
   * temperature at each sample time.
   */
  type Solver = (real, seq<real>, real, real) -> seq<real>

  /** odeint returns one temperature per requested sample time. */
  ghost predicate OneSamplePerTime(solve: Solver) {
    forall init, times, k, target :: |solve(init, times, k, target)| == |times|
  }

  function Abs(x: real): real {
    if x < 0.0 then -x else x
  }

  /** abs(T[i] - room_temp) < 1: the temperature lies in the open interval one degree either side of the room. */
  predicate Within(temp: real, roomTemp: real)
    ensures Within(temp, roomTemp) <==> roomTemp - Tolerance < temp < roomTemp + Tolerance
  {
    Abs(temp - roomTemp) < Tolerance
  }

  /** Index of the first sample within tolerance of roomTemp; None when there is none. */
  function FirstWithin(temps: seq<real>, roomTemp: real): (r: Option<nat>)
    ensures r.Some? ==> r.value < |temps| && Within(temps[r.value], roomTemp)
    ensures r.Some? ==> forall j :: 0 <= j < r.value ==> !Within(temps[j], roomTemp)
    ensures r.None? <==> forall j :: 0 <= j < |temps| ==> !Within(temps[j], roomTemp)
    decreases |temps|
  {
    if temps == [] then None
    else if Within(temps[0], roomTemp) then Some(0)
    else match FirstWithin(temps[1..], roomTemp)
      case None => None
      case Some(i) => Some(i + 1)
  }

  /** Elapsed time of a cell of the result grid, or the explicit "never within one degree" marker. */
  datatype CoolTime = CooledAt(seconds: real) | NotReached

  /** The value time_to_cool ends up with: the time of the first close sample, or None. */
  function TimeToCool(temps: seq<real>, times: seq<real>, roomTemp: real): (r: CoolTime)
    requires |temps| <= |times|
    ensures r.NotReached? <==> forall j :: 0 <= j < |temps| ==> !Within(temps[j], roomTemp)
    ensures r.CooledAt? ==> FirstWithin(temps, roomTemp).Some? && r.seconds == times[FirstWithin(temps, roomTemp).value]
  {
    match FirstWithin(temps, roomTemp)
    case Some(i) => CooledAt(times[i])
    case None => NotReached
  }

  /** What sim_temp_change returns: (init_temp, room_temp, time_to_cool). */
  datatype SimResult = SimResult(initTemp: real, roomTemp: real, timeToCool: CoolTime)

  /**
   * The for/break loop of sim_temp_change: the time of the first sample whose
   * temperature is strictly within one degree of roomTemp, else None.
   */
  method ScanForCoolTime(temps: seq<real>, times: seq<real>, roomTemp: real) returns (timeToCool: CoolTime)
    requires |temps| <= |times|
    ensures timeToCool == TimeToCool(temps, times, roomTemp)
  {
    timeToCool := NotReached;
    for i := 0 to |temps|
      invariant forall j :: 0 <= j < i ==> !Within(temps[j], roomTemp)
      invariant timeToCool == NotReached
    {
      if Within(temps[i], roomTemp) {
        timeToCool := CooledAt(times[i]);
        break;
      }
    }
  }

  /**
   * On the simulation's sample times, a reported time is the time of sample i for the
   * first close sample i, lies in [0, SimLen], and is 0 when the first sample is close.
   */
  lemma CoolTimeOnSimTimes(temps: seq<real>, roomTemp: real)
    requires |temps| <= SimSteps
    ensures TimeToCool(temps, SimTimes(), roomTemp).NotReached? <==>
      forall j :: 0 <= j < |temps| ==> !Within(temps[j], roomTemp)
    ensures TimeToCool(temps, SimTimes(), roomTemp).CooledAt? ==>
      && TimeToCool(temps, SimTimes(), roomTemp).seconds
           == (FirstWithin(temps, roomTemp).value as real) * (SimLen / ((SimSteps - 1) as real))
      && 0.0 <= TimeToCool(temps, SimTimes(), roomTemp).seconds <= SimLen
    ensures |temps| > 0 && Within(temps[0], roomTemp) ==> TimeToCool(temps, SimTimes(), roomTemp) == CooledAt(0.0)
  {
    var t := SimTimes();
    var first := FirstWithin(temps, roomTemp);
    if first.Some? {
      SimTimeAt(first.value);
      assert TimeToCool(temps, t, roomTemp) == CooledAt(t[first.value]);
      if |temps| > 0 && Within(temps[0], roomTemp) {
        assert first.value == 0;
      }
    } else {
      assert TimeToCool(temps, t, roomTemp) == NotReached;
    }
  }

  /** Sample time i of the simulation is i * SimLen / (SimSteps - 1), inside [0, SimLen]. */
  lemma SimTimeAt(i: nat)
    requires i < SimSteps
    ensures SimTimes()[i] == (i as real) * (SimLen / ((SimSteps - 1) as real))
    ensures 0.0 <= SimTimes()[i] <= SimLen
    ensures i == 0 ==> SimTimes()[i] == 0.0
  {
    LinspaceAt(0.0, SimLen, SimSteps, i);
  }

  /** format_func's split: hours = value // 3600 and minutes = (value % 3600) // 60, floor semantics. */
  function HoursMinutes(value: real): (hm: (int, int))
    ensures 0 <= hm.1 < 60
    ensures ((hm.0 * 3600 + hm.1 * 60) as real) <= value < ((hm.0 * 3600 + hm.1 * 60 + 60) as real)
    ensures value >= 0.0 ==> hm.0 >= 0
  {
    var hours := (value / 3600.0).Floor;
    var rem := value - 3600.0 * (hours as real);  // value % 3600
    var minutes := (rem / 60.0).Floor;
    (hours, minutes)
  }

  /** The hours and minutes of a label are the only pair with minutes in 0..59 bracketing the value. */
  lemma HoursMinutesUnique(value: real, hours: int, minutes: int)
    requires 0 <= minutes < 60
    requires ((hours * 3600 + minutes * 60) as real) <= value < ((hours * 3600 + minutes * 60 + 60) as real)
    ensures HoursMinutes(value) == (hours, minutes)
  {
    var hm := HoursMinutes(value);
    var a, b := hours * 3600 + minutes * 60, hm.0 * 3600 + hm.1 * 60;
    assert a - b < 60 && b - a < 60;
  }

  /** format_func: f'{hours}h {minutes}m'. */
  function FormatFunc(value: real, tickNumber: int): (text: string)
    ensures |text| >= 5 && text[|text| - 1] == 'm'
  {
    var hm := HoursMinutes(value);
    IntToDecimal(hm.0) + "h " + IntToDecimal(hm.1) + "m"
  }

  /**
   * Reads one piece of a tick label, a number followed by its unit letter; the
   * number must be spelled exactly as str prints it.
   */
  function ParseSuffixed(piece: string, unit: char): (n: Option<int>)
    ensures n.Some? ==> piece == IntToDecimal(n.value) + [unit]
  {
    if |piece| >= 1 && piece[|piece| - 1] == unit then
      var digits := piece[..|piece| - 1];
      assert piece == digits + [unit];
      if IntToDecimal(ParseInt(digits)) == digits then Some(ParseInt(digits)) else None
    else None
  }

  /** What format_func prints for a whole number followed by the unit reads back as that number. */
  lemma SuffixedRoundTrip(i: int, unit: char)
    ensures ParseSuffixed(IntToDecimal(i) + [unit], unit) == Some(i)
  {
    var piece := IntToDecimal(i) + [unit];
    assert piece[..|piece| - 1] == IntToDecimal(i);
    IntRoundTrip(i);
  }

  /** Reads the hours and minutes back out of a tick label "{h}h {m}m". */
  function ParseLabel(text: string): Option<(int, int)> {
    var parts := Split(text, ' ');
    if |parts| == 2 then
      match (ParseSuffixed(parts[0], 'h'), ParseSuffixed(parts[1], 'm'))
      case (Some(h), Some(m)) => Some((h, m))
      case _ => None
    else None
  }

  /** Only a label spelled exactly as format_func spells it reads back. */
  lemma ParseLabelExact(text: string)
    requires ParseLabel(text).Some?
    ensures text == IntToDecimal(ParseLabel(text).value.0) + "h " + IntToDecimal(ParseLabel(text).value.1) + "m"
  {
    var parts := Split(text, ' ');
    var hm := ParseLabel(text).value;
    SplitTwoPieces(text, parts[0], parts[1]);
    JoinLabelPieces(text, parts[0], parts[1], hm.0, hm.1);
  }

  /** Two label pieces around a space spell the whole label. */
  lemma JoinLabelPieces(text: string, first: string, second: string, h: int, m: int)
    requires text == first + [' '] + second
    requires ParseSuffixed(first, 'h') == Some(h) && ParseSuffixed(second, 'm') == Some(m)
    ensures text == IntToDecimal(h) + "h " + IntToDecimal(m) + "m"
  {
    LabelPieces(IntToDecimal(h), IntToDecimal(m));
  }

  /** The label for numerals h and m is the piece "{h}h", a space, and the piece "{m}m". */
  lemma LabelPieces(h: string, m: string)
    ensures h + "h " + m + "m" == (h + "h") + [' '] + (m + "m")
  {
    assert "h " == "h" + [' '];
  }

  /** Text that splits into two pieces is those pieces around one space. */
  lemma SplitTwoPieces(text: string, first: string, second: string)
    requires Split(text, ' ') == [first, second]
    ensures text == first + [' '] + second
  {
    JoinSplit(text, ' ');
    assert [first, second][1..] == [second];
  }

  lemma NoSpaceInDecimal(i: int)
    ensures ' ' !in IntToDecimal(i)
  {
    var s := IntToDecimal(i);
    forall j | 0 <= j < |s| ensures s[j] != ' ' {
      if i < 0 && j > 0 { assert s[j] == NatToDecimal(-i)[j - 1]; }
    }
  }

  /** A label whose two numbers hold no space splits at its one space. */
  lemma SplitLabel(h: string, m: string)
    requires ' ' !in h && ' ' !in m
    ensures Split(h + "h " + m + "m", ' ') == [h + "h", m + "m"]
  {
    var first, second := h + "h", m + "m";
    assert h + "h " + m + "m" == first + [' '] + second;
    SplitAtFirst(first, ' ', second);
    SplitNoSeparator(second, ' ');
  }

  /** The label names exactly the hours and minutes of the value. */
  lemma FormatFuncRoundTrip(value: real, tickNumber: int)
    ensures ParseLabel(FormatFunc(value, tickNumber)) == Some(HoursMinutes(value))
  {
    var hm := HoursMinutes(value);
    var h, m := IntToDecimal(hm.0), IntToDecimal(hm.1);
    NoSpaceInDecimal(hm.0);
    NoSpaceInDecimal(hm.1);
    SplitLabel(h, m);
    SuffixedRoundTrip(hm.0, 'h');
    SuffixedRoundTrip(hm.1, 'm');
  }
}
