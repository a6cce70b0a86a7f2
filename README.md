# Cooling-grid bookkeeping and BashAI text handling, in Dafny

This project models three small pieces of logic from the DailyExperiments repository.

**ThawMaster and MeatTemp.** These two scripts build a grid of cooling times. Each cell pairs an
initial temperature with a room temperature. For each cell, a Newton's-law cooling trajectory is
integrated and scanned for the first sample within one degree of the room temperature. The model
covers:

- the cooling law `model` (`Cooling.Rate`);
- the derived constants and `k_value` (`Cooling.Mass`, `Cooling.SurfaceArea`,
  `Cooling.CoolingConstant`, `Cooling.KValue`);
- the sample times from `np.linspace` (`Cooling.Linspace`);
- the first-sample scan in `sim_temp_change` (`Cooling.ScanForCoolTime`, specified by
  `Cooling.FirstWithin` and `Cooling.TimeToCool`);
- the flatten/reshape of `perform_simulation`: `np.meshgrid`, row-major `ravel`, an ordered
  `starmap`, and `np.unravel_index` back into `time_grid` (module `SweepGrid`, and
  `PerformSimulation` in modules `ThawMaster` and `MeatTemp`);
- the tick label `format_func` (`Cooling.HoursMinutes`, `Cooling.FormatFunc`).

The two scripts repeat the same code for `model`, the constants, `format_func` and the scan loop.
That shared code is modelled once, in module `Cooling`. In MeatTemp/meat_temp.py those lines are
26-36, 10-23, 38-42 and 53-57. The scripts differ in one way, and the model keeps it. ThawMaster
integrates each cell toward its own room temperature. MeatTemp integrates every cell toward the
fixed `ROOM_TEMP` of 20 °C, but still compares the samples with the cell's room temperature
(`MeatTemp.CellTime`, `MeatTemp.TargetMismatchNeverReached`).

The trajectory solver (`odeint`) is not computed. It is a parameter of type `Cooling.Solver`: a
function from (initial temperature, sample times, k, target) to one temperature per sample time.
The parallel `pool.starmap` is a sequential loop that keeps the order of its inputs
(`ThawMaster.StarMap`, `MeatTemp.StarMap`). `time_grid` is a Dafny `array2`. It starts as all
zeros, as `np.zeros_like` makes it, and the loop of `perform_simulation` fills it in place
(`SweepGrid.FillTimeGrid`). A cell that never came within one degree holds `NotReached`.

**BashAI.** `wrap_string` is identical in BashAI/bai.py:22-32 and BashAI/bashai.py:16-27. Module
`TextWrap` models it once: a method with the source's nested loops (`TextWrap.WrapString`), proved
equal to a recursive specification (`TextWrap.Wrap`). Module `BashAI` models three more pieces:

- the `/etc/os-release` loop of `get_system_info`, as a method over the file's text;
- `get_system_info` itself, given the outputs of its two commands;
- the field check of `print_response`, which returns a `Result` in place of calling `sys.exit`.
  This check is identical in BashAI/bashai.py:85-92 and 107.

Three choices follow the source text:

- The closeness test is strict: `abs(T[i] - room_temp) < 1`.
- The tolerance is the fixed constant 1.
- MeatTemp's trajectory target is `ROOM_TEMP`, not the grid's room temperature.

The work list is built by ravelling the meshgrid in row-major order, and the results are written
back with `np.unravel_index`. The model proves that the two orders agree: the result for
(init_temps[c], room_temps[r]) lands in cell (r, c) (`SweepGrid.UnravelHitsEachCellOnce`,
`ThawMaster.PerformSimulation`).

## Model

| member | source | states |
|---|---|---|
| `Cooling.Rate` | ThawMaster/thaw_master.py:30-40 | the rate is 0 when T equals the room temperature; for k > 0 its sign is opposite to T − room temperature |
| `Cooling.Mass` | ThawMaster/thaw_master.py:25-26 | the mass (volume × density) is positive for positive dimensions and density |
| `Cooling.SurfaceArea` | ThawMaster/thaw_master.py:27 | the area is positive, and area × 10000 is the cm² surface 2(WL + WH + LH), so the result is in m² |
| `Cooling.CoolingConstant` | ThawMaster/thaw_master.py:52 | k is strictly positive for positive inputs, and k·(mass·heat capacity) equals coefficient·area |
| `Cooling.DerivedConstants` | ThawMaster/thaw_master.py:10-27 | with the configured constants the mass is 74.88 g and the area is 0.0108 m² |
| `Cooling.KValue` | ThawMaster/thaw_master.py:52 | k_value for the configured block lies strictly between 0.00036 and 0.00037 per second |
| `Cooling.Linspace` | ThawMaster/thaw_master.py:53 | np.linspace yields exactly num samples |
| `Cooling.LinspaceAt` | MeatTemp/meat_temp.py:51 | sample i is start + i·(stop − start)/(num − 1), the first is start and the last is stop; for start ≤ stop every sample lies in [start, stop] |
| `Cooling.SimTimes` | ThawMaster/thaw_master.py:53 | the simulation samples exactly SIM_STEPS time points |
| `Cooling.SimTimeAt` | MeatTemp/meat_temp.py:51 | sample time i is i·SIM_LEN/(SIM_STEPS − 1), lies in [0, SIM_LEN], and is 0 for i = 0 |
| `Cooling.Within` | ThawMaster/thaw_master.py:57 | abs(T − room_temp) < 1 holds exactly when T lies in the open interval (room_temp − 1, room_temp + 1) |
| `Cooling.FirstWithin` | ThawMaster/thaw_master.py:55-59 | a returned index is a sample strictly within one degree of the room temperature, and every earlier sample is at least one degree away; None exactly when no sample is within one degree |
| `Cooling.TimeToCool` | ThawMaster/thaw_master.py:55-59 | time_to_cool is None exactly when no sample is within one degree; otherwise it is t[i] for the first index i that is |
| `Cooling.ScanForCoolTime` | MeatTemp/meat_temp.py:53-57 | the for/break loop leaves time_to_cool equal to the time of the first sample within one degree, or None (NotReached) |
| `Cooling.CoolTimeOnSimTimes` | ThawMaster/thaw_master.py:53-59 | on the simulation's sample times, time_to_cool is None exactly when no sample is within one degree; otherwise it is i·SIM_LEN/(SIM_STEPS − 1) for the first such i, inside [0, SIM_LEN], and 0 when the first sample already qualifies |
| `Cooling.HoursMinutes` | ThawMaster/thaw_master.py:44-45 | for every value, minutes lie in 0..59 and hours·3600 + minutes·60 ≤ value < hours·3600 + minutes·60 + 60; hours ≥ 0 for value ≥ 0 |
| `Cooling.HoursMinutesUnique` | MeatTemp/meat_temp.py:40-41 | any (hours, minutes) with minutes in 0..59 that brackets the value in this way is the split format_func computes |
| `Cooling.FormatFunc` | MeatTemp/meat_temp.py:38-42 | the label is at least five characters long and ends in "m" |
| `Cooling.SplitLabel` | ThawMaster/thaw_master.py:46 | a label f'{h}h {m}m' whose numbers hold no space splits at its single space into "{h}h" and "{m}m" |
| `Cooling.ParseSuffixed` | ThawMaster/thaw_master.py:46 | a label piece reads back only when it is a number spelled exactly as str prints it followed by the unit letter |
| `Cooling.SuffixedRoundTrip` | ThawMaster/thaw_master.py:46 | the piece str(i) followed by its unit letter reads back as i |
| `Cooling.ParseLabelExact` | ThawMaster/thaw_master.py:46 | a text reads back as (h, m) only when it is exactly f'{h}h {m}m' |
| `Cooling.FormatFuncRoundTrip` | ThawMaster/thaw_master.py:42-46 | reading the label f'{hours}h {minutes}m' back gives exactly the computed hours and minutes |
| `Strings.NatToDecimal` | ThawMaster/thaw_master.py:46 | the rendering of a non-negative int is non-empty, all digits, and has no leading zero |
| `Strings.DecimalRoundTrip` | ThawMaster/thaw_master.py:46 | the digits rendered for n denote n |
| `Strings.IntToDecimal` | ThawMaster/thaw_master.py:46 | str(i) is non-empty, starts with '-' exactly when i < 0, and is all digits after that sign |
| `Strings.IntRoundTrip` | MeatTemp/meat_temp.py:42 | parsing the rendering of any int, negative ones included, gives the int back |
| `SweepGrid.Meshgrid` | ThawMaster/thaw_master.py:68 | both grids have shape (len(room_temps), len(init_temps)); cell (r, c) holds init_temps[c] in one grid and room_temps[r] in the other |
| `SweepGrid.Ravel` | ThawMaster/thaw_master.py:73 | ravel of a rows × cols grid has rows·cols elements |
| `SweepGrid.RavelAt` | MeatTemp/meat_temp.py:72 | ravel puts cell (r, c) at row-major position r·cols + c |
| `SweepGrid.FlatIndex` | ThawMaster/thaw_master.py:73 | the row-major position of (r, c) is below rows·cols, and its quotient and remainder by cols are r and c |
| `SweepGrid.Unravel` | ThawMaster/thaw_master.py:82 | unravel_index(k) is an in-bounds cell whose row-major position is k |
| `SweepGrid.UnravelHitsEachCellOnce` | MeatTemp/meat_temp.py:79-82 | a flat index unravels to cell (r, c) exactly when it is that cell's row-major position, so the M·N results write each cell exactly once |
| `SweepGrid.PairGrid` | ThawMaster/thaw_master.py:71-74 | the zipped ravels have M·N items, and the item at cell (r, c)'s position pairs init_temps[c] with room_temps[r] |
| `SweepGrid.FillTimeGrid` | ThawMaster/thaw_master.py:80-83 | time_grid is a fresh M×N array whose cell (r, c) holds time_to_cool of the result at position r·N + c |
| `ThawMaster.SimTempChange` | ThawMaster/thaw_master.py:48-60 | returns (init_temp, room_temp, time_to_cool): the trajectory is integrated toward room_temp and scanned against room_temp |
| `ThawMaster.CellTime` | ThawMaster/thaw_master.py:53-59 | a cell's time is None exactly when no sample of the trajectory toward room_temp comes within one degree of room_temp; otherwise it lies in [0, SIM_LEN] |
| `ThawMaster.CloseStartCoolsAtZero` | ThawMaster/thaw_master.py:54-59 | a trajectory whose first sample is init_temp, with init_temp within one degree of room_temp, reports time 0 |
| `ThawMaster.TempTuples` | ThawMaster/thaw_master.py:68-74 | the work list has M·N pairs, and the pair at cell (r, c)'s position is (init_temps[c], room_temps[r]) |
| `ThawMaster.StarMap` | ThawMaster/thaw_master.py:78 | result k is sim_temp_change of work item k, in the order of the work list |
| `ThawMaster.PerformSimulation` | ThawMaster/thaw_master.py:62-84 | time_grid has shape (len(room_temps), len(init_temps)), and cell (r, c) holds the time for (init_temps[c], room_temps[r]) |
| `MeatTemp.SimTempChange` | MeatTemp/meat_temp.py:45-58 | returns (init_temp, room_temp, time_to_cool): the trajectory is integrated toward room_temp_target but scanned against room_temp, and the target is not echoed |
| `MeatTemp.CellTime` | MeatTemp/meat_temp.py:51-57 | a cell's time is None exactly when no sample of the trajectory toward room_temp_target comes within one degree of the grid's room_temp; otherwise it lies in [0, SIM_LEN] |
| `MeatTemp.TargetMismatchNeverReached` | MeatTemp/meat_temp.py:52-55 | a trajectory that stays within a degree of its target is still reported as never reached when room_temp is two or more degrees from the target |
| `MeatTemp.TempTuples` | MeatTemp/meat_temp.py:67-73 | the work list has M·N triples, every one with ROOM_TEMP (20) third, and the triple at cell (r, c)'s position is (init_temps[c], room_temps[r], ROOM_TEMP) |
| `MeatTemp.StarMap` | MeatTemp/meat_temp.py:77 | result k is sim_temp_change of work item k, in the order of the work list |
| `MeatTemp.PerformSimulation` | MeatTemp/meat_temp.py:61-83 | time_grid has shape (len(room_temps), len(init_temps)), and cell (r, c) holds the time for init_temps[c] integrated toward ROOM_TEMP and compared with room_temps[r] |
| `Strings.Split` | BashAI/bai.py:24 | str.split with a one-character separator yields at least one piece, and no piece contains the separator |
| `Strings.Join` | BashAI/bai.py:133 | "\n".join of at least one piece starts with the first piece and is the pieces' total length plus one separator per gap |
| `Strings.JoinSplit` | BashAI/bashai.py:19 | joining the pieces of a split with the separator gives the original text back |
| `Strings.SplitJoin` | BashAI/bai.py:133 | splitting a join of at least one separator-free piece gives the pieces back |
| `Strings.SplitAtFirst` | BashAI/bai.py:47 | splitting a + '=' + b, where a has no '=', gives a and then the pieces of b; so piece 1 is the text between the first and the second '=' |
| `Strings.StripLeft` | BashAI/bai.py:47 | lstrip removes the longest prefix made only of the given characters |
| `Strings.StripRight` | BashAI/bai.py:37 | rstrip removes the longest suffix made only of the given characters |
| `Strings.LeadingRun` | BashAI/bai.py:47 | the leading run that lstrip drops is all in the set and is followed by a character outside it, or by the end of the text |
| `Strings.Strip` | BashAI/bai.py:37 | strip returns the slice of the text that starts after the leading run of characters in the set and is followed only by characters in the set; neither end of the slice is in the set |
| `Strings.StripEmpty` | BashAI/bai.py:37 | strip gives the empty string exactly when every character is in the set |
| `Strings.StartsWith` | BashAI/bai.py:46 | line.startswith(p) holds exactly when p is a prefix of line |
| `TextWrap.RFindSpace` | BashAI/bai.py:26 | rfind(' ', 0, hi) returns −1 or an index below hi holding a space, with no space after it below hi |
| `TextWrap.BreakPos` | BashAI/bashai.py:21-23 | the cut is at the last space in 1..width when there is one, and otherwise at width with no space in 1..width |
| `TextWrap.WrapParagraph` | BashAI/bai.py:25-31 | a paragraph yields at least one line, and every line is at most width long |
| `TextWrap.WrapParagraphNoNewChar` | BashAI/bashai.py:20-26 | no line holds a character that its paragraph lacks, so no line contains a newline |
| `TextWrap.OneCharacterPerCut` | BashAI/bai.py:29-30 | the line lengths of a paragraph add up to its length minus one character per cut |
| `TextWrap.FirstCut` | BashAI/bashai.py:21-25 | the first cut is either at a space in 1..width, which is consumed while the text on both sides is kept, or at width, where the character at index width (never a space once width > 0) is discarded |
| `TextWrap.CutStep` | BashAI/bashai.py:21-25 | one pass of the inner loop emits paragraph[:pos] and continues with paragraph[pos+1:], which is strictly shorter |
| `TextWrap.HardCutLosesCharacter` | BashAI/bai.py:26-30 | "abcdef" at width 3 wraps to "abc" and "ef", losing "d" |
| `TextWrap.CutParagraph` | BashAI/bai.py:25-31 | the inner while loop appends exactly the paragraph's wrapping to the lines so far |
| `TextWrap.WrapAll` | BashAI/bai.py:24-31 | a run of paragraphs gives at least as many lines as there are paragraphs, each at most width long |
| `TextWrap.WrapAllAppend` | BashAI/bashai.py:19-26 | the lines of two runs of paragraphs are the lines of the first run followed by those of the second |
| `TextWrap.WrapAllShape` | BashAI/bai.py:24-31 | newline-free paragraphs give at least one line each, each line at most width long and newline-free |
| `TextWrap.Wrap` | BashAI/bai.py:22-32 | wrap_string returns at least as many lines as s has newline-separated paragraphs (so never an empty list), each at most width characters long and without a newline |
| `TextWrap.WrapShortIsSplit` | BashAI/bashai.py:19-26 | paragraphs no longer than width come out unchanged, one line each |
| `TextWrap.WrapShortRoundTrip` | BashAI/bai.py:24-31 | if no paragraph exceeds width the output equals s.split("\n"), and joining it with newlines gives s |
| `TextWrap.WrapString` | BashAI/bai.py:22-32 | for width ≥ 0 the nested loops terminate and return exactly the specified wrapping of s |
| `BashAI.KeyValue` | BashAI/bai.py:47 | for a line starting with KEY=, the value is the text between the first and second '=' with '"' stripped from both ends, and it neither starts nor ends with '"' |
| `BashAI.SplitAfterKey` | BashAI/bai.py:47 | a line starting with KEY= splits into at least two pieces, and piece 1 is piece 0 of the text after KEY= |
| `BashAI.QuotedValueExample` | BashAI/bai.py:49 | the line VERSION_ID="11" yields 11 |
| `BashAI.LastKeyLine` | BashAI/bai.py:45-49 | the chosen line starts with KEY= and no later line does; None exactly when no line starts with KEY= |
| `BashAI.LastKeyValue` | BashAI/bai.py:45-49 | the value is None exactly when no line starts with KEY=; otherwise it is the value of the last line that does |
| `BashAI.LastKeyValueStep` | BashAI/bai.py:46-49 | a line starting with KEY= replaces the value so far, and any other line leaves it unchanged |
| `BashAI.ParseOsRelease` | BashAI/bai.py:43-49 | distro_name and distro_version come from the last NAME= and VERSION_ID= lines, and stay None when there is no such line |
| `BashAI.GetSystemInfo` | BashAI/bai.py:34-59 | the result is None exactly when a command failed; otherwise it is the stripped kernel version with the parsed name and version |
| `BashAI.Get` | BashAI/bai.py:118-120 | result.get(key, '') is non-empty exactly when the key is present with a non-empty value, and is then that value |
| `BashAI.PrintResponse` | BashAI/bai.py:117-139 | fails with the missing-field message exactly when Explanation or Command is missing or empty; otherwise returns Command unchanged |
| `BashAI.NotesLinesNeverEmpty` | BashAI/bai.py:131-133 | wrap_string(notes, 80) is never empty, so the notes branch is always taken, and every line fits 80 columns |

## Left out

- odeint and the exponential trajectory are not modelled. This is floating-point numerics inside a
  SciPy call. The trajectory is the abstract `Cooling.Solver`. The model only assumes it returns one
  sample per time point.
- All reals are exact. The model does not capture IEEE rounding in `np.linspace`, `k_value`, the
  comparison `abs(T[i] - room_temp) < 1`, or `format_func`'s `//` and `%`. For example, IEEE
  arithmetic can make `%` return exactly 3600.0 for a tiny negative value.
- `multiprocessing.Pool` and `starmap` run as a sequential map that keeps the input order. The pool
  that is never closed is not modelled.
- `ThawMaster.PerformSimulation`: the model drops the error path of
  `Pool(processes=cpu_count() - 1)`. On a machine with one CPU this is `Pool(0)`, which raises
  `ValueError` before any cell is simulated (ThawMaster/thaw_master.py:69). The method always
  returns the grid.
- `MeatTemp.PerformSimulation`: the same `Pool(0)` error path is dropped
  (MeatTemp/meat_temp.py:68).
- numpy turns a `None` assigned into the float grid into NaN. The model stores `NotReached`
  instead.
- `plot_results` and `main` of both simulators are left out: matplotlib rendering and file saving.
  This includes the contour mask in ThawMaster/thaw_master.py:137-139 and the
  `INIT_TEMP_*`/`ROOM_TEMP_*` plot ranges.
- `format_func` ignores its `tick_number` argument. The model keeps the parameter.
- In BashAI, these parts are I/O or foreign calls and are not modelled: `validate_arguments`,
  `get_api_key` (`load_dotenv`, `os.getenv`), `call_openai_api`, `process_response` (`json.loads`),
  `run_command` (`input`, `subprocess.run`), logging, termcolor printing, and the Halo spinner.
  `print_response` prints the wrapped explanation, the notes and the command; the model keeps only
  the check and the returned command.
- `get_system_info` receives the decoded outputs of `uname -r` and `cat /etc/os-release` as
  parameters. A failed command is `None`. Byte decoding is not modelled.
- `TextWrap.WrapString`: for a negative width, wrap_string never returns. The loop test
  `len(paragraph) > width` always holds, because `len(paragraph) >= 0 > width`. At width −1,
  for example, `rfind(' ', 0, 0)` is −1, so pos is −1 and `paragraph[pos+1:]` is the whole
  paragraph again (BashAI/bai.py:25-30, BashAI/bashai.py:20-25). The method requires width ≥ 0
  and does not model that non-termination. Both callers pass 80.
- `BashAI.PrintResponse`: the JSON reply is a map from strings to strings. A non-string value
  (a list, a number, null) and Python's truthiness of such values are not modelled.
- `Cooling.Linspace`: its own contract states only the length. Values and bounds are in
  `Cooling.LinspaceAt`.
- `Cooling.FormatFunc`: its own contract states only the shape of the label. Its exact content is
  pinned down by two lemmas. `Cooling.FormatFuncRoundTrip` reads the label back as the computed
  hours and minutes. `Cooling.ParseLabelExact` shows that only the exact text f'{h}h {m}m' reads
  back as (h, m).
