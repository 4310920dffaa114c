# gpu_d fan controller, modelled in Dafny

`gpu_d_0.1n.py` is a Python 2 script that holds an NVIDIA GPU at a target
temperature. It calls the `nvidia-settings` utility to switch the fan to
manual control, and then loops forever:

- read the utilization, the temperature, the clocks, the fan rpm and the
  used memory;
- decide a new fan speed with a three-way rule that has a one-step
  hysteresis;
- assign that speed and keep the speed the utility confirms;
- spend five one-second polls waiting for the key `q`.

This project models that core and proves properties of it.

- **`Control`** holds `chek_new_speed` and the decision rule (`NewSpeed`).
  Both are pure functions over unbounded integers.
- **`PyStr`** holds the Python string built-ins the script relies on:
  - `strip`, `replace`, `split(',')`, `split()`, `rfind` and slices with
    Python's index rules;
  - Python 2 `int()`, which ignores surrounding whitespace and also
    whitespace between the sign and the digits;
  - `isdigit`.
- **`Telemetry`** reads the utility's replies:
  - the utilization transform and the four figures taken from it;
  - the temperature;
  - the speed confirmed by an assignment, `int(x[x.rfind(' ')+1:x.rfind('.')])`;
  - the check that the mode read back at startup is manual.
- **`Arguments`** holds the argument checks at the top level, which end
  in one of four ways:
  - exit(1) with the usage text;
  - exit(1) because the target is too high;
  - an IndexError when argv[2] or argv[3] is missing;
  - acceptance.
- **`Oracle`** is the outside world. It is a value made of:
  - a trace of every command, poll and sleep;
  - the replies the utility gives, one per command, in advance, where a
    missing reply means `check_output` raises;
  - the keys that will be pressed.
- **`Monitor`** has two parts:
  - the run as pure step functions: `SetSpeedSpec` and `GetTempSpec`, the
    iteration stages `TickSpec` → `TempSpec` → `ShowSpec` → `PanelSpec` →
    `FinishSpec` → `AssignSpec`, then the wait (`WaitSpec`) and the next
    iteration (`LoopSpec`), plus `SafeExitSpec`, `StartupSpec` and
    `ProgramSpec`;
  - the class `Monitor`, whose fields are the script's globals
    (`target_temp`, `current_speed`, `previous_temp`, `temp_delta`), the
    panel and the world. Its methods update those fields in place, the way
    the script does. Each method is proved to produce exactly what the step
    function of its stage gives for the old state.
- **`MonitorFacts`** holds the lemmas about the run:
  - the closed form of one iteration with readable replies, each way it
    crashes, and that it reaches the wait exactly when all eight replies
    arrive and convert;
  - the closed form of the wait, including when it sees `q`;
  - that the main loop never changes the fan-control mode;
  - that raising the iteration bound changes no run that has already ended;
  - how `safe_exit`, the startup and the argument checks end;
  - that a run ended by `q` leaves the fan in manual mode.

An uncaught exception ends the script. The model writes it as
`Crashed(CommandFailed | ValueError | IndexError)`.

Behaviour of the script worth noting:

- Any uncaught exception ends the script without `safe_exit`. That covers a
  failed command, an unreadable temperature, an unreadable confirmed speed,
  and an IndexError on the utilization figures or the clocks. The script has
  no try/except. `safe_exit` runs only when the mode read back at startup is
  not manual (gpu_d_0.1n.py:410-412).
- Pressing `q` returns from `monitor` without restoring automatic fan
  control (gpu_d_0.1n.py:277).
- The target `0` is accepted, because `"0".isdigit()` holds. Only
  `target_temp > 85` is refused.
- The warming branch caps at the literal 80 and has no floor. When the
  confirmed speed is already above 80, this branch lowers it to 80.
- The panel is refreshed (`pflush`, gpu_d_0.1n.py:270) before the new speed
  is assigned (gpu_d_0.1n.py:272), not after.
- The used memory is queried three times in every iteration
  (gpu_d_0.1n.py:247-249). It is not a query made once at startup.

## Model

| member | source | states |
|---|---|---|
| Control.ChekNewSpeed | gpu_d_0.1n.py:310-314 | the result lies in [60, 80], equals the input when the input is already in [60, 80], and is the value of [60, 80] nearest to the input |
| Control.ChekNewSpeedIdempotent | gpu_d_0.1n.py:310-314 | clamping twice gives the same as clamping once |
| Control.ChekNewSpeedMonotone | gpu_d_0.1n.py:310-314 | the clamp preserves the order of its inputs |
| Control.NewSpeed | gpu_d_0.1n.py:214-228 | the speed changes only when the temperature is outside target ± 1, and a changed speed is never above 80 |
| Control.InBandUnchanged | gpu_d_0.1n.py:216-228 | inside target − 1 … target + 1 the new speed is the current speed |
| Control.HotCoolingUnchanged | gpu_d_0.1n.py:218-219 | too hot but temp_delta ≤ −1 (already cooling): the speed is unchanged |
| Control.HotRaised | gpu_d_0.1n.py:218-223 | too hot and temp_delta > −1: new speed = min(current + (temp − target), 80), never above 80 |
| Control.ColdWarmingUnchanged | gpu_d_0.1n.py:225-226 | too cold but temp_delta ≥ 1 (already warming): the speed is unchanged |
| Control.ColdLowered | gpu_d_0.1n.py:225-228 | too cold and temp_delta < 1: new speed = chek_new_speed(current − (target − temp)), which lies in [60, 80] |
| Control.RangePreserved | gpu_d_0.1n.py:214-228 | a current speed in [60, 80] stays in [60, 80] after the decision |
| Control.CorrectiveDirection | gpu_d_0.1n.py:218-228 | when too hot the speed never drops (for speeds up to 80); when too cold it never rises (for speeds of at least 60) |
| Control.HotCapLowersHighSpeed | gpu_d_0.1n.py:221-223 | a current speed above 80 is lowered to 80 by the warming branch |
| Control.HotBranchHasNoFloor | gpu_d_0.1n.py:218-223 | the warming branch can leave a speed below 60 (target 70, speed 40, temp 72 gives 42) |
| Control.ScenarioRising | gpu_d_0.1n.py:218-223 | target 70, speed 70, 70 → 75 degrees: new speed 75 |
| Control.ScenarioFalling | gpu_d_0.1n.py:225-228 | target 70, speed 75, 75 → 62 degrees: new speed 67 |
| Control.ScenarioAlreadyCooling | gpu_d_0.1n.py:218-219 | target 70, speed 65, 80 → 72 degrees: the speed stays 65 |
| PyStr.LStripShape | gpu_d_0.1n.py:293 | lstrip returns a suffix whose removed prefix is made of stripped characters and whose first character is not one |
| PyStr.RStripShape | gpu_d_0.1n.py:293 | rstrip returns a prefix whose removed suffix is made of stripped characters and whose last character is not one |
| PyStr.LStripPadding | gpu_d_0.1n.py:293 | a leading run of stripped characters does not change lstrip |
| PyStr.RStripPadding | gpu_d_0.1n.py:293 | a trailing run of stripped characters does not change rstrip |
| PyStr.StripPadded | gpu_d_0.1n.py:293 | strip of padding + t + padding is t when t starts and ends with a kept character |
| PyStr.ReplaceAbsent | gpu_d_0.1n.py:293 | replacing a character that does not occur changes nothing |
| PyStr.ReplaceRemoves | gpu_d_0.1n.py:293 | after replace(c, rep) with c not in rep, c does not occur |
| PyStr.ReplaceAppend | gpu_d_0.1n.py:293 | replace distributes over concatenation |
| PyStr.Split | gpu_d_0.1n.py:213 | split(sep) gives at least one piece; the pieces contain no sep, and joined with sep they give back the input |
| PyStr.SplitCons | gpu_d_0.1n.py:213 | splitting a + sep + b gives a followed by the pieces of b, when a has no sep |
| PyStr.SplitNone | gpu_d_0.1n.py:230 | a text without sep splits into itself alone |
| PyStr.Words | gpu_d_0.1n.py:234-237 | split() gives non-empty words free of whitespace; a text starting with a non-blank starts its first word with that character |
| PyStr.WordsSpell | gpu_d_0.1n.py:234-237 | the words of split(), put together, are the text with its whitespace removed |
| PyStr.WordsCons | gpu_d_0.1n.py:234-237 | a blank-free word followed by whitespace (or by nothing) is the first word of split() |
| PyStr.WordsSkip | gpu_d_0.1n.py:234-237 | leading whitespace does not change split() |
| PyStr.RFind | gpu_d_0.1n.py:302 | rfind gives −1 or the index of an occurrence, and no occurrence lies after it |
| PyStr.RFindAt | gpu_d_0.1n.py:302 | the last occurrence is what rfind returns |
| PyStr.RFindAbsent | gpu_d_0.1n.py:302 | with no occurrence rfind returns −1 |
| PyStr.SliceBound | gpu_d_0.1n.py:302 | Python's slice index: kept when within bounds, counted from the end when negative, clipped into [0, len] otherwise |
| PyStr.Slice | gpu_d_0.1n.py:302 | x[i:j] is the subsequence i..j when 0 ≤ i ≤ j ≤ len, and empty when j ≤ i |
| PyStr.DigitChar | gpu_d_0.1n.py:302 | a digit below ten is spelled by the character whose offset from '0' is that digit |
| PyStr.Decimal | gpu_d_0.1n.py:301 | str(n) of a natural number is all digits, without a leading zero unless n is 0 |
| PyStr.DecimalValue | gpu_d_0.1n.py:301 | the digits of str(n) read back as n |
| PyStr.ParseIntDigits | gpu_d_0.1n.py:305 | int() of digits with whitespace around them is the number they spell |
| PyStr.ParseIntNegated | gpu_d_0.1n.py:305 | int() of "-" + digits with whitespace around is minus that number |
| PyStr.NegatedDigits | gpu_d_0.1n.py:305 | a stripped "-" followed by digits reads as the negated number |
| PyStr.ParseIntStr | gpu_d_0.1n.py:305 | int(str(n)) == n, also with whitespace around it |
| PyStr.ParseIntEmpty | gpu_d_0.1n.py:302 | int('') raises ValueError |
| Telemetry.UtilizationText | gpu_d_0.1n.py:293 | after the transform no '=' is left (each became ': ') |
| Telemetry.SecondWord | gpu_d_0.1n.py:234-237 | s.split()[1], when it exists, is a non-empty word without whitespace |
| Telemetry.UtilizationShown | gpu_d_0.1n.py:234-237 | when no IndexError occurs, four figures are shown, each a non-empty word without whitespace |
| Telemetry.Items | gpu_d_0.1n.py:293 | one transformed entry per entry of the reply, in order |
| Telemetry.ReplyEnds | gpu_d_0.1n.py:293 | a utilization reply starts and ends with a non-blank character |
| Telemetry.EntryTransform | gpu_d_0.1n.py:293 | "name=value" becomes "name: value" under the transform |
| Telemetry.SeparatorSpaceDropped | gpu_d_0.1n.py:293 | removing spaces turns each ", " separator into "," |
| Telemetry.SeparatorKept | gpu_d_0.1n.py:293 | the '=' replacement leaves the ',' separators alone |
| Telemetry.ReplyTransform | gpu_d_0.1n.py:293 | the transformed reply is the transformed entries joined by ',' |
| Telemetry.SplitJoin | gpu_d_0.1n.py:213 | split(sep) undoes a join by sep of pieces that contain no sep |
| Telemetry.ItemsNoComma | gpu_d_0.1n.py:213 | no transformed entry contains a ',' |
| Telemetry.ItemSecondWord | gpu_d_0.1n.py:234 | the second word of "name: value" is the value |
| Telemetry.UtilizationPieces | gpu_d_0.1n.py:213 | the transformed, comma-split reply (with any whitespace around it) is exactly the list of "name: value" entries |
| Telemetry.UtilizationRoundTrip | gpu_d_0.1n.py:234-237 | a reply of four or more entries shows the values of the first four, in order |
| Telemetry.UtilizationTooShort | gpu_d_0.1n.py:234-237 | a reply with fewer than four entries raises IndexError |
| Telemetry.TemperatureRoundTrip | gpu_d_0.1n.py:305 | a reading printed as a decimal, with whitespace around it, is read back exactly |
| Telemetry.ConfirmedSpeedBetween | gpu_d_0.1n.py:302 | the confirmed speed is int() of the characters strictly between the last ' ' and the last '.' |
| Telemetry.ConfirmedSpeedWithoutDot | gpu_d_0.1n.py:302 | without a '.', rfind gives −1 and the slice stops one character short of the end |
| Telemetry.ConfirmedSpeedDotBeforeSpace | gpu_d_0.1n.py:302 | when the last '.' precedes the last ' ', the slice is empty and the parse raises ValueError |
| Telemetry.StrPlain | gpu_d_0.1n.py:301 | str(n) contains neither ' ' nor '.' |
| Telemetry.ParseIntOfStr | gpu_d_0.1n.py:301 | int(str(n)) == n |
| Telemetry.ReplyShape | gpu_d_0.1n.py:302 | in head + digits + "." + tail, the separators sit where the confirmed-speed slice expects them |
| Telemetry.ConfirmedSpeedRoundTrip | gpu_d_0.1n.py:302 | a reply "... <n>." whose tail has no ' ' or '.' confirms n |
| Telemetry.PaddedOne | gpu_d_0.1n.py:408-410 | newlines, spaces, '1', spaces, newlines is read back as manual mode |
| Telemetry.ManualReplyAccepted | gpu_d_0.1n.py:408-410 | every reply of that shape passes strip('\n').strip(' ') == '1' |
| Telemetry.ManualReplyOnly | gpu_d_0.1n.py:408-410 | only replies of that shape pass the check |
| Telemetry.ManualPieces | gpu_d_0.1n.py:408-410 | a reply that passes the check splits into its padding pieces around '1' |
| Telemetry.ManualFromPieces | gpu_d_0.1n.py:408-410 | padding pieces around '1' make a reply of the manual shape |
| Telemetry.ModeIsManualIff | gpu_d_0.1n.py:408-410 | the check passes exactly when the reply is a '1' with newlines-then-spaces before it and spaces-then-newlines after it |
| Telemetry.StripPieces | gpu_d_0.1n.py:408 | a text is its stripped part with the removed characters on each side |
| Arguments.CheckArgs | gpu_d_0.1n.py:372-401 | an accepted target is at most 85; a target refused as too high is above 85 |
| Arguments.AcceptedIff | gpu_d_0.1n.py:372-401 | the arguments are accepted with target t exactly when argv[1..3] exist and are all digits, t is the value of argv[1], and t ≤ 85 |
| Arguments.MissingArgumentIff | gpu_d_0.1n.py:386-392 | the IndexError happens exactly when argv[1] is digits and argv[2] is missing, or argv[2] is digits and argv[3] is missing |
| Arguments.TargetIsDecimal | gpu_d_0.1n.py:377-378 | decimal arguments are accepted with the target they spell, when it is at most 85 |
| Arguments.ZeroTargetAccepted | gpu_d_0.1n.py:377-398 | a target of 0 is accepted |
| Arguments.TargetLimit | gpu_d_0.1n.py:398-401 | 86 is refused as too high; 85 is accepted |
| Arguments.SignedTargetRejected | gpu_d_0.1n.py:377-381 | "-5" fails isdigit and ends with the usage text |
| Oracle.GetCh | gpu_d_0.1n.py:277 | a poll returns the next key (−1 when none is left), consumes it and is traced |
| Oracle.DoSleep | gpu_d_0.1n.py:279 | sleep(1) only adds a Sleep to the trace |
| Oracle.KeyAtNext | gpu_d_0.1n.py:277 | after one poll the keys still to come move up by one |
| Monitor.SetSpeedSpec | gpu_d_0.1n.py:300-302 | set_speed issues one assignment; it succeeds exactly when the reply arrives and its confirmed speed parses, and then returns that confirmed speed |
| Monitor.GetTempSpec | gpu_d_0.1n.py:304-305 | get_temp issues one query; it succeeds exactly when the reply arrives and parses as int, and then returns that value |
| Monitor.Monitor.constructor | gpu_d_0.1n.py:86-94 | the globals start at zero with an empty trace, the given replies and the given keys |
| Monitor.Monitor.CheckOutput | gpu_d_0.1n.py:288-289 | one command issued and traced, its reply taken; the globals unchanged |
| Monitor.Monitor.SetSpeed | gpu_d_0.1n.py:300-302 | the world and the result are those of SetSpeedSpec; the globals unchanged |
| Monitor.Monitor.GetTemp | gpu_d_0.1n.py:304-305 | the world and the result are those of GetTempSpec; the globals unchanged |
| Monitor.Monitor.GetCh | gpu_d_0.1n.py:277 | the key and the world are those of one poll |
| Monitor.Monitor.Sleep | gpu_d_0.1n.py:279 | the world is that of one sleep |
| Monitor.Monitor.Tick | gpu_d_0.1n.py:213-273 | one iteration up to the wait: the globals, the panel, the world and the status reached are exactly those TickSpec gives for the iteration alone |
| Monitor.Monitor.Show | gpu_d_0.1n.py:215-237 | temp_delta, the decision, the clocks query and the utilization figures: the state and status reached are exactly those ShowSpec gives to the end of the iteration |
| Monitor.Monitor.Panel | gpu_d_0.1n.py:243-246 | the rpm query and the clocks on the panel: the state and status reached are exactly those PanelSpec gives to the end of the iteration |
| Monitor.Monitor.Finish | gpu_d_0.1n.py:247-273 | the three used-memory queries, the panel refresh and the assignment: the state and status reached are exactly those FinishSpec gives |
| Monitor.Monitor.Assign | gpu_d_0.1n.py:272-273 | current_speed becomes the confirmed speed and previous_temp the temperature just read, and nothing else changes: exactly the state AssignSpec gives |
| Monitor.Monitor.Wait | gpu_d_0.1n.py:275-280 | the polls and sleeps of the wait and whether 'q' was read, as WaitSpec gives them; the globals unchanged |
| Monitor.Monitor.MainLoop | gpu_d_0.1n.py:212-280 | the final globals, world and status are those of LoopSpec for the given iteration bound |
| Monitor.Monitor.SafeExit | gpu_d_0.1n.py:316-320 | the state reached is the one SafeExitSpec gives |
| Monitor.Monitor.Startup | gpu_d_0.1n.py:403-417 | the state reached is the one StartupSpec gives |
| Monitor.Monitor.ManualStart | gpu_d_0.1n.py:414-417 | current_speed is the speed confirmed for 70, previous_temp the first reading, temp_delta 0, as ManualStartSpec gives them |
| Monitor.Monitor.Run | gpu_d_0.1n.py:372-420 | the whole script ends in the state ProgramSpec gives |
| MonitorFacts.PanelOfReplies | gpu_d_0.1n.py:233-246 | the panel built from the replies is the iteration's panel |
| MonitorFacts.TickToPanel | gpu_d_0.1n.py:213-246 | with readable replies, the first four commands lead to the panel refresh with the decided speed |
| MonitorFacts.FinishRun | gpu_d_0.1n.py:247-273 | the last four commands are three used-memory queries and then the assignment of the decided speed |
| MonitorFacts.FinishEffect | gpu_d_0.1n.py:247-273 | the same, with the used memory and the confirmed speed given by value |
| MonitorFacts.FinishValueError | gpu_d_0.1n.py:272 | an unreadable confirmation crashes with ValueError after the assignment, with the panel already refreshed |
| MonitorFacts.LaterReplies | gpu_d_0.1n.py:247-272 | after the four reads, the next replies are the used memory and the confirmation |
| MonitorFacts.TickEffect | gpu_d_0.1n.py:212-273 | with eight readable replies, one iteration issues exactly utilization, temperature, clocks, rpm, used memory ×3 and then one set_speed(new speed), in that order; current_speed becomes the confirmed speed, previous_temp the temperature, temp_delta its change, and the panel shows new − current as the fan delta |
| MonitorFacts.TickReadFailed | gpu_d_0.1n.py:213-243 | a failed utilization, temperature, clocks or rpm query (command k of 0 … 3) ends the run after k + 1 commands, with only temp_delta updated once the temperature has been read |
| MonitorFacts.TickClocksIndexError | gpu_d_0.1n.py:243-245 | fewer than two comma pieces in the clocks reply crash with IndexError after the rpm query, before any assignment |
| MonitorFacts.FinishFailed | gpu_d_0.1n.py:247-272 | a failed used-memory query or assignment ends the run there; the panel is refreshed only when the assignment is the command that failed |
| MonitorFacts.TickLaterFailed | gpu_d_0.1n.py:247-272 | once the readings are in, a failed command k of 4 … 7 ends the run after k + 1 commands with current_speed and previous_temp unchanged |
| MonitorFacts.TickTemperatureValueError | gpu_d_0.1n.py:214 | an unreadable temperature crashes with ValueError before any decision or assignment |
| MonitorFacts.TickFiguresIndexError | gpu_d_0.1n.py:230-237 | missing utilization figures crash with IndexError after the clocks query, before any assignment |
| MonitorFacts.TickSpeedValueError | gpu_d_0.1n.py:247-272 | an unreadable confirmation crashes with ValueError after all eight commands, with current_speed and previous_temp unchanged |
| MonitorFacts.TickRuns | gpu_d_0.1n.py:213-273 | an iteration reaches the wait exactly when all eight replies arrive and convert |
| MonitorFacts.TickReadHalts | gpu_d_0.1n.py:213-245 | readings that do not all arrive and convert end the run within the first four commands |
| MonitorFacts.TickLaterHalts | gpu_d_0.1n.py:247-272 | with the readings in, a missing later reply or an unreadable confirmation ends the run |
| MonitorFacts.FirstQuit | gpu_d_0.1n.py:275-280 | the index of the first 'q' among the polls, or the number of polls when there is none |
| MonitorFacts.PollStep | gpu_d_0.1n.py:277-280 | one poll reads the next key, and a sleep after it completes one round of the wait |
| MonitorFacts.WaitFrom | gpu_d_0.1n.py:275-280 | from any round on, the wait polls up to the first 'q', sleeping after each other key |
| MonitorFacts.WaitShape | gpu_d_0.1n.py:275-280 | the wait is five polls each followed by a sleep, or the polls up to the first 'q' with no sleep after it |
| MonitorFacts.WaitQuitIff | gpu_d_0.1n.py:275-280 | the wait ends by 'q' exactly when one of the next five keys is 'q' |
| MonitorFacts.KeepsModeTrans | gpu_d_0.1n.py:212-280 | leaving the fan-control mode alone composes |
| MonitorFacts.KeepsModeAppend | gpu_d_0.1n.py:212-280 | new events without a mode assignment leave the mode alone |
| MonitorFacts.KeepsModeAfter | gpu_d_0.1n.py:212-280 | a trace that extends another without mode changes is that trace plus mode-free events |
| MonitorFacts.ExecKeepsMode | gpu_d_0.1n.py:230-272 | any command other than GPUFanControlState= leaves the mode alone |
| MonitorFacts.WaitKeepsMode | gpu_d_0.1n.py:275-280 | the wait issues no mode assignment |
| MonitorFacts.LoopKeepsMode | gpu_d_0.1n.py:212-280 | however many iterations run, the main loop never assigns GPUFanControlState |
| MonitorFacts.TickKeepsMode | gpu_d_0.1n.py:213 | the same, from the utilization query on |
| MonitorFacts.TempKeepsMode | gpu_d_0.1n.py:214 | the same, from the temperature query on |
| MonitorFacts.ShowKeepsMode | gpu_d_0.1n.py:230 | the same, from the clocks query on |
| MonitorFacts.PanelKeepsMode | gpu_d_0.1n.py:243 | the same, from the rpm query on |
| MonitorFacts.FinishKeepsMode | gpu_d_0.1n.py:247-249 | the same, from the used-memory queries on |
| MonitorFacts.AssignKeepsMode | gpu_d_0.1n.py:272 | the same, from the assignment of the speed on |
| MonitorFacts.AfterTickKeepsMode | gpu_d_0.1n.py:275-280 | the same, from the wait on |
| MonitorFacts.LoopSettled | gpu_d_0.1n.py:212 | a run that has ended within the bound ends the same way with one more iteration allowed |
| MonitorFacts.TickSettled | gpu_d_0.1n.py:213 | the same, from the utilization query on |
| MonitorFacts.TempSettled | gpu_d_0.1n.py:214 | the same, from the temperature query on |
| MonitorFacts.ShowSettled | gpu_d_0.1n.py:230 | the same, from the clocks query on |
| MonitorFacts.PanelSettled | gpu_d_0.1n.py:243 | the same, from the rpm query on |
| MonitorFacts.FinishSettled | gpu_d_0.1n.py:247-249 | the same, from the used-memory queries on |
| MonitorFacts.AssignSettled | gpu_d_0.1n.py:272 | the same, from the assignment of the speed on |
| MonitorFacts.AfterTickSettled | gpu_d_0.1n.py:275-280 | the same, from the wait on |
| MonitorFacts.SafeExitOrder | gpu_d_0.1n.py:316-320 | safe_exit assigns 80% strictly before GPUFanControlState=0, issues nothing else, and exits with the given code |
| MonitorFacts.SafeExitValueError | gpu_d_0.1n.py:316-318 | an unreadable confirmation of the 80% crashes before automatic mode is restored |
| MonitorFacts.StartupHead | gpu_d_0.1n.py:403-414 | the startup assigns manual mode, reads it back, and continues with the manual start or with safe_exit(1) according to the check |
| MonitorFacts.StartupRefused | gpu_d_0.1n.py:404-412 | a read-back that is not manual runs safe_exit(1): the mode commands, then 80%, then automatic mode, then exit code 1 |
| MonitorFacts.StartupManual | gpu_d_0.1n.py:414-417 | a manual read-back sets 70%, reads the first temperature, and gives current_speed = the confirmed speed, previous_temp = that reading, temp_delta = 0 |
| MonitorFacts.StartupRunning | gpu_d_0.1n.py:403-417 | the main loop is reached only after manual mode was requested and confirmed, and nothing afterwards changes the mode |
| MonitorFacts.ManualStartEvents | gpu_d_0.1n.py:415-416 | the manual start issues only the 70% assignment and the temperature query |
| MonitorFacts.StartupNeverQuits | gpu_d_0.1n.py:403-417 | the startup never ends the way 'q' does |
| MonitorFacts.ProgramRejects | gpu_d_0.1n.py:372-401 | rejected arguments end the script before any command, with exit(1) or, for a missing size, IndexError |
| MonitorFacts.ProgramLeavesManual | gpu_d_0.1n.py:277 | a run that ends by 'q' had accepted arguments, requested manual mode first, and never gave control back (no GPUFanControlState=0 afterwards) |

## Left out

- The curses screen is not modelled. That includes `wGetchar`, `Getchar`, `wait_a_while`, `saywhat`, `mkpanel`, `put_text`, `win.box()` and the window set-up in `monitor`. The panel is kept only as the value its fields would show (`Display`), set when `pflush()` runs. The constant '99' and the static labels are not part of it.
- The one-time queries that `monitor` makes before its loop (gpu_d_0.1n.py:167-180) are left out: PCIe generation, link width and speed, total memory, CUDA cores and the driver version. The link speeds are floating point (`round(int(..)/1000, 2)`). These are commands that could also fail before the loop starts; the model starts the loop without them.
- The terminal-window plumbing is left out: the `wmctrl` check and install prompt (gpu_d_0.1n.py:365-370), the two `wmctrl` calls after the startup (gpu_d_0.1n.py:418-419), `print_usage`, `print_disclaimer`, all printing, and `curses.wrapper`. The pixel sizes argv[2] and argv[3] are checked, but their values are not used, because they only size the window.
- `nvidia-settings` itself is not modelled. Its replies are given in advance, one per command. A missing reply stands for every way `check_output` can raise (a non-zero exit, a missing binary), so all of them are one fault, `CommandFailed`.
- Real time is not modelled. `sleep(1)` is a `Sleep` event in the trace, and `getch` in no-delay mode returns the next given key, or −1 when none is left.
- Monitor.LoopSpec: the `while 1` main loop is bounded by an iteration count (`fuel`), so a run that never sees `q` and never crashes is cut off while still `Running`. `LoopSettled` shows that the bound changes no run that has already ended.
- PyStr.ParseInt: Python 2 `int()` is modelled for base-10 ASCII text with ASCII whitespace. `long` results, Unicode digits and other bases are not modelled, and the integers are unbounded.
- PyStr.IsDigits: `isdigit` is modelled for the ASCII digits; other characters Python counts as digits are not.
- The commented-out blocks (gpu_d_0.1n.py:150-157, 182-196, 256-267, 281-282, 383-384) are not code and are not modelled.
- Monitor.ProgramSpec: the script assigns `target_temp` from argv[1] (gpu_d_0.1n.py:378) before it checks argv[2], argv[3] and the limit of 85; when one of those checks then fails the model leaves `targetTemp` at its old value. Nothing can observe the difference, because the script then exits or raises.
- Only the single GPU and single fan the script addresses (`gpu:0`, `fan:0`, `thermalsensor:0`) are modelled.
