/**
 * The outside world the controller talks to: the nvidia-settings utility,
 * reached through check_output, the keyboard, polled without blocking, and
 * the one-second sleep. The utility's replies and the keys are given in
 * advance. Every command, poll and sleep is appended to a trace, so the
 * order of what the program does can be stated.
 */
module Oracle {
  import opened Wrappers

  /** The nvidia-settings invocations of the core, one constructor per query or assignment. */
  datatype Command =
    | QueryUtilization                   // localhost:0[gpu:0]/GPUUtilization
    | QueryTemperature                   // localhost:0[thermalsensor:0]/ThermalSensorReading
    | QueryGpuInfo(attribute: string)    // localhost:0[gpu:0]/<attribute>
    | QueryFanRpm                        // localhost:0[fan:0]/GPUCurrentFanSpeedRPM
    | AssignFanSpeed(percent: int)       // localhost:0[fan:0]/GPUCurrentFanSpeed=<percent>
    | AssignFanControlState(state: int)  // localhost:0[gpu:0]/GPUFanControlState=<state>
    | QueryFanControlState               // localhost:0[gpu:0]/GPUFanControlState

  const ClockFreqs: string := "GPUCurrentClockFreqs"
  const UsedMemory: string := "UsedDedicatedGPUMemory"

  /** One observable step: a command issued, a key polled (with what getch returned), a sleep. */
  datatype Event = Issue(cmd: Command) | Poll(key: int) | Sleep

  /** ord('q') */
  const QuitKey: int := 113
  /** What getch returns in no-delay mode when no key is waiting. */
  const NoKey: int := -1

  /**
   * The trace so far, the replies the utility gives to the commands in
   * turn (None: check_output raises, because the utility failed or could
   * not be run), how many commands have been answered, and the keys still
   * to be pressed.
   */
  datatype World = World(trace: seq<Event>, replies: seq<Option<string>>, answered: nat, keys: seq<int>)

  /** Why the script stops with an uncaught exception. */
  datatype Fault = CommandFailed | ValueError | IndexError

  datatype Result<T> = Ok(value: T) | Fail(fault: Fault)

  /** The world after a step, and what the step returned. */
  datatype Got<T> = Got(w: World, r: Result<T>)

  /** The reply the next command gets; past the given replies every command fails. */
  function NextReply(w: World): Result<string>
  {
    if w.answered < |w.replies| && w.replies[w.answered].Some? then Ok(w.replies[w.answered].value)
    else Fail(CommandFailed)
  }

  /** Running a command: it is traced and takes the next reply. */
  function Exec(w: World, cmd: Command): Got<string>
  {
    Got(w.(trace := w.trace + [Issue(cmd)], answered := w.answered + 1), NextReply(w))
  }

  /** The i-th key still to come, or NoKey once they are used up. */
  function KeyAt(keys: seq<int>, i: nat): int
  {
    if i < |keys| then keys[i] else NoKey
  }

  /** stdscr.getch() in no-delay mode: the next key, or NoKey. */
  function GetCh(w: World): (g: Got<int>)
    ensures g.r == Ok(KeyAt(w.keys, 0))
    ensures g.w.trace == w.trace + [Poll(KeyAt(w.keys, 0))]
    ensures g.w.replies == w.replies && g.w.answered == w.answered
    ensures g.w.keys == if w.keys == [] then [] else w.keys[1..]
  {
    var k := KeyAt(w.keys, 0);
    Got(w.(trace := w.trace + [Poll(k)], keys := if w.keys == [] then [] else w.keys[1..]), Ok(k))
  }

  /** sleep(1): only its place in the trace is kept. */
  function DoSleep(w: World): (v: World)
    ensures v.trace == w.trace + [Sleep] && v.replies == w.replies && v.answered == w.answered && v.keys == w.keys
  {
    w.(trace := w.trace + [Sleep])
  }

  /** The i-th key after one poll is the (i+1)-th before it. */
  lemma KeyAtNext(w: World, i: nat)
    ensures KeyAt(GetCh(w).w.keys, i) == KeyAt(w.keys, i + 1)
  {
  }
}
