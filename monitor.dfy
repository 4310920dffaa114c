/**
 * The controller's run as a sequence of steps, each a pure function of the
 * globals and the outside world: the step functions set_speed and get_temp,
 * one iteration of the main loop of monitor, the wait for 'q' that ends it,
 * safe_exit, the startup sequence and the whole program.
 */
module Monitor {
  import opened Wrappers
  import opened PyStr
  import opened Control
  import opened Telemetry
  import opened Oracle
  import opened Arguments

  /** What the panel shows after a refresh (pflush). */
  datatype Display = Display(
    utilization: seq<string>,
    target: int,
    currentTemp: int,
    tempDelta: int,
    currentSpeed: int,
    fanDelta: int,
    rpm: string,
    graphicsClock: string,
    memoryClock: string,
    usedMemory: string)

  /** The globals target_temp, current_speed, previous_temp and temp_delta, and the panel. */
  datatype Globals = Globals(
    targetTemp: int,
    currentSpeed: int,
    previousTemp: int,
    tempDelta: int,
    screen: Option<Display>)

  /** The values the globals hold when the script starts. */
  const Initial: Globals := Globals(0, 0, 0, 0, None)

  /** Running: the step finished normally; the others end the program. */
  datatype Status = Running | Quit | Exited(code: int) | Crashed(fault: Fault)

  datatype Outcome = Outcome(g: Globals, w: World, status: Status)

  /** The result of the wait: the world afterwards and whether 'q' was read. */
  datatype Waited = Waited(w: World, quit: bool)

  /** The number of polls in one wait. */
  const WaitPolls: nat := 5

  // ---------------------------------------------------------------- single commands

  /** set_speed: assign, then read the confirmed speed out of the reply (ValueError if unreadable). */
  function SetSpeedSpec(w: World, speed: int): (g: Got<int>)
    ensures g.w == Exec(w, AssignFanSpeed(speed)).w
    ensures g.r.Ok? <==> NextReply(w).Ok? && ConfirmedSpeed(NextReply(w).value).Some?
    ensures g.r.Ok? ==> g.r.value == ConfirmedSpeed(NextReply(w).value).value
  {
    var x := Exec(w, AssignFanSpeed(speed));
    if x.r.Fail? then Got(x.w, Fail(x.r.fault))
    else
      var c := ConfirmedSpeed(x.r.value);
      if c.None? then Got(x.w, Fail(ValueError)) else Got(x.w, Ok(c.value))
  }

  /** get_temp: the reading, through int(). */
  function GetTempSpec(w: World): (g: Got<int>)
    ensures g.w == Exec(w, QueryTemperature).w
    ensures g.r.Ok? <==> NextReply(w).Ok? && Temperature(NextReply(w).value).Some?
    ensures g.r.Ok? ==> g.r.value == Temperature(NextReply(w).value).value
  {
    var x := Exec(w, QueryTemperature);
    if x.r.Fail? then Got(x.w, Fail(x.r.fault))
    else
      var t := Temperature(x.r.value);
      if t.None? then Got(x.w, Fail(ValueError)) else Got(x.w, Ok(t.value))
  }

  // ---------------------------------------------------------------- the main loop

  /*
   * while 1 is given by the behaviour from each point of its body on: a
   * function per stage of one iteration, the last of which hands over to
   * the wait and the next iteration. rest counts the iterations the loop
   * may still complete, the current one included; with rest == 0 a stage
   * stops where the tick ends, before the wait, and so describes what is
   * left of the tick alone.
   */

  /** while 1, bounded by fuel iterations. */
  function LoopSpec(g: Globals, w: World, fuel: nat): Outcome
    decreases fuel, 8
  {
    if fuel == 0 then Outcome(g, w, Running) else TickSpec(g, w, fuel)
  }

  /**
   * One iteration from its start. Each failing command or conversion ends
   * the program there, with the globals as far as they were updated. The
   * first stage: the utilization text is read.
   */
  function TickSpec(g: Globals, w: World, rest: nat): Outcome
    decreases rest, 7
  {
    var u := Exec(w, QueryUtilization);
    if u.r.Fail? then Outcome(g, u.w, Crashed(u.r.fault))
    else TempSpec(g, u.w, u.r.value, rest)
  }

  /** The next stage: the temperature is read. */
  function TempSpec(g: Globals, w: World, utilization: string, rest: nat): Outcome
    decreases rest, 6
  {
    var t := GetTempSpec(w);
    if t.r.Fail? then Outcome(g, t.w, Crashed(t.r.fault))
    else ShowSpec(g, t.w, utilization, t.r.value, rest)
  }

  /**
   * The third stage: the delta and the decision, then the clocks are read
   * and split, and the utilization figures are picked out of the first
   * reply (None: the IndexError of lines 234-237).
   */
  function ShowSpec(g: Globals, w: World, utilization: string, currentTemp: int, rest: nat): Outcome
    decreases rest, 5
  {
    var delta := currentTemp - g.previousTemp;
    var g1 := g.(tempDelta := delta);
    var newSpeed := NewSpeed(g.targetTemp, g.currentSpeed, delta, currentTemp);
    var f := Exec(w, QueryGpuInfo(ClockFreqs));
    if f.r.Fail? then Outcome(g1, f.w, Crashed(f.r.fault))
    else
      var shown := UtilizationShown(utilization);
      if shown.None? then Outcome(g1, f.w, Crashed(IndexError))
      else PanelSpec(g1, f.w, shown.value, Split(f.r.value, ','), currentTemp, newSpeed, rest)
  }

  /**
   * The fourth stage: the rpm is read and the clocks are picked out of
   * their reply (an IndexError with fewer than two pieces), which
   * completes the panel but for the used memory.
   */
  function PanelSpec(g: Globals, w: World, shown: seq<string>, freqs: seq<string>, currentTemp: int,
                     newSpeed: int, rest: nat): Outcome
    decreases rest, 4
  {
    var rpm := Exec(w, QueryFanRpm);
    if rpm.r.Fail? then Outcome(g, rpm.w, Crashed(rpm.r.fault))
    else if |freqs| < 2 then Outcome(g, rpm.w, Crashed(IndexError))
    else
      var panel := Display(shown, g.targetTemp, currentTemp, g.tempDelta, g.currentSpeed,
                           newSpeed - g.currentSpeed, rpm.r.value, freqs[0], freqs[1], []);
      FinishSpec(g, rpm.w, panel, newSpeed, rest)
  }

  /** The fifth stage: the used memory is read three times and the panel is refreshed. */
  function FinishSpec(g: Globals, w: World, panel: Display, newSpeed: int, rest: nat): Outcome
    decreases rest, 3
  {
    var m1 := Exec(w, QueryGpuInfo(UsedMemory));
    if m1.r.Fail? then Outcome(g, m1.w, Crashed(m1.r.fault))
    else
      var m2 := Exec(m1.w, QueryGpuInfo(UsedMemory));
      if m2.r.Fail? then Outcome(g, m2.w, Crashed(m2.r.fault))
      else
        var m3 := Exec(m2.w, QueryGpuInfo(UsedMemory));
        if m3.r.Fail? then Outcome(g, m3.w, Crashed(m3.r.fault))
        else
          AssignSpec(g.(screen := Some(panel.(usedMemory := m3.r.value))), m3.w, newSpeed, panel.currentTemp, rest)
  }

  /**
   * The last stage: the new speed is assigned, and the confirmed speed and
   * the temperature become current_speed and previous_temp.
   */
  function AssignSpec(g: Globals, w: World, newSpeed: int, currentTemp: int, rest: nat): Outcome
    decreases rest, 2
  {
    var s := SetSpeedSpec(w, newSpeed);
    if s.r.Fail? then Outcome(g, s.w, Crashed(s.r.fault))
    else AfterTick(g.(currentSpeed := s.r.value, previousTemp := currentTemp), s.w, rest)
  }

  /**
   * After a tick that finished normally: the wait, then 'q' returns from
   * monitor, otherwise the next iteration; with no iteration left, the
   * state the tick left.
   */
  function AfterTick(g: Globals, w: World, rest: nat): Outcome
    decreases rest, 1
  {
    if rest == 0 then Outcome(g, w, Running)
    else
      var q := WaitSpec(w, 0);
      if q.quit then Outcome(g, q.w, Quit) else LoopSpec(g, q.w, rest - 1)
  }

  /** What follows a stopped stage o when rest iterations remain: o itself, unless the tick went through. */
  function Continue(o: Outcome, rest: nat): Outcome
  {
    if o.status != Running then o else AfterTick(o.g, o.w, rest)
  }

  /** After the wait, 'q' returns and anything else starts the next iteration. */
  lemma WaitEnds(g: Globals, w: World, rest: nat, next: nat, q: Waited)
    requires rest == next + 1 && q == WaitSpec(w, 0)
    ensures AfterTick(g, w, rest) == if q.quit then Outcome(g, q.w, Quit) else LoopSpec(g, q.w, next)
  {
  }

  /*
   * Each stage does the same whatever follows it: its run with rest
   * iterations left is its run to the end of the tick, continued.
   */

  lemma AssignThen(g: Globals, w: World, newSpeed: int, currentTemp: int, rest: nat)
    ensures AssignSpec(g, w, newSpeed, currentTemp, rest) == Continue(AssignSpec(g, w, newSpeed, currentTemp, 0), rest)
  {
  }

  lemma FinishThen(g: Globals, w: World, panel: Display, newSpeed: int, rest: nat)
    ensures FinishSpec(g, w, panel, newSpeed, rest) == Continue(FinishSpec(g, w, panel, newSpeed, 0), rest)
  {
    var m1 := Exec(w, QueryGpuInfo(UsedMemory));
    var m2 := Exec(m1.w, QueryGpuInfo(UsedMemory));
    var m3 := Exec(m2.w, QueryGpuInfo(UsedMemory));
    if m1.r.Ok? && m2.r.Ok? && m3.r.Ok? {
      AssignThen(g.(screen := Some(panel.(usedMemory := m3.r.value))), m3.w, newSpeed, panel.currentTemp, rest);
    }
  }

  lemma PanelThen(g: Globals, w: World, shown: seq<string>, freqs: seq<string>, currentTemp: int,
                  newSpeed: int, rest: nat)
    ensures PanelSpec(g, w, shown, freqs, currentTemp, newSpeed, rest)
         == Continue(PanelSpec(g, w, shown, freqs, currentTemp, newSpeed, 0), rest)
  {
    var rpm := Exec(w, QueryFanRpm);
    if rpm.r.Ok? && |freqs| >= 2 {
      var panel := Display(shown, g.targetTemp, currentTemp, g.tempDelta, g.currentSpeed,
                           newSpeed - g.currentSpeed, rpm.r.value, freqs[0], freqs[1], []);
      FinishThen(g, rpm.w, panel, newSpeed, rest);
    }
  }

  lemma ShowThen(g: Globals, w: World, utilization: string, currentTemp: int, rest: nat)
    ensures ShowSpec(g, w, utilization, currentTemp, rest) == Continue(ShowSpec(g, w, utilization, currentTemp, 0), rest)
  {
    var f := Exec(w, QueryGpuInfo(ClockFreqs));
    var shown := UtilizationShown(utilization);
    if f.r.Ok? && shown.Some? {
      var delta := currentTemp - g.previousTemp;
      PanelThen(g.(tempDelta := delta), f.w, shown.value, Split(f.r.value, ','), currentTemp,
                NewSpeed(g.targetTemp, g.currentSpeed, delta, currentTemp), rest);
    }
  }

  lemma TickThen(g: Globals, w: World, rest: nat)
    ensures TickSpec(g, w, rest) == Continue(TickSpec(g, w, 0), rest)
  {
    var u := Exec(w, QueryUtilization);
    if u.r.Ok? {
      var t := GetTempSpec(u.w);
      if t.r.Ok? {
        ShowThen(g, t.w, u.r.value, t.r.value, rest);
      }
    }
  }

  /** The wait from poll number count on: getch, and on anything but 'q' a sleep. */
  function WaitSpec(w: World, count: nat): Waited
    decreases WaitPolls - count
  {
    if count >= WaitPolls then Waited(w, false)
    else
      var k := GetCh(w);
      if k.r.value == QuitKey then Waited(k.w, true)
      else WaitSpec(DoSleep(k.w), count + 1)
  }

  // ---------------------------------------------------------------- exit and startup

  /** safe_exit(code): full speed, then automatic fan control, then exit(code). */
  function SafeExitSpec(g: Globals, w: World, code: int): Outcome
  {
    var s := SetSpeedSpec(w, FanSpeedUpLim);
    if s.r.Fail? then Outcome(g, s.w, Crashed(s.r.fault))
    else
      var a := Exec(s.w, AssignFanControlState(0));
      if a.r.Fail? then Outcome(g, a.w, Crashed(a.r.fault))
      else Outcome(g, a.w, Exited(code))
  }

  /**
   * Lines 404-412: switch to manual control, read the mode back, and give
   * up through safe_exit(1) unless the read-back says manual.
   */
  function StartupSpec(g: Globals, w: World): Outcome
  {
    var a := Exec(w, AssignFanControlState(1));
    if a.r.Fail? then Outcome(g, a.w, Crashed(a.r.fault))
    else
      var m := Exec(a.w, QueryFanControlState);
      if m.r.Fail? then Outcome(g, m.w, Crashed(m.r.fault))
      else if !ModeIsManual(m.r.value) then SafeExitSpec(g, m.w, 1)
      else ManualStartSpec(g, m.w)
  }

  /** Lines 414-417: set 70%, read the first temperature and clear the delta. */
  function ManualStartSpec(g: Globals, w: World): Outcome
  {
    var s := SetSpeedSpec(w, 70);
    if s.r.Fail? then Outcome(g, s.w, Crashed(s.r.fault))
    else
      var g1 := g.(currentSpeed := s.r.value);
      var t := GetTempSpec(s.w);
      if t.r.Fail? then Outcome(g1, t.w, Crashed(t.r.fault))
      else Outcome(g1.(previousTemp := t.r.value, tempDelta := 0), t.w, Running)
  }

  /** The whole script, with the main loop bounded by fuel iterations. */
  function ProgramSpec(g: Globals, w: World, argv: seq<string>, fuel: nat): Outcome
  {
    match CheckArgs(argv)
    case MissingArgument => Outcome(g, w, Crashed(IndexError))
    case Usage => Outcome(g, w, Exited(1))
    case TooHigh(_) => Outcome(g, w, Exited(1))
    case Accepted(t) =>
      var s := StartupSpec(g.(targetTemp := t), w);
      if s.status != Running then s else LoopSpec(s.g, s.w, fuel)
  }

  // ---------------------------------------------------------------- the running script

  /**
   * The script's state while it runs: its globals, the panel, and the
   * outside world it has been given and has acted on so far.
   */
  class Monitor {
    var targetTemp: int
    var currentSpeed: int
    var previousTemp: int
    var tempDelta: int
    var screen: Option<Display>
    var trace: seq<Event>
    var replies: seq<Option<string>>
    var answered: nat
    var keys: seq<int>

    function Vars(): Globals
      reads this
    {
      Globals(targetTemp, currentSpeed, previousTemp, tempDelta, screen)
    }

    function Outside(): World
      reads this
    {
      World(trace, replies, answered, keys)
    }

    /** The globals as the script sets them first, facing the given replies and keys. */
    constructor(replies: seq<Option<string>>, keys: seq<int>)
      ensures Vars() == Initial && Outside() == World([], replies, 0, keys)
    {
      targetTemp, currentSpeed, previousTemp, tempDelta := 0, 0, 0, 0;
      screen := None;
      trace := [];
      this.replies := replies;
      answered := 0;
      this.keys := keys;
    }

    /** check_output of one nvidia-settings command. */
    method CheckOutput(cmd: Command) returns (r: Result<string>)
      modifies this
      ensures Got(Outside(), r) == Exec(old(Outside()), cmd)
      ensures Vars() == old(Vars())
    {
      if answered < |replies| && replies[answered].Some? {
        r := Ok(replies[answered].value);
      } else {
        r := Fail(CommandFailed);
      }
      trace := trace + [Issue(cmd)];
      answered := answered + 1;
    }

    method SetSpeed(speed: int) returns (r: Result<int>)
      modifies this
      ensures Got(Outside(), r) == SetSpeedSpec(old(Outside()), speed)
      ensures Vars() == old(Vars())
    {
      var x := CheckOutput(AssignFanSpeed(speed));
      if x.Fail? {
        return Fail(x.fault);
      }
      var c := ConfirmedSpeed(x.value);
      r := if c.None? then Fail(ValueError) else Ok(c.value);
    }

    method GetTemp() returns (r: Result<int>)
      modifies this
      ensures Got(Outside(), r) == GetTempSpec(old(Outside()))
      ensures Vars() == old(Vars())
    {
      var x := CheckOutput(QueryTemperature);
      if x.Fail? {
        return Fail(x.fault);
      }
      var t := Temperature(x.value);
      r := if t.None? then Fail(ValueError) else Ok(t.value);
    }

    method GetCh() returns (key: int)
      modifies this
      ensures Got(Outside(), Ok(key)) == Oracle.GetCh(old(Outside()))
      ensures Vars() == old(Vars())
    {
      key := KeyAt(keys, 0);
      trace := trace + [Poll(key)];
      if keys != [] {
        keys := keys[1..];
      }
    }

    method Sleep()
      modifies this
      ensures Outside() == DoSleep(old(Outside()))
      ensures Vars() == old(Vars())
    {
      trace := trace + [Event.Sleep];
    }

    /** One iteration of the main loop, up to the wait. */
    method Tick() returns (status: Status)
      modifies this
      ensures Outcome(Vars(), Outside(), status) == TickSpec(old(Vars()), old(Outside()), 0)
    {
      ghost var g0, w0 := Vars(), Outside();
      var u := CheckOutput(QueryUtilization);
      if u.Fail? {
        return Crashed(u.fault);
      }
      ghost var w1 := Outside();
      var t := GetTemp();
      if t.Fail? {
        return Crashed(t.fault);
      }
      assert TickSpec(g0, w0, 0) == TempSpec(g0, w1, u.value, 0);
      assert TempSpec(g0, w1, u.value, 0) == ShowSpec(Vars(), Outside(), u.value, t.value, 0);
      status := Show(u.value, t.value);
    }

    method Show(utilization: string, currentTemp: int) returns (status: Status)
      modifies this
      ensures Outcome(Vars(), Outside(), status) == ShowSpec(old(Vars()), old(Outside()), utilization, currentTemp, 0)
    {
      ghost var g0, w0 := Vars(), Outside();
      var speed := currentSpeed;
      tempDelta := currentTemp - previousTemp;
      var newSpeed := NewSpeed(targetTemp, speed, tempDelta, currentTemp);
      var f := CheckOutput(QueryGpuInfo(ClockFreqs));
      if f.Fail? {
        return Crashed(f.fault);
      }
      var freqs := Split(f.value, ',');
      var shown := UtilizationShown(utilization);
      if shown.None? {
        return Crashed(IndexError);
      }
      assert ShowSpec(g0, w0, utilization, currentTemp, 0)
          == PanelSpec(Vars(), Outside(), shown.value, freqs, currentTemp, newSpeed, 0);
      status := Panel(shown.value, freqs, currentTemp, newSpeed);
    }

    method Panel(shown: seq<string>, freqs: seq<string>, currentTemp: int, newSpeed: int)
      returns (status: Status)
      modifies this
      ensures Outcome(Vars(), Outside(), status) == PanelSpec(old(Vars()), old(Outside()), shown, freqs, currentTemp, newSpeed, 0)
    {
      ghost var g0, w0 := Vars(), Outside();
      var rpm := CheckOutput(QueryFanRpm);
      if rpm.Fail? {
        return Crashed(rpm.fault);
      }
      if |freqs| < 2 {
        return Crashed(IndexError);
      }
      var panel := Display(shown, targetTemp, currentTemp, tempDelta, currentSpeed,
                           newSpeed - currentSpeed, rpm.value, freqs[0], freqs[1], []);
      assert PanelSpec(g0, w0, shown, freqs, currentTemp, newSpeed, 0) == FinishSpec(Vars(), Outside(), panel, newSpeed, 0);
      status := Finish(panel, newSpeed);
    }

    method Finish(panel: Display, newSpeed: int) returns (status: Status)
      modifies this
      ensures Outcome(Vars(), Outside(), status) == FinishSpec(old(Vars()), old(Outside()), panel, newSpeed, 0)
    {
      var used := CheckOutput(QueryGpuInfo(UsedMemory));
      if used.Fail? {
        return Crashed(used.fault);
      }
      used := CheckOutput(QueryGpuInfo(UsedMemory));
      if used.Fail? {
        return Crashed(used.fault);
      }
      used := CheckOutput(QueryGpuInfo(UsedMemory));
      if used.Fail? {
        return Crashed(used.fault);
      }
      screen := Some(panel.(usedMemory := used.value));
      status := Assign(newSpeed, panel.currentTemp);
    }

    method Assign(newSpeed: int, currentTemp: int) returns (status: Status)
      modifies this
      ensures Outcome(Vars(), Outside(), status) == AssignSpec(old(Vars()), old(Outside()), newSpeed, currentTemp, 0)
    {
      var s := SetSpeed(newSpeed);
      if s.Fail? {
        return Crashed(s.fault);
      }
      currentSpeed := s.value;
      previousTemp := currentTemp;
      return Running;
    }

    /** The wait after each tick: at most five polls, with a sleep after each key that is not 'q'. */
    method Wait() returns (quit: bool)
      modifies this
      ensures Waited(Outside(), quit) == WaitSpec(old(Outside()), 0)
      ensures Vars() == old(Vars())
    {
      var count := 0;
      while count < WaitPolls
        invariant count <= WaitPolls
        invariant WaitSpec(old(Outside()), 0) == WaitSpec(Outside(), count)
        invariant Vars() == old(Vars())
      {
        var k := GetCh();
        if k == QuitKey {
          return true;
        }
        Sleep();
        count := count + 1;
      }
      return false;
    }

    /** The main loop of monitor, for at most fuel iterations. */
    method MainLoop(fuel: nat) returns (status: Status)
      modifies this
      ensures Outcome(Vars(), Outside(), status) == LoopSpec(old(Vars()), old(Outside()), fuel)
    {
      var left := fuel;
      ghost var target := LoopSpec(Vars(), Outside(), fuel);
      while left > 0
        invariant target == LoopSpec(Vars(), Outside(), left)
      {
        TickThen(Vars(), Outside(), left);
        status := Tick();
        assert target == Continue(Outcome(Vars(), Outside(), status), left);
        if status != Running {
          return;
        }
        ghost var g, w := Vars(), Outside();
        var quit := Wait();
        var next := left - 1;
        WaitEnds(g, w, left, next, Waited(Outside(), quit));
        if quit {
          return Quit;
        }
        left := next;
      }
      return Running;
    }

    method SafeExit(code: int) returns (status: Status)
      modifies this
      ensures Outcome(Vars(), Outside(), status) == SafeExitSpec(old(Vars()), old(Outside()), code)
    {
      var s := SetSpeed(FanSpeedUpLim);
      if s.Fail? {
        return Crashed(s.fault);
      }
      var a := CheckOutput(AssignFanControlState(0));
      if a.Fail? {
        return Crashed(a.fault);
      }
      return Exited(code);
    }

    method Startup() returns (status: Status)
      modifies this
      ensures Outcome(Vars(), Outside(), status) == StartupSpec(old(Vars()), old(Outside()))
    {
      var a := CheckOutput(AssignFanControlState(1));
      if a.Fail? {
        return Crashed(a.fault);
      }
      var m := CheckOutput(QueryFanControlState);
      if m.Fail? {
        return Crashed(m.fault);
      }
      if !ModeIsManual(m.value) {
        status := SafeExit(1);
      } else {
        status := ManualStart();
      }
    }

    method ManualStart() returns (status: Status)
      modifies this
      ensures Outcome(Vars(), Outside(), status) == ManualStartSpec(old(Vars()), old(Outside()))
    {
      var s := SetSpeed(70);
      if s.Fail? {
        return Crashed(s.fault);
      }
      currentSpeed := s.value;
      var t := GetTemp();
      if t.Fail? {
        return Crashed(t.fault);
      }
      previousTemp := t.value;
      tempDelta := 0;
      return Running;
    }

    /** The script from the argument checks on. */
    method Run(argv: seq<string>, fuel: nat) returns (status: Status)
      modifies this
      ensures Outcome(Vars(), Outside(), status) == ProgramSpec(old(Vars()), old(Outside()), argv, fuel)
    {
      match CheckArgs(argv)
      case MissingArgument =>
        return Crashed(IndexError);
      case Usage =>
        return Exited(1);
      case TooHigh(_) =>
        return Exited(1);
      case Accepted(t) =>
        targetTemp := t;
        status := Startup();
        if status == Running {
          status := MainLoop(fuel);
        }
    }
  }
}
