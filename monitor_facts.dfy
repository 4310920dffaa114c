/**
 * Properties of the controller's run: what one iteration of the main loop
 * does with well-formed replies and how it ends otherwise, the closed form
 * of the wait for 'q', that the main loop never touches the fan-control
 * mode, that more iterations change nothing once the program has ended,
 * and how safe_exit, the startup and the argument checks end.
 */
module MonitorFacts {
  import opened Wrappers
  import opened PyStr
  import opened Control
  import opened Telemetry
  import opened Oracle
  import opened Arguments
  import opened Monitor

  // ---------------------------------------------------------------- one iteration

  /** The i-th reply from the next one on is there (the command gets an answer). */
  predicate Replied(w: World, i: nat)
  {
    w.answered + i < |w.replies| && w.replies[w.answered + i].Some?
  }

  /** The text of that reply. */
  function Reply(w: World, i: nat): string
    requires Replied(w, i)
  {
    w.replies[w.answered + i].value
  }

  /** The world after the given commands, each of which took its reply. */
  function After(w: World, events: seq<Event>): World
  {
    w.(trace := w.trace + events, answered := w.answered + |events|)
  }

  lemma AfterAfter(w: World, a: seq<Event>, b: seq<Event>)
    ensures After(After(w, a), b) == After(w, a + b)
  {
    assert w.trace + a + b == w.trace + (a + b);
  }

  /** Two single commands in a row. */
  lemma AfterTwo(w: World, a: Event, b: Event)
    ensures After(After(w, [a]), [b]) == After(w, [a, b])
  {
    AfterAfter(w, [a], [b]);
    assert [a] + [b] == [a, b];
  }

  /** The replies after some commands are the later replies before them. */
  lemma ReplyAfter(w: World, events: seq<Event>, i: nat)
    requires Replied(w, |events| + i)
    ensures Replied(After(w, events), i) && Reply(After(w, events), i) == Reply(w, |events| + i)
  {
  }

  /** After one command the i-th reply is the (i+1)-th before it. */
  lemma ReplyExec(w: World, cmd: Command, i: nat)
    requires Replied(w, i + 1)
    ensures Replied(Exec(w, cmd).w, i) && Reply(Exec(w, cmd).w, i) == Reply(w, i + 1)
  {
  }

  /** Two commands one after the other. */
  lemma ExecTwo(w: World, a: Command, b: Command)
    ensures Exec(Exec(w, a).w, b).w == After(w, [Issue(a), Issue(b)])
  {
    assert w.trace + [Issue(a)] + [Issue(b)] == w.trace + [Issue(a), Issue(b)];
  }

  /** Three commands one after the other. */
  lemma ExecThree(w: World, a: Command, b: Command, c: Command)
    ensures Exec(Exec(Exec(w, a).w, b).w, c).w == After(w, [Issue(a), Issue(b), Issue(c)])
  {
    assert w.trace + [Issue(a)] + [Issue(b)] + [Issue(c)] == w.trace + [Issue(a), Issue(b), Issue(c)];
  }

  /** Four commands one after the other. */
  lemma ExecFour(w: World, a: Command, b: Command, c: Command, d: Command)
    ensures Exec(Exec(Exec(Exec(w, a).w, b).w, c).w, d).w == After(w, [Issue(a), Issue(b), Issue(c), Issue(d)])
  {
    assert w.trace + [Issue(a)] + [Issue(b)] + [Issue(c)] + [Issue(d)]
        == w.trace + [Issue(a), Issue(b), Issue(c), Issue(d)];
  }

  /** The first four replies of an iteration arrive and convert: the readings the panel is built from. */
  predicate TickRead(w: World)
  {
    (forall i :: 0 <= i < 4 ==> Replied(w, i))
    && UtilizationShown(Reply(w, 0)).Some? && Temperature(Reply(w, 1)).Some?
    && |Split(Reply(w, 2), ',')| >= 2
  }

  /** All eight replies of an iteration arrive, and all but the confirmation convert. */
  predicate TickShown(w: World)
  {
    TickRead(w) && forall i :: 4 <= i < 8 ==> Replied(w, i)
  }

  /** All eight convert. */
  predicate TickReady(w: World)
  {
    TickShown(w) && ConfirmedSpeed(Reply(w, 7)).Some?
  }

  /** The temperature read by an iteration. */
  function TickTemp(w: World): int
    requires TickRead(w)
  {
    Temperature(Reply(w, 1)).value
  }

  /** The speed an iteration assigns: the decision rule on the temperature just read. */
  function TickSpeed(g: Globals, w: World): int
    requires TickRead(w)
  {
    NewSpeed(g.targetTemp, g.currentSpeed, TickTemp(w) - g.previousTemp, TickTemp(w))
  }

  /** The panel an iteration refreshes, field by field from the replies, with the given used-memory text. */
  function TickPanel(g: Globals, w: World, usedMemory: string): Display
    requires TickRead(w)
  {
    Display(UtilizationShown(Reply(w, 0)).value, g.targetTemp, TickTemp(w), TickTemp(w) - g.previousTemp,
            g.currentSpeed, TickSpeed(g, w) - g.currentSpeed, Reply(w, 3),
            Split(Reply(w, 2), ',')[0], Split(Reply(w, 2), ',')[1], usedMemory)
  }

  /** The first four commands of an iteration: the readings before the panel is refreshed. */
  function ReadEvents(): seq<Event>
  {
    [Issue(QueryUtilization), Issue(QueryTemperature), Issue(QueryGpuInfo(ClockFreqs)), Issue(QueryFanRpm)]
  }

  /** The last four: the used memory three times, then the assignment of the new speed. */
  function MemoryEvents(speed: int): seq<Event>
  {
    [Issue(QueryGpuInfo(UsedMemory)), Issue(QueryGpuInfo(UsedMemory)), Issue(QueryGpuInfo(UsedMemory)),
     Issue(AssignFanSpeed(speed))]
  }

  /** The commands one iteration issues, in order. */
  function TickEvents(speed: int): seq<Event>
  {
    ReadEvents() + MemoryEvents(speed)
  }

  /*
   * The stage lemmas below take the values the next stage receives as
   * parameters, tied to the replies by their preconditions.
   */

  /** A reply to the utilization query hands its text to the temperature stage. */
  lemma TickStep(g: Globals, w: World, utilization: string, rest: nat)
    requires Replied(w, 0) && Reply(w, 0) == utilization
    ensures TickSpec(g, w, rest) == TempSpec(g, Exec(w, QueryUtilization).w, utilization, rest)
  {
  }

  /** A readable temperature hands its value to the clocks stage. */
  lemma TempStep(g: Globals, w: World, utilization: string, temp: int, rest: nat)
    requires Replied(w, 0) && Temperature(Reply(w, 0)) == Some(temp)
    ensures TempSpec(g, w, utilization, rest) == ShowSpec(g, Exec(w, QueryTemperature).w, utilization, temp, rest)
  {
  }

  /** A reply to the clocks query and utilization figures that are there hand over to the rpm stage. */
  lemma ShowStep(g: Globals, w: World, utilization: string, temp: int, shown: seq<string>, freqs: seq<string>,
                 speed: int, rest: nat)
    requires Replied(w, 0) && Split(Reply(w, 0), ',') == freqs
    requires UtilizationShown(utilization) == Some(shown)
    requires speed == NewSpeed(g.targetTemp, g.currentSpeed, temp - g.previousTemp, temp)
    ensures ShowSpec(g, w, utilization, temp, rest)
         == PanelSpec(g.(tempDelta := temp - g.previousTemp), Exec(w, QueryGpuInfo(ClockFreqs)).w,
                      shown, freqs, temp, speed, rest)
  {
  }

  /** A reply to the rpm query and two clock figures complete the panel but for the used memory. */
  lemma PanelStep(g: Globals, w: World, shown: seq<string>, freqs: seq<string>, temp: int, speed: int, rest: nat)
    requires Replied(w, 0) && |freqs| >= 2
    ensures PanelSpec(g, w, shown, freqs, temp, speed, rest)
         == FinishSpec(g, Exec(w, QueryFanRpm).w,
                       Display(shown, g.targetTemp, temp, g.tempDelta, g.currentSpeed, speed - g.currentSpeed,
                               Reply(w, 0), freqs[0], freqs[1], []),
                       speed, rest)
  {
  }

  /** The temperature stage of a well-formed iteration. */
  lemma TickTempStage(g: Globals, w: World, rest: nat)
    requires TickRead(w)
    ensures TempSpec(g, Exec(w, QueryUtilization).w, Reply(w, 0), rest)
         == ShowSpec(g, Exec(Exec(w, QueryUtilization).w, QueryTemperature).w, Reply(w, 0), TickTemp(w), rest)
  {
    assert Replied(w, 1);
    ReplyExec(w, QueryUtilization, 0);
    TempStep(g, Exec(w, QueryUtilization).w, Reply(w, 0), TickTemp(w), rest);
  }

  /** The clocks stage of a well-formed iteration. */
  lemma TickShowStage(g: Globals, w: World, rest: nat)
    requires TickRead(w)
    ensures ShowSpec(g, Exec(Exec(w, QueryUtilization).w, QueryTemperature).w, Reply(w, 0), TickTemp(w), rest)
         == PanelSpec(g.(tempDelta := TickTemp(w) - g.previousTemp),
                      Exec(Exec(Exec(w, QueryUtilization).w, QueryTemperature).w, QueryGpuInfo(ClockFreqs)).w,
                      UtilizationShown(Reply(w, 0)).value, Split(Reply(w, 2), ','), TickTemp(w), TickSpeed(g, w), rest)
  {
    assert Replied(w, 2);
    ReplyExec(w, QueryUtilization, 1);
    ReplyExec(Exec(w, QueryUtilization).w, QueryTemperature, 0);
    ShowStep(g, Exec(Exec(w, QueryUtilization).w, QueryTemperature).w, Reply(w, 0), TickTemp(w),
             UtilizationShown(Reply(w, 0)).value, Split(Reply(w, 2), ','), TickSpeed(g, w), rest);
  }

  /** The rpm stage of a well-formed iteration. */
  lemma TickPanelStage(g: Globals, w: World, rest: nat)
    requires TickRead(w)
    ensures PanelSpec(g.(tempDelta := TickTemp(w) - g.previousTemp),
                      Exec(Exec(Exec(w, QueryUtilization).w, QueryTemperature).w, QueryGpuInfo(ClockFreqs)).w,
                      UtilizationShown(Reply(w, 0)).value, Split(Reply(w, 2), ','), TickTemp(w), TickSpeed(g, w), rest)
         == FinishSpec(g.(tempDelta := TickTemp(w) - g.previousTemp), After(w, ReadEvents()),
                       TickPanel(g, w, []), TickSpeed(g, w), rest)
  {
    var w3 := Exec(Exec(Exec(w, QueryUtilization).w, QueryTemperature).w, QueryGpuInfo(ClockFreqs)).w;
    var g1 := g.(tempDelta := TickTemp(w) - g.previousTemp);
    var freqs := Split(Reply(w, 2), ',');
    PanelOfReplies(g, g1, w);
    var panel := Display(UtilizationShown(Reply(w, 0)).value, g1.targetTemp, TickTemp(w), g1.tempDelta, g1.currentSpeed,
                         TickSpeed(g, w) - g1.currentSpeed, Reply(w3, 0), freqs[0], freqs[1], []);
    assert Exec(w3, QueryFanRpm).w == After(w, ReadEvents()) by {
      ExecFour(w, QueryUtilization, QueryTemperature, QueryGpuInfo(ClockFreqs), QueryFanRpm);
    }
    calc {
      PanelSpec(g1, w3, UtilizationShown(Reply(w, 0)).value, freqs, TickTemp(w), TickSpeed(g, w), rest);
    == { PanelStep(g1, w3, UtilizationShown(Reply(w, 0)).value, freqs, TickTemp(w), TickSpeed(g, w), rest); }
      FinishSpec(g1, Exec(w3, QueryFanRpm).w, panel, TickSpeed(g, w), rest);
    == { FinishAt(g1, Exec(w3, QueryFanRpm).w, After(w, ReadEvents()), panel, TickPanel(g, w, []), TickSpeed(g, w), rest); }
      FinishSpec(g1, After(w, ReadEvents()), TickPanel(g, w, []), TickSpeed(g, w), rest);
    }
  }

  /** The last stage, started from equal worlds and panels, ends alike. */
  lemma FinishAt(g: Globals, w: World, w': World, panel: Display, panel': Display, speed: int, rest: nat)
    requires w == w' && panel == panel'
    ensures FinishSpec(g, w, panel, speed, rest) == FinishSpec(g, w', panel', speed, rest)
  {
  }

  /** The panel the rpm stage builds is the panel of the iteration's replies. */
  lemma PanelOfReplies(g: Globals, g1: Globals, w: World)
    requires TickRead(w) && g1 == g.(tempDelta := TickTemp(w) - g.previousTemp)
    ensures var w3 := Exec(Exec(Exec(w, QueryUtilization).w, QueryTemperature).w, QueryGpuInfo(ClockFreqs)).w;
            Replied(w3, 0)
            && Display(UtilizationShown(Reply(w, 0)).value, g1.targetTemp, TickTemp(w), g1.tempDelta,
                       g1.currentSpeed, TickSpeed(g, w) - g1.currentSpeed, Reply(w3, 0),
                       Split(Reply(w, 2), ',')[0], Split(Reply(w, 2), ',')[1], [])
               == TickPanel(g, w, [])
  {
    assert Replied(w, 3);
    ReplyExec(w, QueryUtilization, 2);
    ReplyExec(Exec(w, QueryUtilization).w, QueryTemperature, 1);
    ReplyExec(Exec(Exec(w, QueryUtilization).w, QueryTemperature).w, QueryGpuInfo(ClockFreqs), 0);
  }

  /** The first four commands of a well-formed iteration, up to the panel without the used memory. */
  lemma TickToPanel(g: Globals, w: World, rest: nat)
    requires TickRead(w)
    ensures TickSpec(g, w, rest)
         == FinishSpec(g.(tempDelta := TickTemp(w) - g.previousTemp), After(w, ReadEvents()),
                       TickPanel(g, w, []), TickSpeed(g, w), rest)
  {
    TickStep(g, w, Reply(w, 0), rest);
    TickTempStage(g, w, rest);
    TickShowStage(g, w, rest);
    TickPanelStage(g, w, rest);
  }

  /** Three memory reads refresh the panel and hand over to the assignment. */
  lemma FinishStep(g: Globals, w: World, panel: Display, speed: int, rest: nat)
    requires Replied(w, 0) && Replied(w, 1) && Replied(w, 2)
    ensures FinishSpec(g, w, panel, speed, rest)
         == AssignSpec(g.(screen := Some(panel.(usedMemory := Reply(w, 2)))),
                       Exec(Exec(Exec(w, QueryGpuInfo(UsedMemory)).w, QueryGpuInfo(UsedMemory)).w, QueryGpuInfo(UsedMemory)).w,
                       speed, panel.currentTemp, rest)
  {
  }

  /** A confirmation that converts becomes current_speed, and the temperature previous_temp. */
  lemma AssignStep(g: Globals, w: World, speed: int, temp: int, confirmed: int, rest: nat)
    requires Replied(w, 0) && ConfirmedSpeed(Reply(w, 0)) == Some(confirmed)
    ensures AssignSpec(g, w, speed, temp, rest)
         == AfterTick(g.(currentSpeed := confirmed, previousTemp := temp), Exec(w, AssignFanSpeed(speed)).w, rest)
  {
  }

  /** The last four commands of a well-formed iteration: three memory reads and the assignment. */
  lemma FinishRun(g: Globals, w: World, panel: Display, speed: int, rest: nat)
    requires forall i :: 0 <= i < 4 ==> Replied(w, i)
    requires ConfirmedSpeed(Reply(w, 3)).Some?
    ensures FinishSpec(g, w, panel, speed, rest)
         == AfterTick(g.(screen := Some(panel.(usedMemory := Reply(w, 2))),
                         currentSpeed := ConfirmedSpeed(Reply(w, 3)).value,
                         previousTemp := panel.currentTemp),
                      After(w, MemoryEvents(speed)), rest)
  {
    assert Replied(w, 0) && Replied(w, 1) && Replied(w, 2) && Replied(w, 3);
    var w1 := Exec(w, QueryGpuInfo(UsedMemory)).w;
    var w2 := Exec(w1, QueryGpuInfo(UsedMemory)).w;
    var w3 := Exec(w2, QueryGpuInfo(UsedMemory)).w;
    var g2 := g.(screen := Some(panel.(usedMemory := Reply(w, 2))));
    ReplyExec(w, QueryGpuInfo(UsedMemory), 2);
    ReplyExec(w1, QueryGpuInfo(UsedMemory), 1);
    ReplyExec(w2, QueryGpuInfo(UsedMemory), 0);
    calc {
      FinishSpec(g, w, panel, speed, rest);
    == { FinishStep(g, w, panel, speed, rest); }
      AssignSpec(g2, w3, speed, panel.currentTemp, rest);
    == { AssignStep(g2, w3, speed, panel.currentTemp, ConfirmedSpeed(Reply(w, 3)).value, rest); }
      AfterTick(g2.(currentSpeed := ConfirmedSpeed(Reply(w, 3)).value, previousTemp := panel.currentTemp),
                Exec(w3, AssignFanSpeed(speed)).w, rest);
    == { ExecFour(w, QueryGpuInfo(UsedMemory), QueryGpuInfo(UsedMemory), QueryGpuInfo(UsedMemory), AssignFanSpeed(speed)); }
      AfterTick(g.(screen := Some(panel.(usedMemory := Reply(w, 2))),
                   currentSpeed := ConfirmedSpeed(Reply(w, 3)).value,
                   previousTemp := panel.currentTemp),
                After(w, MemoryEvents(speed)), rest);
    }
  }

  /** The same, with the used memory and the confirmed speed named. */
  lemma FinishEffect(g: Globals, w: World, panel: Display, speed: int, used: string, confirmed: int, rest: nat)
    requires forall i :: 0 <= i < 4 ==> Replied(w, i)
    requires Reply(w, 2) == used && ConfirmedSpeed(Reply(w, 3)) == Some(confirmed)
    ensures FinishSpec(g, w, panel, speed, rest)
         == AfterTick(g.(screen := Some(panel.(usedMemory := used)), currentSpeed := confirmed,
                         previousTemp := panel.currentTemp),
                      After(w, MemoryEvents(speed)), rest)
  {
    FinishRun(g, w, panel, speed, rest);
  }

  /** The last four commands when the confirmation of the assignment does not convert. */
  lemma FinishValueError(g: Globals, w: World, panel: Display, speed: int, used: string, rest: nat)
    requires forall i :: 0 <= i < 4 ==> Replied(w, i)
    requires Reply(w, 2) == used && ConfirmedSpeed(Reply(w, 3)).None?
    ensures FinishSpec(g, w, panel, speed, rest)
         == Outcome(g.(screen := Some(panel.(usedMemory := used))), After(w, MemoryEvents(speed)), Crashed(ValueError))
  {
    assert Replied(w, 0) && Replied(w, 1) && Replied(w, 2) && Replied(w, 3);
    ExecFour(w, QueryGpuInfo(UsedMemory), QueryGpuInfo(UsedMemory), QueryGpuInfo(UsedMemory), AssignFanSpeed(speed));
  }

  /** Filling in the used memory completes the panel. */
  lemma PanelFilled(g: Globals, w: World, used: string)
    requires TickRead(w)
    ensures TickPanel(g, w, []).(usedMemory := used) == TickPanel(g, w, used)
  {
  }

  /** The globals after a well-formed iteration, as the last four commands leave them. */
  lemma TickGlobals(g: Globals, w: World, used: string, confirmed: int)
    requires TickRead(w)
    ensures var g1 := g.(tempDelta := TickTemp(w) - g.previousTemp);
            g1.(screen := Some(TickPanel(g, w, []).(usedMemory := used)), currentSpeed := confirmed,
                previousTemp := TickPanel(g, w, []).currentTemp)
            == Globals(g.targetTemp, confirmed, TickTemp(w), TickTemp(w) - g.previousTemp, Some(TickPanel(g, w, used)))
  {
  }

  /** The replies from the fifth on, seen after the first four commands. */
  lemma LaterReplies(w: World)
    requires TickShown(w)
    ensures forall i :: 0 <= i < 4 ==> Replied(After(w, ReadEvents()), i)
    ensures Reply(After(w, ReadEvents()), 2) == Reply(w, 6) && Reply(After(w, ReadEvents()), 3) == Reply(w, 7)
  {
    assert Replied(w, 4) && Replied(w, 5) && Replied(w, 6) && Replied(w, 7);
  }

  /**
   * With well-formed replies an iteration issues its eight commands,
   * assigns the speed of the decision rule, shows the new panel, and
   * leaves the confirmed speed, the temperature and the delta in the
   * globals; then the wait follows.
   */
  lemma TickEffect(g: Globals, w: World, rest: nat)
    requires TickReady(w)
    ensures TickSpec(g, w, rest)
         == AfterTick(Globals(g.targetTemp, ConfirmedSpeed(Reply(w, 7)).value, TickTemp(w),
                              TickTemp(w) - g.previousTemp, Some(TickPanel(g, w, Reply(w, 6)))),
                      After(w, TickEvents(TickSpeed(g, w))), rest)
  {
    var g1 := g.(tempDelta := TickTemp(w) - g.previousTemp);
    var w4 := After(w, ReadEvents());
    var confirmed := ConfirmedSpeed(Reply(w, 7)).value;
    calc {
      TickSpec(g, w, rest);
      { TickToPanel(g, w, rest); }
      FinishSpec(g1, w4, TickPanel(g, w, []), TickSpeed(g, w), rest);
      { LaterReplies(w);
        FinishEffect(g1, w4, TickPanel(g, w, []), TickSpeed(g, w), Reply(w, 6), confirmed, rest); }
      AfterTick(g1.(screen := Some(TickPanel(g, w, []).(usedMemory := Reply(w, 6))), currentSpeed := confirmed,
                    previousTemp := TickPanel(g, w, []).currentTemp),
                After(w4, MemoryEvents(TickSpeed(g, w))), rest);
      { TickGlobals(g, w, Reply(w, 6), confirmed);
        AfterAfter(w, ReadEvents(), MemoryEvents(TickSpeed(g, w))); }
      AfterTick(Globals(g.targetTemp, confirmed, TickTemp(w), TickTemp(w) - g.previousTemp,
                        Some(TickPanel(g, w, Reply(w, 6)))),
                After(w, TickEvents(TickSpeed(g, w))), rest);
    }
  }

  /**
   * A reading command k (0 to 3) that gets no reply ends the program
   * after k + 1 commands, with temp_delta updated once the temperature has
   * been read; reaching the rpm query needs the utilization figures.
   */
  lemma TickReadFailed(g: Globals, w: World, k: nat, rest: nat)
    requires k < 4 && (forall i :: 0 <= i < k ==> Replied(w, i)) && !Replied(w, k)
    requires k > 1 ==> Temperature(Reply(w, 1)).Some?
    requires k > 2 ==> UtilizationShown(Reply(w, 0)).Some?
    ensures TickSpec(g, w, rest)
         == Outcome(if k < 2 then g else g.(tempDelta := Temperature(Reply(w, 1)).value - g.previousTemp),
                    After(w, ReadEvents()[..k + 1]), Crashed(CommandFailed))
  {
    var w1 := Exec(w, QueryUtilization).w;
    if k == 0 {
      assert ReadEvents()[..1] == [Issue(QueryUtilization)];
    } else {
      TickStep(g, w, Reply(w, 0), rest);
      var w2 := Exec(w1, QueryTemperature).w;
      if k == 1 {
        ExecTwo(w, QueryUtilization, QueryTemperature);
        assert ReadEvents()[..2] == [Issue(QueryUtilization), Issue(QueryTemperature)];
      } else {
        var temp := Temperature(Reply(w, 1)).value;
        ReplyExec(w, QueryUtilization, 0);
        TempStep(g, w1, Reply(w, 0), temp, rest);
        ExecThree(w, QueryUtilization, QueryTemperature, QueryGpuInfo(ClockFreqs));
        if k == 2 {
          assert ReadEvents()[..3] == [Issue(QueryUtilization), Issue(QueryTemperature), Issue(QueryGpuInfo(ClockFreqs))];
        } else {
          ReplyExec(w, QueryUtilization, 1);
          ReplyExec(w1, QueryTemperature, 0);
          ShowStep(g, w2, Reply(w, 0), temp, UtilizationShown(Reply(w, 0)).value, Split(Reply(w, 2), ','),
                   NewSpeed(g.targetTemp, g.currentSpeed, temp - g.previousTemp, temp), rest);
          ExecFour(w, QueryUtilization, QueryTemperature, QueryGpuInfo(ClockFreqs), QueryFanRpm);
          assert ReadEvents()[..4] == ReadEvents();
        }
      }
    }
  }

  /**
   * Fewer than two clock figures end the program with an IndexError once
   * the rpm has been read, with temp_delta updated.
   */
  lemma TickClocksIndexError(g: Globals, w: World, rest: nat)
    requires forall i :: 0 <= i < 4 ==> Replied(w, i)
    requires Temperature(Reply(w, 1)).Some? && UtilizationShown(Reply(w, 0)).Some?
    requires |Split(Reply(w, 2), ',')| < 2
    ensures TickSpec(g, w, rest)
         == Outcome(g.(tempDelta := Temperature(Reply(w, 1)).value - g.previousTemp),
                    After(w, ReadEvents()), Crashed(IndexError))
  {
    var w1 := Exec(w, QueryUtilization).w;
    var w2 := Exec(w1, QueryTemperature).w;
    var temp := Temperature(Reply(w, 1)).value;
    ReplyExec(w, QueryUtilization, 0);
    ReplyExec(w, QueryUtilization, 1);
    ReplyExec(w, QueryUtilization, 2);
    ReplyExec(w1, QueryTemperature, 1);
    TickStep(g, w, Reply(w, 0), rest);
    TempStep(g, w1, Reply(w, 0), temp, rest);
    ShowStep(g, w2, Reply(w, 0), temp, UtilizationShown(Reply(w, 0)).value, Split(Reply(w, 2), ','),
             NewSpeed(g.targetTemp, g.currentSpeed, temp - g.previousTemp, temp), rest);
    ExecFour(w, QueryUtilization, QueryTemperature, QueryGpuInfo(ClockFreqs), QueryFanRpm);
  }

  /**
   * The last four commands, when command k among them (0 to 3) gets no
   * reply: the program ends there, and the panel is refreshed only when
   * it is the assignment that fails.
   */
  lemma FinishFailed(g: Globals, w: World, panel: Display, speed: int, k: nat, rest: nat)
    requires k < 4 && (forall i :: 0 <= i < k ==> Replied(w, i)) && !Replied(w, k)
    ensures FinishSpec(g, w, panel, speed, rest)
         == Outcome(if k < 3 then g else g.(screen := Some(panel.(usedMemory := Reply(w, 2)))),
                    After(w, MemoryEvents(speed)[..k + 1]), Crashed(CommandFailed))
  {
    var m := QueryGpuInfo(UsedMemory);
    if k == 0 {
      assert MemoryEvents(speed)[..1] == [Issue(m)];
    } else if k == 1 {
      assert Replied(w, 0);
      ExecTwo(w, m, m);
      assert MemoryEvents(speed)[..2] == [Issue(m), Issue(m)];
    } else if k == 2 {
      assert Replied(w, 0) && Replied(w, 1);
      ExecThree(w, m, m, m);
      assert MemoryEvents(speed)[..3] == [Issue(m), Issue(m), Issue(m)];
    } else {
      assert Replied(w, 0) && Replied(w, 1) && Replied(w, 2);
      ExecFour(w, m, m, m, AssignFanSpeed(speed));
      assert MemoryEvents(speed)[..4] == MemoryEvents(speed);
    }
  }

  /**
   * Once the readings are in, a later command k (4 to 7) that gets no
   * reply ends the program after k + 1 commands; temp_delta is updated,
   * the panel is refreshed only when the assignment fails, and
   * current_speed and previous_temp keep their values.
   */
  lemma TickLaterFailed(g: Globals, w: World, k: nat, rest: nat)
    requires TickRead(w) && 4 <= k < 8 && (forall i :: 4 <= i < k ==> Replied(w, i)) && !Replied(w, k)
    ensures TickSpec(g, w, rest)
         == (var g1 := g.(tempDelta := TickTemp(w) - g.previousTemp);
             Outcome(if k < 7 then g1 else g1.(screen := Some(TickPanel(g, w, Reply(w, 6)))),
                     After(w, TickEvents(TickSpeed(g, w))[..k + 1]), Crashed(CommandFailed)))
  {
    var g1 := g.(tempDelta := TickTemp(w) - g.previousTemp);
    var w4 := After(w, ReadEvents());
    var speed := TickSpeed(g, w);
    TickToPanel(g, w, rest);
    forall i | 0 <= i < k - 4
      ensures Replied(w4, i)
    {
      assert Replied(w, 4 + i);
    }
    FinishFailed(g1, w4, TickPanel(g, w, []), speed, k - 4, rest);
    AfterAfter(w, ReadEvents(), MemoryEvents(speed)[..k - 3]);
    assert ReadEvents() + MemoryEvents(speed)[..k - 3] == TickEvents(speed)[..k + 1];
    if k == 7 {
      assert Replied(w, 6);
      PanelFilled(g, w, Reply(w, 6));
    }
  }

  /** A temperature int() rejects ends the program with a ValueError after two commands, the globals untouched. */
  lemma TickTemperatureValueError(g: Globals, w: World, rest: nat)
    requires Replied(w, 0) && Replied(w, 1) && Temperature(Reply(w, 1)).None?
    ensures TickSpec(g, w, rest)
         == Outcome(g, After(w, [Issue(QueryUtilization), Issue(QueryTemperature)]), Crashed(ValueError))
  {
    TickStep(g, w, Reply(w, 0), rest);
    ReplyExec(w, QueryUtilization, 0);
    ExecTwo(w, QueryUtilization, QueryTemperature);
  }

  /**
   * Utilization figures that are not there end the program with an
   * IndexError after the clocks query, with temp_delta already updated.
   */
  lemma TickFiguresIndexError(g: Globals, w: World, rest: nat)
    requires Replied(w, 0) && Replied(w, 1) && Replied(w, 2)
    requires Temperature(Reply(w, 1)).Some? && UtilizationShown(Reply(w, 0)).None?
    ensures TickSpec(g, w, rest)
         == Outcome(g.(tempDelta := Temperature(Reply(w, 1)).value - g.previousTemp),
                    After(w, [Issue(QueryUtilization), Issue(QueryTemperature), Issue(QueryGpuInfo(ClockFreqs))]),
                    Crashed(IndexError))
  {
    var w1 := Exec(w, QueryUtilization).w;
    ReplyExec(w, QueryUtilization, 0);
    ReplyExec(w, QueryUtilization, 1);
    ReplyExec(w1, QueryTemperature, 0);
    calc {
      TickSpec(g, w, rest);
      { TickStep(g, w, Reply(w, 0), rest); }
      TempSpec(g, w1, Reply(w, 0), rest);
      { TempStep(g, w1, Reply(w, 0), Temperature(Reply(w, 1)).value, rest); }
      ShowSpec(g, Exec(w1, QueryTemperature).w, Reply(w, 0), Temperature(Reply(w, 1)).value, rest);
      { ExecThree(w, QueryUtilization, QueryTemperature, QueryGpuInfo(ClockFreqs)); }
      Outcome(g.(tempDelta := Temperature(Reply(w, 1)).value - g.previousTemp),
              After(w, [Issue(QueryUtilization), Issue(QueryTemperature), Issue(QueryGpuInfo(ClockFreqs))]),
              Crashed(IndexError));
    }
  }

  /**
   * An unreadable confirmation of the assignment ends the program with a
   * ValueError after all eight commands: the new speed has been assigned
   * and the panel refreshed, current_speed and previous_temp are unchanged,
   * and safe_exit is not reached.
   */
  lemma TickSpeedValueError(g: Globals, w: World, rest: nat)
    requires TickShown(w) && ConfirmedSpeed(Reply(w, 7)).None?
    ensures TickSpec(g, w, rest)
         == Outcome(g.(tempDelta := TickTemp(w) - g.previousTemp, screen := Some(TickPanel(g, w, Reply(w, 6)))),
                    After(w, TickEvents(TickSpeed(g, w))), Crashed(ValueError))
  {
    var g1 := g.(tempDelta := TickTemp(w) - g.previousTemp);
    var w4 := After(w, ReadEvents());
    calc {
      TickSpec(g, w, rest);
      { TickToPanel(g, w, rest); }
      FinishSpec(g1, w4, TickPanel(g, w, []), TickSpeed(g, w), rest);
      { LaterReplies(w);
        FinishValueError(g1, w4, TickPanel(g, w, []), TickSpeed(g, w), Reply(w, 6), rest); }
      Outcome(g1.(screen := Some(TickPanel(g, w, []).(usedMemory := Reply(w, 6)))),
              After(w4, MemoryEvents(TickSpeed(g, w))), Crashed(ValueError));
      { PanelFilled(g, w, Reply(w, 6));
        AfterAfter(w, ReadEvents(), MemoryEvents(TickSpeed(g, w))); }
      Outcome(g1.(screen := Some(TickPanel(g, w, Reply(w, 6)))), After(w, TickEvents(TickSpeed(g, w))),
              Crashed(ValueError));
    }
  }

  /**
   * An iteration gets through to the wait exactly when all eight replies
   * arrive and convert; every other case ends the program in the
   * iteration.
   */
  lemma TickRuns(g: Globals, w: World)
    ensures TickSpec(g, w, 0).status == Running <==> TickReady(w)
  {
    if TickReady(w) {
      TickEffect(g, w, 0);
    } else if !TickRead(w) {
      TickReadHalts(g, w);
    } else {
      TickLaterHalts(g, w);
    }
  }

  /** Readings that do not all arrive and convert end the program within the first four commands. */
  lemma TickReadHalts(g: Globals, w: World)
    requires !TickRead(w)
    ensures TickSpec(g, w, 0).status != Running
  {
    if !Replied(w, 0) {
      TickReadFailed(g, w, 0, 0);
    } else if !Replied(w, 1) {
      TickReadFailed(g, w, 1, 0);
    } else if Temperature(Reply(w, 1)).None? {
      TickTemperatureValueError(g, w, 0);
    } else if !Replied(w, 2) {
      TickReadFailed(g, w, 2, 0);
    } else if UtilizationShown(Reply(w, 0)).None? {
      TickFiguresIndexError(g, w, 0);
    } else if !Replied(w, 3) {
      TickReadFailed(g, w, 3, 0);
    } else {
      TickClocksIndexError(g, w, 0);
    }
  }

  /** Once the readings are in, a missing later reply or an unreadable confirmation ends the program. */
  lemma TickLaterHalts(g: Globals, w: World)
    requires TickRead(w) && !TickReady(w)
    ensures TickSpec(g, w, 0).status != Running
  {
    if !Replied(w, 4) {
      TickLaterFailed(g, w, 4, 0);
    } else if !Replied(w, 5) {
      TickLaterFailed(g, w, 5, 0);
    } else if !Replied(w, 6) {
      TickLaterFailed(g, w, 6, 0);
    } else if !Replied(w, 7) {
      TickLaterFailed(g, w, 7, 0);
    } else {
      TickSpeedValueError(g, w, 0);
    }
  }

  // ---------------------------------------------------------------- the wait

  /** The keys from the n-th on. */
  function KeysFrom(keys: seq<int>, n: nat): seq<int>
  {
    if n <= |keys| then keys[n..] else []
  }

  /** The first poll from number i on (below n) that reads 'q', or n. */
  function FirstQuit(keys: seq<int>, i: nat, n: nat): (j: nat)
    ensures i <= n ==> i <= j <= n
    ensures forall k :: i <= k < j ==> KeyAt(keys, k) != QuitKey
    ensures j < n ==> KeyAt(keys, j) == QuitKey
    decreases n - i
  {
    if i >= n then n
    else if KeyAt(keys, i) == QuitKey then i
    else FirstQuit(keys, i + 1, n)
  }

  /** The first n polls, each followed by its sleep. */
  function Polls(keys: seq<int>, n: nat): seq<Event>
  {
    if n == 0 then [] else Polls(keys, n - 1) + [Poll(KeyAt(keys, n - 1)), Sleep]
  }

  /** The world w after c polls, each but a last 'q' followed by its sleep. */
  function Polled(w: World, c: nat): World
  {
    w.(trace := w.trace + Polls(w.keys, c), keys := KeysFrom(w.keys, c))
  }

  /** The wait from w in closed form, when poll j is the first to read 'q' (or j is WaitPolls). */
  function WaitResult(w: World, j: nat): Waited
  {
    if j < WaitPolls
    then Waited(w.(trace := w.trace + Polls(w.keys, j) + [Poll(QuitKey)], keys := KeysFrom(w.keys, j + 1)), true)
    else Waited(Polled(w, WaitPolls), false)
  }

  lemma KeyAtFrom(keys: seq<int>, n: nat)
    ensures KeyAt(KeysFrom(keys, n), 0) == KeyAt(keys, n)
    ensures (if KeysFrom(keys, n) == [] then [] else KeysFrom(keys, n)[1..]) == KeysFrom(keys, n + 1)
  {
  }

  /** One poll from the world after c polls: it reads the c-th key, and a sleep after it gives the world after c + 1. */
  lemma PollStep(w: World, c: nat)
    ensures GetCh(Polled(w, c)).r.value == KeyAt(w.keys, c)
    ensures GetCh(Polled(w, c)).w
         == w.(trace := w.trace + Polls(w.keys, c) + [Poll(KeyAt(w.keys, c))], keys := KeysFrom(w.keys, c + 1))
    ensures DoSleep(GetCh(Polled(w, c)).w) == Polled(w, c + 1)
  {
    KeyAtFrom(w.keys, c);
    assert w.trace + Polls(w.keys, c) + [Poll(KeyAt(w.keys, c))] + [Sleep] == w.trace + Polls(w.keys, c + 1);
  }

  lemma {:induction false} WaitFrom(w: World, c: nat)
    requires c <= WaitPolls
    ensures WaitSpec(Polled(w, c), c) == WaitResult(w, FirstQuit(w.keys, c, WaitPolls))
    decreases WaitPolls - c
  {
    if c < WaitPolls {
      PollStep(w, c);
      if KeyAt(w.keys, c) != QuitKey {
        WaitFrom(w, c + 1);
      }
    }
  }

  /**
   * The wait polls the keys in order, sleeping after each that is not
   * 'q', and stops at the first 'q' among five polls; the program goes on
   * only after five polls and five sleeps.
   */
  lemma WaitShape(w: World)
    ensures WaitSpec(w, 0) == WaitResult(w, FirstQuit(w.keys, 0, WaitPolls))
  {
    assert w.trace + Polls(w.keys, 0) == w.trace;
    assert KeysFrom(w.keys, 0) == w.keys;
    assert Polled(w, 0) == w;
    WaitFrom(w, 0);
  }

  /** The wait returns from monitor exactly when one of the next five keys is 'q'. */
  lemma WaitQuitIff(w: World)
    ensures WaitSpec(w, 0).quit <==> exists i :: 0 <= i < WaitPolls && KeyAt(w.keys, i) == QuitKey
  {
    WaitShape(w);
    var j := FirstQuit(w.keys, 0, WaitPolls);
    if j < WaitPolls {
      assert KeyAt(w.keys, j) == QuitKey;
    }
  }

  // ---------------------------------------------------------------- the fan-control mode

  /** No event of the list assigns GPUFanControlState. */
  predicate NoModeChange(events: seq<Event>)
  {
    forall i :: 0 <= i < |events| ==> !(events[i].Issue? && events[i].cmd.AssignFanControlState?)
  }

  /** after extends before with events that leave the fan-control mode alone. */
  predicate KeepsMode(before: seq<Event>, after: seq<Event>)
  {
    |before| <= |after| && after[..|before|] == before && NoModeChange(after[|before|..])
  }

  lemma KeepsModeTrans(a: seq<Event>, b: seq<Event>, c: seq<Event>)
    requires KeepsMode(a, b) && KeepsMode(b, c)
    ensures KeepsMode(a, c)
  {
    assert c[..|a|] == b[..|b|][..|a|];
    forall i | |a| <= i < |c|
      ensures !(c[i].Issue? && c[i].cmd.AssignFanControlState?)
    {
      if i < |b| {
        assert c[i] == b[i] == b[|a|..][i - |a|];
      } else {
        assert c[i] == c[|b|..][i - |b|];
      }
    }
    assert forall i :: 0 <= i < |c| - |a| ==> c[|a|..][i] == c[i + |a|];
  }

  lemma KeepsModeAppend(a: seq<Event>, e: seq<Event>)
    requires NoModeChange(e)
    ensures KeepsMode(a, a + e)
  {
    assert (a + e)[|a|..] == e;
    assert (a + e)[..|a|] == a;
  }

  /** Events that keep the mode after a prefix that ends with such events: all of them keep it. */
  lemma KeepsModeAfter(head: seq<Event>, e0: seq<Event>, t: seq<Event>)
    requires NoModeChange(e0) && KeepsMode(head + e0, t)
    ensures t == head + (e0 + t[|head + e0|..]) && NoModeChange(e0 + t[|head + e0|..])
  {
    var e1 := t[|head + e0|..];
    assert t == head + e0 + e1;
    forall i | 0 <= i < |e0 + e1|
      ensures !((e0 + e1)[i].Issue? && (e0 + e1)[i].cmd.AssignFanControlState?)
    {
      if i >= |e0| {
        assert (e0 + e1)[i] == e1[i - |e0|];
      }
    }
  }

  lemma ExecKeepsMode(w: World, cmd: Command)
    requires !cmd.AssignFanControlState?
    ensures KeepsMode(w.trace, Exec(w, cmd).w.trace)
  {
    KeepsModeAppend(w.trace, [Issue(cmd)]);
  }

  lemma {:induction false} WaitKeepsMode(w: World, count: nat)
    ensures KeepsMode(w.trace, WaitSpec(w, count).w.trace)
    decreases WaitPolls - count
  {
    if count < WaitPolls {
      var k := GetCh(w);
      KeepsModeAppend(w.trace, [Poll(k.r.value)]);
      if k.r.value != QuitKey {
        KeepsModeAppend(k.w.trace, [Sleep]);
        KeepsModeTrans(w.trace, k.w.trace, DoSleep(k.w).trace);
        WaitKeepsMode(DoSleep(k.w), count + 1);
        KeepsModeTrans(w.trace, DoSleep(k.w).trace, WaitSpec(w, count).w.trace);
      }
    } else {
      KeepsModeAppend(w.trace, []);
    }
  }

  /**
   * However it ends, the main loop only appends to the trace and never
   * assigns GPUFanControlState: a crash or 'q' leaves the fan in manual mode.
   */
  lemma {:induction false} LoopKeepsMode(g: Globals, w: World, fuel: nat)
    ensures KeepsMode(w.trace, LoopSpec(g, w, fuel).w.trace)
    decreases fuel, 8
  {
    if fuel == 0 {
      KeepsModeAppend(w.trace, []);
    } else {
      TickKeepsMode(g, w, fuel);
    }
  }

  lemma {:induction false} TickKeepsMode(g: Globals, w: World, rest: nat)
    ensures KeepsMode(w.trace, TickSpec(g, w, rest).w.trace)
    decreases rest, 7
  {
    var u := Exec(w, QueryUtilization);
    ExecKeepsMode(w, QueryUtilization);
    if u.r.Ok? {
      TempKeepsMode(g, u.w, u.r.value, rest);
      KeepsModeTrans(w.trace, u.w.trace, TickSpec(g, w, rest).w.trace);
    }
  }

  lemma {:induction false} TempKeepsMode(g: Globals, w: World, utilization: string, rest: nat)
    ensures KeepsMode(w.trace, TempSpec(g, w, utilization, rest).w.trace)
    decreases rest, 6
  {
    var t := GetTempSpec(w);
    ExecKeepsMode(w, QueryTemperature);
    if t.r.Ok? {
      ShowKeepsMode(g, t.w, utilization, t.r.value, rest);
      KeepsModeTrans(w.trace, t.w.trace, TempSpec(g, w, utilization, rest).w.trace);
    }
  }

  lemma {:induction false} ShowKeepsMode(g: Globals, w: World, utilization: string, currentTemp: int, rest: nat)
    ensures KeepsMode(w.trace, ShowSpec(g, w, utilization, currentTemp, rest).w.trace)
    decreases rest, 5
  {
    var f := Exec(w, QueryGpuInfo(ClockFreqs));
    ExecKeepsMode(w, QueryGpuInfo(ClockFreqs));
    var shown := UtilizationShown(utilization);
    if f.r.Ok? && shown.Some? {
      var delta := currentTemp - g.previousTemp;
      var newSpeed := NewSpeed(g.targetTemp, g.currentSpeed, delta, currentTemp);
      PanelKeepsMode(g.(tempDelta := delta), f.w, shown.value, Split(f.r.value, ','), currentTemp, newSpeed, rest);
      KeepsModeTrans(w.trace, f.w.trace, ShowSpec(g, w, utilization, currentTemp, rest).w.trace);
    }
  }

  lemma {:induction false} PanelKeepsMode(g: Globals, w: World, shown: seq<string>, freqs: seq<string>,
                                          currentTemp: int, newSpeed: int, rest: nat)
    ensures KeepsMode(w.trace, PanelSpec(g, w, shown, freqs, currentTemp, newSpeed, rest).w.trace)
    decreases rest, 4
  {
    var rpm := Exec(w, QueryFanRpm);
    ExecKeepsMode(w, QueryFanRpm);
    if rpm.r.Ok? && |freqs| >= 2 {
      var panel := Display(shown, g.targetTemp, currentTemp, g.tempDelta, g.currentSpeed,
                           newSpeed - g.currentSpeed, rpm.r.value, freqs[0], freqs[1], []);
      FinishKeepsMode(g, rpm.w, panel, newSpeed, rest);
      KeepsModeTrans(w.trace, rpm.w.trace, PanelSpec(g, w, shown, freqs, currentTemp, newSpeed, rest).w.trace);
    }
  }

  lemma {:induction false} FinishKeepsMode(g: Globals, w: World, panel: Display, newSpeed: int, rest: nat)
    ensures KeepsMode(w.trace, FinishSpec(g, w, panel, newSpeed, rest).w.trace)
    decreases rest, 3
  {
    var m1 := Exec(w, QueryGpuInfo(UsedMemory));
    var m2 := Exec(m1.w, QueryGpuInfo(UsedMemory));
    var m3 := Exec(m2.w, QueryGpuInfo(UsedMemory));
    ExecKeepsMode(w, QueryGpuInfo(UsedMemory));
    ExecKeepsMode(m1.w, QueryGpuInfo(UsedMemory));
    ExecKeepsMode(m2.w, QueryGpuInfo(UsedMemory));
    KeepsModeTrans(w.trace, m1.w.trace, m2.w.trace);
    KeepsModeTrans(w.trace, m2.w.trace, m3.w.trace);
    if m1.r.Ok? && m2.r.Ok? && m3.r.Ok? {
      AssignKeepsMode(g.(screen := Some(panel.(usedMemory := m3.r.value))), m3.w, newSpeed, panel.currentTemp, rest);
      KeepsModeTrans(w.trace, m3.w.trace, FinishSpec(g, w, panel, newSpeed, rest).w.trace);
    }
  }

  lemma {:induction false} AssignKeepsMode(g: Globals, w: World, newSpeed: int, currentTemp: int, rest: nat)
    ensures KeepsMode(w.trace, AssignSpec(g, w, newSpeed, currentTemp, rest).w.trace)
    decreases rest, 2
  {
    var s := SetSpeedSpec(w, newSpeed);
    ExecKeepsMode(w, AssignFanSpeed(newSpeed));
    if s.r.Ok? {
      AfterTickKeepsMode(g.(currentSpeed := s.r.value, previousTemp := currentTemp), s.w, rest);
      KeepsModeTrans(w.trace, s.w.trace, AssignSpec(g, w, newSpeed, currentTemp, rest).w.trace);
    }
  }

  lemma {:induction false} AfterTickKeepsMode(g: Globals, w: World, rest: nat)
    ensures KeepsMode(w.trace, AfterTick(g, w, rest).w.trace)
    decreases rest, 1
  {
    if rest == 0 {
      KeepsModeAppend(w.trace, []);
    } else {
      var q := WaitSpec(w, 0);
      WaitKeepsMode(w, 0);
      if !q.quit {
        LoopKeepsMode(g, q.w, rest - 1);
        KeepsModeTrans(w.trace, q.w.trace, AfterTick(g, w, rest).w.trace);
      }
    }
  }

  // ---------------------------------------------------------------- the iteration bound

  /**
   * Once the program has ended within fuel iterations, allowing one more
   * changes nothing: the bound only cuts off runs that are still going.
   */
  lemma {:induction false} LoopSettled(g: Globals, w: World, fuel: nat)
    ensures LoopSpec(g, w, fuel).status != Running ==> LoopSpec(g, w, fuel + 1) == LoopSpec(g, w, fuel)
    decreases fuel, 8
  {
    if fuel > 0 {
      TickSettled(g, w, fuel);
    }
  }

  lemma {:induction false} TickSettled(g: Globals, w: World, rest: nat)
    ensures TickSpec(g, w, rest).status != Running ==> TickSpec(g, w, rest + 1) == TickSpec(g, w, rest)
    decreases rest, 7
  {
    var u := Exec(w, QueryUtilization);
    if u.r.Ok? {
      TempSettled(g, u.w, u.r.value, rest);
    }
  }

  lemma {:induction false} TempSettled(g: Globals, w: World, utilization: string, rest: nat)
    ensures TempSpec(g, w, utilization, rest).status != Running
            ==> TempSpec(g, w, utilization, rest + 1) == TempSpec(g, w, utilization, rest)
    decreases rest, 6
  {
    var t := GetTempSpec(w);
    if t.r.Ok? {
      ShowSettled(g, t.w, utilization, t.r.value, rest);
    }
  }

  lemma {:induction false} ShowSettled(g: Globals, w: World, utilization: string, currentTemp: int, rest: nat)
    ensures ShowSpec(g, w, utilization, currentTemp, rest).status != Running
            ==> ShowSpec(g, w, utilization, currentTemp, rest + 1) == ShowSpec(g, w, utilization, currentTemp, rest)
    decreases rest, 5
  {
    var f := Exec(w, QueryGpuInfo(ClockFreqs));
    var shown := UtilizationShown(utilization);
    if f.r.Ok? && shown.Some? {
      var delta := currentTemp - g.previousTemp;
      var newSpeed := NewSpeed(g.targetTemp, g.currentSpeed, delta, currentTemp);
      PanelSettled(g.(tempDelta := delta), f.w, shown.value, Split(f.r.value, ','), currentTemp, newSpeed, rest);
    }
  }

  lemma {:induction false} PanelSettled(g: Globals, w: World, shown: seq<string>, freqs: seq<string>,
                                        currentTemp: int, newSpeed: int, rest: nat)
    ensures PanelSpec(g, w, shown, freqs, currentTemp, newSpeed, rest).status != Running
            ==> PanelSpec(g, w, shown, freqs, currentTemp, newSpeed, rest + 1)
                == PanelSpec(g, w, shown, freqs, currentTemp, newSpeed, rest)
    decreases rest, 4
  {
    var rpm := Exec(w, QueryFanRpm);
    if rpm.r.Ok? && |freqs| >= 2 {
      var panel := Display(shown, g.targetTemp, currentTemp, g.tempDelta, g.currentSpeed,
                           newSpeed - g.currentSpeed, rpm.r.value, freqs[0], freqs[1], []);
      FinishSettled(g, rpm.w, panel, newSpeed, rest);
    }
  }

  lemma {:induction false} FinishSettled(g: Globals, w: World, panel: Display, newSpeed: int, rest: nat)
    ensures FinishSpec(g, w, panel, newSpeed, rest).status != Running
            ==> FinishSpec(g, w, panel, newSpeed, rest + 1) == FinishSpec(g, w, panel, newSpeed, rest)
    decreases rest, 3
  {
    var m1 := Exec(w, QueryGpuInfo(UsedMemory));
    var m2 := Exec(m1.w, QueryGpuInfo(UsedMemory));
    var m3 := Exec(m2.w, QueryGpuInfo(UsedMemory));
    if m1.r.Ok? && m2.r.Ok? && m3.r.Ok? {
      AssignSettled(g.(screen := Some(panel.(usedMemory := m3.r.value))), m3.w, newSpeed, panel.currentTemp, rest);
    }
  }

  lemma {:induction false} AssignSettled(g: Globals, w: World, newSpeed: int, currentTemp: int, rest: nat)
    ensures AssignSpec(g, w, newSpeed, currentTemp, rest).status != Running
            ==> AssignSpec(g, w, newSpeed, currentTemp, rest + 1) == AssignSpec(g, w, newSpeed, currentTemp, rest)
    decreases rest, 2
  {
    var s := SetSpeedSpec(w, newSpeed);
    if s.r.Ok? {
      AfterTickSettled(g.(currentSpeed := s.r.value, previousTemp := currentTemp), s.w, rest);
    }
  }

  lemma {:induction false} AfterTickSettled(g: Globals, w: World, rest: nat)
    ensures AfterTick(g, w, rest).status != Running ==> AfterTick(g, w, rest + 1) == AfterTick(g, w, rest)
    decreases rest, 1
  {
    if rest > 0 {
      var q := WaitSpec(w, 0);
      if !q.quit {
        LoopSettled(g, q.w, rest - 1);
      }
    }
  }

  // ---------------------------------------------------------------- safe_exit, startup, arguments

  /** safe_exit with readable replies: 80% first, then automatic control, then exit(code). */
  lemma SafeExitOrder(g: Globals, w: World, code: int)
    requires Replied(w, 0) && Replied(w, 1) && ConfirmedSpeed(Reply(w, 0)).Some?
    ensures SafeExitSpec(g, w, code)
         == Outcome(g, After(w, [Issue(AssignFanSpeed(FanSpeedUpLim)), Issue(AssignFanControlState(0))]), Exited(code))
  {
    var w1 := After(w, [Issue(AssignFanSpeed(FanSpeedUpLim))]);
    assert SetSpeedSpec(w, FanSpeedUpLim) == Got(w1, Ok(ConfirmedSpeed(Reply(w, 0)).value));
    ReplyAfter(w, [Issue(AssignFanSpeed(FanSpeedUpLim))], 0);
    AfterTwo(w, Issue(AssignFanSpeed(FanSpeedUpLim)), Issue(AssignFanControlState(0)));
  }

  /**
   * An unreadable confirmation of the 80% assignment crashes safe_exit
   * before automatic control is restored.
   */
  lemma SafeExitValueError(g: Globals, w: World, code: int)
    requires Replied(w, 0) && ConfirmedSpeed(Reply(w, 0)).None?
    ensures SafeExitSpec(g, w, code)
         == Outcome(g, After(w, [Issue(AssignFanSpeed(FanSpeedUpLim))]), Crashed(ValueError))
  {
  }

  /** The startup's first two commands: manual control requested, the mode read back. */
  function ModeEvents(): seq<Event>
  {
    [Issue(AssignFanControlState(1)), Issue(QueryFanControlState)]
  }

  lemma StartupHead(g: Globals, w: World)
    requires Replied(w, 0) && Replied(w, 1)
    ensures StartupSpec(g, w)
         == if ModeIsManual(Reply(w, 1)) then ManualStartSpec(g, After(w, ModeEvents()))
            else SafeExitSpec(g, After(w, ModeEvents()), 1)
  {
    ReplyAfter(w, [Issue(AssignFanControlState(1))], 0);
    AfterTwo(w, Issue(AssignFanControlState(1)), Issue(QueryFanControlState));
  }

  /**
   * A read-back that does not say manual leads to safe_exit(1): manual
   * mode requested, the mode read, 80%, automatic mode, exit code 1.
   */
  lemma StartupRefused(g: Globals, w: World)
    requires forall i :: 0 <= i < 4 ==> Replied(w, i)
    requires !ModeIsManual(Reply(w, 1)) && ConfirmedSpeed(Reply(w, 2)).Some?
    ensures StartupSpec(g, w)
         == Outcome(g, After(w, ModeEvents() + [Issue(AssignFanSpeed(FanSpeedUpLim)), Issue(AssignFanControlState(0))]),
                    Exited(1))
  {
    assert Replied(w, 0) && Replied(w, 1) && Replied(w, 2) && Replied(w, 3);
    StartupHead(g, w);
    var w2 := After(w, ModeEvents());
    ReplyAfter(w, ModeEvents(), 0);
    ReplyAfter(w, ModeEvents(), 1);
    SafeExitOrder(g, w2, 1);
    AfterAfter(w, ModeEvents(), [Issue(AssignFanSpeed(FanSpeedUpLim)), Issue(AssignFanControlState(0))]);
  }

  /**
   * A read-back that says manual: 70% is set, the first temperature read,
   * and the globals hold the confirmed speed, that temperature and a zero delta.
   */
  lemma StartupManual(g: Globals, w: World)
    requires forall i :: 0 <= i < 4 ==> Replied(w, i)
    requires ModeIsManual(Reply(w, 1)) && ConfirmedSpeed(Reply(w, 2)).Some? && Temperature(Reply(w, 3)).Some?
    ensures StartupSpec(g, w)
         == Outcome(g.(currentSpeed := ConfirmedSpeed(Reply(w, 2)).value, previousTemp := Temperature(Reply(w, 3)).value,
                       tempDelta := 0),
                    After(w, ModeEvents() + [Issue(AssignFanSpeed(70)), Issue(QueryTemperature)]),
                    Running)
  {
    assert Replied(w, 0) && Replied(w, 1) && Replied(w, 2) && Replied(w, 3);
    StartupHead(g, w);
    var w2 := After(w, ModeEvents());
    ReplyAfter(w, ModeEvents(), 0);
    ReplyAfter(w, ModeEvents(), 1);
    var w3 := After(w2, [Issue(AssignFanSpeed(70))]);
    assert SetSpeedSpec(w2, 70) == Got(w3, Ok(ConfirmedSpeed(Reply(w, 2)).value));
    ReplyAfter(w2, [Issue(AssignFanSpeed(70))], 0);
    AfterTwo(w2, Issue(AssignFanSpeed(70)), Issue(QueryTemperature));
    AfterAfter(w, ModeEvents(), [Issue(AssignFanSpeed(70)), Issue(QueryTemperature)]);
  }

  /** The startup goes on to the main loop only after manual mode was requested and confirmed. */
  lemma StartupRunning(g: Globals, w: World)
    requires StartupSpec(g, w).status == Running
    ensures Replied(w, 1) && ModeIsManual(Reply(w, 1))
    ensures exists e :: StartupSpec(g, w).w.trace == w.trace + ModeEvents() + e && NoModeChange(e)
  {
    var a := Exec(w, AssignFanControlState(1));
    var m := Exec(a.w, QueryFanControlState);
    assert a.r.Ok? && m.r.Ok? && ModeIsManual(m.r.value);
    assert StartupSpec(g, w) == ManualStartSpec(g, m.w);
    assert m.w.trace == w.trace + ModeEvents();
    var e := ManualStartEvents(g, m.w);
  }

  /** The manual start that goes on to the main loop issues its two commands and no other. */
  lemma ManualStartEvents(g: Globals, w: World) returns (e: seq<Event>)
    requires ManualStartSpec(g, w).status == Running
    ensures ManualStartSpec(g, w).w.trace == w.trace + e && NoModeChange(e)
  {
    e := [Issue(AssignFanSpeed(70)), Issue(QueryTemperature)];
    assert Exec(Exec(w, AssignFanSpeed(70)).w, QueryTemperature).w.trace == w.trace + e;
  }

  /** The startup never ends in the way 'q' ends the main loop. */
  lemma StartupNeverQuits(g: Globals, w: World)
    ensures StartupSpec(g, w).status != Quit
  {
  }

  /** Arguments the checks reject end the program before any command: exit(1), or an IndexError for a missing size. */
  lemma ProgramRejects(g: Globals, w: World, argv: seq<string>, fuel: nat)
    requires !CheckArgs(argv).Accepted?
    ensures ProgramSpec(g, w, argv, fuel).w == w && ProgramSpec(g, w, argv, fuel).g == g
    ensures ProgramSpec(g, w, argv, fuel).status
            == if CheckArgs(argv) == MissingArgument then Crashed(IndexError) else Exited(1)
  {
  }

  /**
   * A run that ends by 'q' has requested manual mode and never gave
   * control back: GPUFanControlState=0 is not among its commands.
   */
  lemma ProgramLeavesManual(g: Globals, w: World, argv: seq<string>, fuel: nat)
    requires ProgramSpec(g, w, argv, fuel).status == Quit
    ensures CheckArgs(argv).Accepted?
    ensures exists e :: ProgramSpec(g, w, argv, fuel).w.trace == w.trace + ModeEvents() + e && NoModeChange(e)
  {
    if !CheckArgs(argv).Accepted? {
      ProgramRejects(g, w, argv, fuel);
      assert false;
    }
    var g1 := g.(targetTemp := CheckArgs(argv).target);
    var s := StartupSpec(g1, w);
    StartupNeverQuits(g1, w);
    assert s.status == Running;
    var out := LoopSpec(s.g, s.w, fuel);
    assert ProgramSpec(g, w, argv, fuel) == out;
    StartupRunning(g1, w);
    var e0 :| s.w.trace == w.trace + ModeEvents() + e0 && NoModeChange(e0);
    LoopKeepsMode(s.g, s.w, fuel);
    KeepsModeAfter(w.trace + ModeEvents(), e0, out.w.trace);
  }
}
