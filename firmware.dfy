/**
 * How the three tasks fit together (src/bin/main.rs): both sensor tasks send
 * their `LedCommand`s to the LED task, which renders them. These lemmas
 * follow a run's commands from the sensor tasks onto the LED.
 */
module Firmware {
  import opened Base
  import opened Led
  import opened Events
  import opened LedTask
  import Conditioning
  import Measurement

  /** Sleeping sends no LED command. */
  lemma {:induction false} SleepsSendNothing(n: nat)
    ensures Sent(Repeat(Sleep(Measurement.PollMs), n)) == []
  {
    if n > 0 {
      SleepsSendNothing(n - 1);
      ProjectionsAppend(Repeat(Sleep(Measurement.PollMs), n - 1), [Sleep(Measurement.PollMs)]);
    }
  }

  /**
   * The measurement task sends one blink per successful cycle once the flag
   * is seen set, and no command at all before.
   */
  lemma MeasurementSends(observed: seq<bool>, cycles: seq<Measurement.CycleBus>)
    ensures Sent(Measurement.MeasurementTrace(observed, cycles))
      == if Measurement.Started(observed) then Measurement.Blinks(cycles) else []
  {
    var gate := Repeat(Sleep(Measurement.PollMs), Measurement.Polls(observed));
    var rest := if Measurement.Started(observed) then Measurement.CyclesTrace(cycles) else [];
    SleepsSendNothing(Measurement.Polls(observed));
    ProjectionsAppend(gate, rest);
    if Measurement.Started(observed) {
      Measurement.CyclesSendBlinks(cycles);
    }
  }

  /**
   * Every command the measurement task sends is a blink that leaves the
   * period to the LED task's default, so each costs 300 ms there.
   */
  lemma {:induction false} BlinksUseDefaultPeriod(cycles: seq<Measurement.CycleBus>)
    ensures BlinkCount(Measurement.Blinks(cycles)) == |Measurement.Blinks(cycles)|
    ensures BlinkTimeMs(Measurement.Blinks(cycles)) == DefaultBlinkPeriodMs * |Measurement.Blinks(cycles)|
  {
    if cycles != [] {
      var init := cycles[..|cycles| - 1];
      BlinksUseDefaultPeriod(init);
      var last := cycles[|cycles| - 1];
      var b := Measurement.Blinks(cycles);
      if last.writeOk && last.read.Some? {
        assert b == Measurement.Blinks(init) + [Measurement.BlinkOf(Measurement.ResponseColor(last.read.value))];
        assert b[..|b| - 1] == Measurement.Blinks(init);
      } else {
        assert b == Measurement.Blinks(init);
      }
    }
  }

  /** After a full conditioning run the LED shows the green "done" colour. */
  lemma ConditioningLeavesLedGreen(durationSecs: u8, bus: seq<Conditioning.CycleBus>)
    requires |bus| == durationSecs as int
    ensures var px := Shows(TaskTimeline(true, Sent(Conditioning.ConditioningTrace(durationSecs, bus))));
      |px| > 0 && px[|px| - 1] == Rgb(0, 30, 0)
  {
    Conditioning.ConditioningEffects(durationSecs, bus);
    var cmds := Sent(Conditioning.ConditioningTrace(durationSecs, bus));
    LastCommandWins(cmds);
  }

  /**
   * Once measuring, the LED ends on the colour that the last successful
   * cycle's reading selected, and spends 300 ms dark for every blink.
   */
  lemma MeasurementLedColour(observed: seq<bool>, cycles: seq<Measurement.CycleBus>)
    requires Measurement.Started(observed) && Measurement.Blinks(cycles) != []
    ensures var cmds := Sent(Measurement.MeasurementTrace(observed, cycles));
      var px := Shows(TaskTimeline(true, cmds));
      && |cmds| > 0 && |px| == 2 * |cmds|
      && px[|px| - 1] == FinalColor(cmds[|cmds| - 1])
      && WaitedMs(TaskTimeline(true, cmds)) == DefaultBlinkPeriodMs * |cmds|
  {
    MeasurementSends(observed, cycles);
    BlinksUseDefaultPeriod(cycles);
    var cmds := Measurement.Blinks(cycles);
    TaskEffects(true, cmds);
    LastCommandWins(cmds);
  }
}
