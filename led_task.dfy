/**
 * The LED task (src/tasks/led.rs): it takes `LedCommand`s from the channel
 * one at a time and renders each on the WS2812 LED. A solid colour is one
 * frame; a blink is a black frame, a pause of the blink period (300 ms when
 * the command gives none) and then the colour.
 *
 * The channel is modelled by the sequence of commands the task receives, in
 * order; the task's endless loop ends when that sequence does.
 */
module LedTask {
  import opened Base
  import opened Led

  /** `period_ms_opt.unwrap_or(300)`. */
  const DefaultBlinkPeriodMs := 300

  function PeriodMs(period: Option<u16>): (ms: nat)
    ensures period.Some? ==> ms == period.value
    ensures period.None? ==> ms == DefaultBlinkPeriodMs
  {
    match period
    case Some(p) => p
    case None => DefaultBlinkPeriodMs
  }

  /** The colour a command ends on. */
  function FinalColor(cmd: LedCommand): Pixel {
    Rgb(cmd.r, cmd.g, cmd.b)
  }

  /** A frame written with `set_color_rgb`: recorded only when an adapter is present. */
  function ShowIf(present: bool, px: Pixel): seq<LedEvent> {
    if present then [Show(px)] else []
  }

  /**
   * What handling one command leaves on the LED's timeline: with an adapter
   * it ends on the command's colour; without one it holds at most the pause.
   */
  function CommandTimeline(present: bool, cmd: LedCommand): (t: seq<LedEvent>)
    ensures present ==> |t| > 0 && t[|t| - 1] == Show(FinalColor(cmd))
    ensures !present ==> t == if cmd.Blink? then [Wait(PeriodMs(cmd.periodMs))] else []
  {
    match cmd
    case Solid(r, g, b) => ShowIf(present, Rgb(r, g, b))
    case Blink(r, g, b, period) =>
      ShowIf(present, Black) + [Wait(PeriodMs(period))] + ShowIf(present, Rgb(r, g, b))
  }

  /** What handling `cmds`, in order, leaves on the timeline. */
  function TaskTimeline(present: bool, cmds: seq<LedCommand>): seq<LedEvent> {
    if cmds == [] then []
    else TaskTimeline(present, cmds[..|cmds| - 1]) + CommandTimeline(present, cmds[|cmds| - 1])
  }

  /** The frames written to the LED, in order. */
  function Shows(tl: seq<LedEvent>): (px: seq<Pixel>)
    ensures |px| <= |tl|
  {
    if tl == [] then [] else (if tl[0].Show? then [tl[0].pixel] else []) + Shows(tl[1..])
  }

  /** The total time the timeline pauses, in milliseconds. */
  function WaitedMs(tl: seq<LedEvent>): nat {
    if tl == [] then 0 else (if tl[0].Wait? then tl[0].ms else 0) + WaitedMs(tl[1..])
  }

  /** How many of the commands are blinks. */
  function BlinkCount(cmds: seq<LedCommand>): (n: nat)
    ensures n <= |cmds|
  {
    if cmds == [] then 0 else BlinkCount(cmds[..|cmds| - 1]) + (if cmds[|cmds| - 1].Blink? then 1 else 0)
  }

  /** The sum of the periods of the blinks among the commands. */
  function BlinkTimeMs(cmds: seq<LedCommand>): nat {
    if cmds == [] then 0
    else
      var last := cmds[|cmds| - 1];
      BlinkTimeMs(cmds[..|cmds| - 1]) + (if last.Blink? then PeriodMs(last.periodMs) else 0)
  }

  lemma {:induction false} TimelineAppend(a: seq<LedEvent>, b: seq<LedEvent>)
    ensures Shows(a + b) == Shows(a) + Shows(b)
    ensures WaitedMs(a + b) == WaitedMs(a) + WaitedMs(b)
  {
    if a == [] {
      assert a + b == b;
    } else {
      assert (a + b)[0] == a[0];
      assert (a + b)[1..] == a[1..] + b;
      TimelineAppend(a[1..], b);
    }
  }

  /** One command: its frames and its pause. */
  lemma CommandEffects(present: bool, cmd: LedCommand)
    ensures Shows(CommandTimeline(present, cmd))
      == if !present then []
         else if cmd.Blink? then [Black, FinalColor(cmd)]
         else [FinalColor(cmd)]
    ensures WaitedMs(CommandTimeline(present, cmd)) == if cmd.Blink? then PeriodMs(cmd.periodMs) else 0
  {
    if cmd.Blink? {
      var wait := [Wait(PeriodMs(cmd.periodMs))];
      TimelineAppend(ShowIf(present, Black) + wait, ShowIf(present, FinalColor(cmd)));
      TimelineAppend(ShowIf(present, Black), wait);
    }
  }

  /**
   * With an adapter, each solid colour writes one frame and each blink two;
   * without one, nothing is ever written. Either way the task pauses exactly
   * for the blink periods.
   */
  lemma {:induction false} TaskEffects(present: bool, cmds: seq<LedCommand>)
    ensures |Shows(TaskTimeline(present, cmds))| == if present then |cmds| + BlinkCount(cmds) else 0
    ensures WaitedMs(TaskTimeline(present, cmds)) == BlinkTimeMs(cmds)
  {
    if cmds != [] {
      var init := cmds[..|cmds| - 1];
      var last := cmds[|cmds| - 1];
      TaskEffects(present, init);
      CommandEffects(present, last);
      TimelineAppend(TaskTimeline(present, init), CommandTimeline(present, last));
    }
  }

  /** Whatever came before, the LED is left showing the colour of the last command. */
  lemma LastCommandWins(cmds: seq<LedCommand>)
    requires cmds != []
    ensures var px := Shows(TaskTimeline(true, cmds)); |px| > 0 && px[|px| - 1] == FinalColor(cmds[|cmds| - 1])
  {
    var init := cmds[..|cmds| - 1];
    var last := cmds[|cmds| - 1];
    CommandEffects(true, last);
    TimelineAppend(TaskTimeline(true, init), CommandTimeline(true, last));
  }

  /** A blink's dark frame comes first: every blink passes through black before its colour. */
  lemma BlinkPassesThroughBlack(present: bool, cmd: LedCommand)
    requires present && cmd.Blink?
    ensures var px := Shows(CommandTimeline(present, cmd)); |px| == 2 && px[0] == Black
  {
    CommandEffects(present, cmd);
  }

  /** A pause of `ms` milliseconds, `Timer::after(Duration::from_millis(ms))`. */
  method Pause(led: Ws2812Led, ms: nat)
    modifies led`timeline
    ensures led.timeline == old(led.timeline) + [Wait(ms)]
  {
    led.timeline := led.timeline + [Wait(ms)];
  }

  /** The body of the task's loop for one received command. */
  method HandleCommand(led: Ws2812Led, cmd: LedCommand)
    modifies led`timeline
    ensures led.timeline == old(led.timeline) + CommandTimeline(led.adapterPresent, cmd)
  {
    match cmd {
      case Solid(r, g, b) =>
        led.SetColorRgb(r, g, b);
      case Blink(r, g, b, periodOpt) =>
        var periodMs := if periodOpt.Some? then periodOpt.value else DefaultBlinkPeriodMs;
        led.SetColorRgb(0, 0, 0);
        Pause(led, periodMs);
        led.SetColorRgb(r, g, b);
    }
  }

  /** `led_task`, handling the received commands in order. */
  method LedTaskLoop(led: Ws2812Led, cmds: seq<LedCommand>)
    modifies led`timeline
    ensures led.timeline == old(led.timeline) + TaskTimeline(led.adapterPresent, cmds)
  {
    for i := 0 to |cmds|
      invariant led.timeline == old(led.timeline) + TaskTimeline(led.adapterPresent, cmds[..i])
    {
      assert cmds[..i + 1][..i] == cmds[..i];
      HandleCommand(led, cmds[i]);
    }
    assert cmds[..|cmds|] == cmds;
  }
}
