/**
 * The conditioning (warm-up) task of the SGP41 (src/tasks/conditioning.rs)
 * and the sensor constants it declares.
 *
 * The task is modelled as one sequential run: the `i`-th element of `bus`
 * says how the `i`-th cycle's write and read turned out and, for a read that
 * succeeded, which three bytes arrived. The result of the VOC gas-index
 * algorithm is only logged by the source, so the model records the sample
 * handed to it (`VocSample`) and nothing that depends on its answer.
 */
module Conditioning {
  import opened Base
  import opened Sgp41
  import opened Led
  import opened Events

  /** The sensor's bus address, `SGP41_ADDR`. */
  const Sgp41Addr: u8 := 0x59

  /** `CMD_EXECUTE_CONDITIONING`. */
  const CmdExecuteConditioning: seq<u8> := [0x26, 0x12]

  /** `CMD_MEASURE_RAW_SIGNALS`. */
  const CmdMeasureRawSignals: seq<u8> := [0x26, 0x19]

  /** The colours the task shows: before, during and after conditioning. */
  const StartCommand := Solid(30, 0, 0)
  const CycleCommand := Solid(30, 0, 30)
  const DoneCommand := Solid(0, 30, 0)

  /** 25 °C and 50 %RH, the fixed compensation values both tasks send. */
  const CompensationCelsius := 25.0
  const CompensationHumidity := 50.0

  /** A conditioning response: one data word and its checksum. */
  type Response3 = s: seq<u8> | |s| == 3 witness [0, 0, 0]

  /** What the bus did in one conditioning cycle. */
  datatype CycleBus = CycleBus(writeOk: bool, read: Option<Response3>)

  /** The eight bytes written each cycle: the command, then the compensation for 25 °C and 50 %RH. */
  function ConditioningFrame(): (f: seq<u8>)
    ensures |f| == 8 && f[..2] == [0x26, 0x12]
  {
    CmdExecuteConditioning + DefaultParams
  }

  lemma ConditioningFrameLayout()
    ensures ConditioningFrame() == CmdExecuteConditioning + PrepareTempHumParams(CompensationCelsius, CompensationHumidity)
  {
    DefaultCompensation();
  }

  /**
   * The effects of the body of `for i in 1..=duration_secs` for one bus
   * outcome: the write, the cycle colour, 50 ms, the read, the sample when the
   * read succeeded, then 1 s.
   */
  function CycleTrace(bus: CycleBus): (t: seq<Event>)
    ensures |t| == if bus.read.Some? then 6 else 5
    ensures t[0].Write? && t[|t| - 1] == Sleep(1000)
  {
    [Write(Sgp41Addr, ConditioningFrame()), Send(CycleCommand), Sleep(50), Read(Sgp41Addr, 3)]
    + (match bus.read
       case Some(buf) => [VocSample(FromBeBytes(buf[0], buf[1]))]
       case None => [])
    + [Sleep(1000)]
  }

  /**
   * Each cycle writes and reads once, sends the cycle colour once, never
   * stores the flag, sleeps 1050 ms, and samples exactly what it read.
   */
  lemma CycleEffects(bus: CycleBus)
    ensures var t := CycleTrace(bus);
      && BusOps(t) == 2 && DoneStores(t) == 0
      && Sent(t) == [CycleCommand]
      && SleptMs(t) == 1050
      && Samples(t) == if bus.read.Some? then [FromBeBytes(bus.read.value[0], bus.read.value[1])] else []
  {
    var head := [Write(Sgp41Addr, ConditioningFrame()), Send(CycleCommand), Sleep(50), Read(Sgp41Addr, 3)];
    var tail := (if bus.read.Some? then [VocSample(FromBeBytes(bus.read.value[0], bus.read.value[1]))] else [])
      + [Sleep(1000)];
    assert CycleTrace(bus) == head + tail;
    HeadEffects();
    TailEffects(bus, tail);
    ProjectionsAppend(head, tail);
  }

  /** The four fixed events that open every cycle. */
  lemma HeadEffects()
    ensures var head := [Write(Sgp41Addr, ConditioningFrame()), Send(CycleCommand), Sleep(50), Read(Sgp41Addr, 3)];
      && BusOps(head) == 2 && DoneStores(head) == 0 && Sent(head) == [CycleCommand]
      && SleptMs(head) == 50 && Samples(head) == []
  {
    var w, c, s, r := Write(Sgp41Addr, ConditioningFrame()), Send(CycleCommand), Sleep(50), Read(Sgp41Addr, 3);
    assert [w, c, s, r] == [w, c] + [s, r];
    ProjectionsAppend([w, c], [s, r]);
    ProjectionsAppend([w], [c]);
    ProjectionsAppend([s], [r]);
  }

  /** The optional sample and the closing 1 s wait. */
  lemma TailEffects(bus: CycleBus, tail: seq<Event>)
    requires tail == (if bus.read.Some? then [VocSample(FromBeBytes(bus.read.value[0], bus.read.value[1]))] else [])
      + [Sleep(1000)]
    ensures BusOps(tail) == 0 && DoneStores(tail) == 0 && Sent(tail) == [] && SleptMs(tail) == 1000
    ensures Samples(tail) == if bus.read.Some? then [FromBeBytes(bus.read.value[0], bus.read.value[1])] else []
  {
    if bus.read.Some? {
      ProjectionsAppend([tail[0]], [Sleep(1000)]);
    }
  }

  /** The effects of the cycles `bus` describes, one after the other. */
  function CyclesTrace(bus: seq<CycleBus>): seq<Event> {
    Passes(bus, CycleTrace)
  }

  /** The whole run of `sgp41_conditioning_task(bus, duration_secs, ...)`. */
  function ConditioningTrace(durationSecs: u8, bus: seq<CycleBus>): (t: seq<Event>)
    requires |bus| == durationSecs as int
    ensures |t| == |CyclesTrace(bus)| + 3
    ensures t[0] == Send(StartCommand)
    ensures t[|t| - 1] == ConditionDone
  {
    [Send(StartCommand)] + CyclesTrace(bus) + [Send(DoneCommand), ConditionDone]
  }

  /** `sgp41_conditioning_task`, one bus outcome per cycle. */
  method ConditioningTask(durationSecs: u8, bus: seq<CycleBus>) returns (trace: seq<Event>)
    requires |bus| == durationSecs as int
    ensures trace == ConditioningTrace(durationSecs, bus)
  {
    trace := [Send(StartCommand)];
    var cycles := RunCycles(durationSecs, bus);
    trace := trace + cycles;
    trace := trace + [Send(DoneCommand)];
    trace := trace + [ConditionDone];
  }

  /** The task's `for i in 1..=duration_secs` loop. */
  method RunCycles(durationSecs: u8, bus: seq<CycleBus>) returns (trace: seq<Event>)
    requires |bus| == durationSecs as int
    ensures trace == CyclesTrace(bus)
  {
    trace := [];
    for i := 1 to durationSecs as int + 1
      invariant trace == CyclesTrace(bus[..i - 1])
    {
      var cycle := ConditioningCycle(bus[i - 1]);
      PassesSnoc(bus, CycleTrace, i - 1);
      trace := trace + cycle;
    }
    assert bus[..durationSecs as int] == bus;
  }

  /**
   * One pass of the `for` body: write the frame, send the cycle colour, wait
   * 50 ms, read three bytes into the buffer and hand the VOC word to the
   * algorithm when the read succeeded, then wait 1 s.
   */
  method ConditioningCycle(outcome: CycleBus) returns (cycle: seq<Event>)
    ensures cycle == CycleTrace(outcome)
  {
    var cmd := BuildFrame(CmdExecuteConditioning);
    // A failed write is only logged: the cycle goes on regardless.
    cycle := [Write(Sgp41Addr, cmd)];
    cycle := cycle + [Send(CycleCommand)];
    cycle := cycle + [Sleep(50)];
    var buf := new u8[3];
    cycle := cycle + [Read(Sgp41Addr, buf.Length)];
    if outcome.read.Some? {
      CopyFromSlice(buf, 0, outcome.read.value);
      var vocRaw := FromBeBytes(buf[0], buf[1]);
      cycle := cycle + [VocSample(vocRaw)];
    }
    cycle := cycle + [Sleep(1000)];
  }

  /**
   * The eight-byte command both tasks write: the two command bytes followed by
   * `prepare_temp_hum_params(25.0, 50.0)`, assembled in an array in place.
   */
  method BuildFrame(command: seq<u8>) returns (frame: seq<u8>)
    requires |command| == 2
    ensures frame == command + DefaultParams
  {
    var celsius, humidity := CompensationCelsius, CompensationHumidity;
    var params := PrepareTempHumParams(celsius, humidity);
    DefaultCompensation();
    var cmd := new u8[8];
    CopyFromSlice(cmd, 0, command);
    CopyFromSlice(cmd, 2, params);
    frame := cmd[..];
  }

  /** The cycles' projections: one write and one read, one `CycleCommand` and 1050 ms each. */
  lemma CyclesProjections(bus: seq<CycleBus>)
    ensures BusOps(CyclesTrace(bus)) == 2 * |bus|
    ensures DoneStores(CyclesTrace(bus)) == 0
    ensures Sent(CyclesTrace(bus)) == Repeat(CycleCommand, |bus|)
    ensures SleptMs(CyclesTrace(bus)) == 1050 * |bus|
    ensures Samples(CyclesTrace(bus)) == ReadSamples(bus)
  {
    CyclesBusOps(bus);
    CyclesSentAndSlept(bus);
    CyclesSamples(bus);
  }

  lemma {:induction false} CyclesBusOps(bus: seq<CycleBus>)
    ensures BusOps(CyclesTrace(bus)) == 2 * |bus| && DoneStores(CyclesTrace(bus)) == 0
  {
    if bus != [] {
      var init := bus[..|bus| - 1];
      var last := bus[|bus| - 1];
      CyclesBusOps(init);
      assert CyclesTrace(bus) == CyclesTrace(init) + CycleTrace(last);
      BusOpsAppend(CyclesTrace(init), CycleTrace(last));
      DoneStoresAppend(CyclesTrace(init), CycleTrace(last));
      CycleEffects(last);
    }
  }

  lemma {:induction false} CyclesSentAndSlept(bus: seq<CycleBus>)
    ensures Sent(CyclesTrace(bus)) == Repeat(CycleCommand, |bus|)
    ensures SleptMs(CyclesTrace(bus)) == 1050 * |bus|
  {
    if bus != [] {
      var init := bus[..|bus| - 1];
      var last := bus[|bus| - 1];
      CyclesSentAndSlept(init);
      assert CyclesTrace(bus) == CyclesTrace(init) + CycleTrace(last);
      SentAppend(CyclesTrace(init), CycleTrace(last));
      SleptMsAppend(CyclesTrace(init), CycleTrace(last));
      CycleEffects(last);
    }
  }

  lemma {:induction false} CyclesSamples(bus: seq<CycleBus>)
    ensures Samples(CyclesTrace(bus)) == ReadSamples(bus)
  {
    if bus != [] {
      var init := bus[..|bus| - 1];
      var last := bus[|bus| - 1];
      CyclesSamples(init);
      assert CyclesTrace(bus) == CyclesTrace(init) + CycleTrace(last);
      SamplesAppend(CyclesTrace(init), CycleTrace(last));
      CycleEffects(last);
    }
  }

  function ReadSamples(bus: seq<CycleBus>): seq<int> {
    if bus == [] then []
    else
      ReadSamples(bus[..|bus| - 1])
      + (match bus[|bus| - 1].read
         case Some(buf) => [FromBeBytes(buf[0], buf[1]) as int]
         case None => [])
  }

  /**
   * The LED sees red, then one magenta command per cycle, then green; the
   * task touches the bus twice per cycle, sleeps 1050 ms per cycle whether
   * or not its transfers failed, and feeds the algorithm only what it read.
   */
  lemma ConditioningEffects(durationSecs: u8, bus: seq<CycleBus>)
    requires |bus| == durationSecs as int
    ensures Sent(ConditioningTrace(durationSecs, bus))
      == [StartCommand] + Repeat(CycleCommand, durationSecs as int) + [DoneCommand]
    ensures BusOps(ConditioningTrace(durationSecs, bus)) == 2 * durationSecs as int
    ensures SleptMs(ConditioningTrace(durationSecs, bus)) == 1050 * durationSecs as int
    ensures Samples(ConditioningTrace(durationSecs, bus)) == ReadSamples(bus)
  {
    CyclesProjections(bus);
    var c := CyclesTrace(bus);
    ProjectionsAppend([Send(StartCommand)] + c, [Send(DoneCommand), ConditionDone]);
    ProjectionsAppend([Send(StartCommand)], c);
    ProjectionsAppend([Send(DoneCommand)], [ConditionDone]);
  }

  /**
   * `CONDITION_DONE` is stored exactly once, as the very last effect: every
   * event before it, bus transfers and LED commands included, happens while
   * the flag is still false.
   */
  lemma DoneStoredOnceAtEnd(durationSecs: u8, bus: seq<CycleBus>)
    requires |bus| == durationSecs as int
    ensures DoneStores(ConditioningTrace(durationSecs, bus)) == 1
    ensures var t := ConditioningTrace(durationSecs, bus); DoneStores(t[..|t| - 1]) == 0
  {
    var c := CyclesTrace(bus);
    var t := ConditioningTrace(durationSecs, bus);
    var front := [Send(StartCommand)] + c + [Send(DoneCommand)];
    assert t == front + [ConditionDone];
    assert t[..|t| - 1] == front;
    CyclesProjections(bus);
    ProjectionsAppend([Send(StartCommand)] + c, [Send(DoneCommand)]);
    ProjectionsAppend([Send(StartCommand)], c);
    ProjectionsAppend(front, [ConditionDone]);
    assert DoneStores([Send(StartCommand)]) == 0 && DoneStores([Send(DoneCommand)]) == 0;
    assert DoneStores([ConditionDone]) == 1;
  }

  /** Every write of the task is the conditioning frame to the sensor's address. */
  lemma {:induction false} CyclesWriteConditioningFrame(bus: seq<CycleBus>, k: nat)
    requires k < |CyclesTrace(bus)| && CyclesTrace(bus)[k].Write?
    ensures CyclesTrace(bus)[k] == Write(Sgp41Addr, ConditioningFrame())
  {
    var init := bus[..|bus| - 1];
    var last := CycleTrace(bus[|bus| - 1]);
    if k < |CyclesTrace(init)| {
      CyclesWriteConditioningFrame(init, k);
    } else {
      assert CyclesTrace(bus)[k] == last[k - |CyclesTrace(init)|];
    }
  }

  /** Whether a write succeeded never changes what the task does. */
  lemma {:induction false} WriteResultIgnored(bus1: seq<CycleBus>, bus2: seq<CycleBus>)
    requires |bus1| == |bus2|
    requires forall i :: 0 <= i < |bus1| ==> bus1[i].read == bus2[i].read
    ensures CyclesTrace(bus1) == CyclesTrace(bus2)
  {
    if bus1 != [] {
      WriteResultIgnored(bus1[..|bus1| - 1], bus2[..|bus2| - 1]);
    }
  }
}
