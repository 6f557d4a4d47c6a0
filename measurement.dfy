/**
 * The measurement task of the SGP41 (src/tasks/sgp41_measurement.rs): wait
 * for conditioning to finish, then measure forever.
 *
 * The run is modelled on its inputs: the successive values the task loads
 * from the conditioning-done flag, and for each measurement cycle how the
 * write and read turned out and which six bytes arrived. The endless `loop`
 * runs once per element of `cycles`.
 *
 * The source computes the indices in `f32`. Raw ticks are integers below
 * 2^16, so `raw as f32 - 25000.0` is exact, and the division by 50 rounds to
 * the nearest `f32`; since the thresholds 180, 120 and 30 are themselves
 * `f32` values and no quotient of an integer by 50 lies strictly between a
 * threshold and its neighbouring `f32`, the comparisons come out as they do
 * on the exact real quotient used here.
 */
module Measurement {
  import opened Base
  import opened Sgp41
  import opened Led
  import opened Events
  import opened Conditioning

  const VocOffset := 25000.0
  const VocScale := 50.0
  const NoxOffset := 25000.0
  const NoxScale := 50.0

  /** How long the task waits between two loads of the conditioning-done flag. */
  const PollMs := 100

  /** A measurement response: the VOC word, its checksum, the NOx word, its checksum. */
  type Response6 = s: seq<u8> | |s| == 6 witness [0, 0, 0, 0, 0, 0]

  /** What the bus did in one measurement cycle. */
  datatype CycleBus = CycleBus(writeOk: bool, read: Option<Response6>)

  /** The `[r, g, b]` colour a cycle chooses. */
  datatype Color = Color(r: u8, g: u8, b: u8)

  const Red := Color(30, 0, 0)
  const Yellow := Color(30, 30, 0)
  const Green := Color(0, 30, 0)

  /** The eight bytes written each cycle. */
  function MeasureFrame(): (f: seq<u8>)
    ensures |f| == 8 && f[..2] == [0x26, 0x19]
  {
    CmdMeasureRawSignals + DefaultParams
  }

  lemma MeasureFrameLayout()
    ensures MeasureFrame() == CmdMeasureRawSignals + PrepareTempHumParams(CompensationCelsius, CompensationHumidity)
  {
    DefaultCompensation();
  }

  /** `((raw as f32 - offset) / scale).max(0.0)`, on exact reals. */
  function Index(raw: u16, offset: real, scale: real): (index: real)
    requires scale > 0.0
    ensures index >= 0.0
    ensures index > 0.0 <==> raw as real > offset
    ensures raw as real >= offset ==> index * scale == raw as real - offset
  {
    var q := (raw as real - offset) / scale;
    if q > 0.0 then q else 0.0
  }

  function VocIndex(vocRaw: u16): real {
    Index(vocRaw, VocOffset, VocScale)
  }

  function NoxIndex(noxRaw: u16): real {
    Index(noxRaw, NoxOffset, NoxScale)
  }

  /**
   * The colour decision as the source writes it, on the two indices: red
   * above 180, yellow above 120, green otherwise, and green whenever the NOx
   * index is above 30.
   */
  function SelectColor(vocIndex: real, noxIndex: real): (c: Color)
    ensures c == Red <==> noxIndex <= 30.0 && vocIndex > 180.0
    ensures c == Yellow <==> noxIndex <= 30.0 && 120.0 < vocIndex <= 180.0
    ensures c == Green <==> noxIndex > 30.0 || vocIndex <= 120.0
  {
    var base := if vocIndex > 180.0 then Red else if vocIndex > 120.0 then Yellow else Green;
    if noxIndex > 30.0 then Green else base
  }

  /** The same decision on raw ticks: the thresholds fall at integer tick values. */
  function TicksColor(vocRaw: u16, noxRaw: u16): (c: Color)
    ensures c == Red <==> noxRaw <= 26500 && vocRaw > 34000
    ensures c == Yellow <==> noxRaw <= 26500 && 31000 < vocRaw <= 34000
    ensures c == Green <==> noxRaw > 26500 || vocRaw <= 31000
  {
    if noxRaw > 26500 then Green
    else if vocRaw > 34000 then Red
    else if vocRaw > 31000 then Yellow
    else Green
  }

  /** The index thresholds are tick thresholds. */
  lemma IndexThresholds(raw: u16)
    ensures VocIndex(raw) > 180.0 <==> raw > 34000
    ensures VocIndex(raw) > 120.0 <==> raw > 31000
    ensures NoxIndex(raw) > 30.0 <==> raw > 26500
  {
    var q := (raw as real - 25000.0) / 50.0;
    assert q * 50.0 == raw as real - 25000.0;
  }

  /** Choosing on indices and choosing on ticks agree for every reading. */
  lemma ColorOnTicks(vocRaw: u16, noxRaw: u16)
    ensures SelectColor(VocIndex(vocRaw), NoxIndex(noxRaw)) == TicksColor(vocRaw, noxRaw)
  {
    IndexThresholds(vocRaw);
    IndexThresholds(noxRaw);
  }

  /** How alarming a colour is: green, then yellow, then red. */
  function Severity(c: Color): nat {
    if c == Red then 2 else if c == Yellow then 1 else 0
  }

  /** While NOx is not high, a higher VOC reading never shows a less alarming colour. */
  lemma SeverityMonotoneInVoc(vocRaw1: u16, vocRaw2: u16, noxRaw: u16)
    requires vocRaw1 <= vocRaw2 && noxRaw <= 26500
    ensures Severity(SelectColor(VocIndex(vocRaw1), NoxIndex(noxRaw)))
      <= Severity(SelectColor(VocIndex(vocRaw2), NoxIndex(noxRaw)))
  {
    ColorOnTicks(vocRaw1, noxRaw);
    ColorOnTicks(vocRaw2, noxRaw);
  }

  /**
   * The NOx override replaces the VOC colour by the low-VOC green, whatever
   * the VOC reading: a high-NOx reading shows the same colour as clean air.
   */
  lemma NoxOverrideShowsCleanAirColour(vocIndex: real, noxIndex: real)
    requires noxIndex > 30.0
    ensures SelectColor(vocIndex, noxIndex) == SelectColor(0.0, 0.0) == Green
  {
  }

  /**
   * The colour for a response: decided on the big-endian ticks at offsets 0
   * and 3, and equal to the source's decision on their indices; the checksum
   * bytes are not looked at.
   */
  function ResponseColor(buf: Response6): (c: Color)
    ensures c == SelectColor(VocIndex(FromBeBytes(buf[0], buf[1])), NoxIndex(FromBeBytes(buf[3], buf[4])))
  {
    ColorOnTicks(FromBeBytes(buf[0], buf[1]), FromBeBytes(buf[3], buf[4]));
    TicksColor(FromBeBytes(buf[0], buf[1]), FromBeBytes(buf[3], buf[4]))
  }

  function BlinkOf(c: Color): LedCommand {
    Blink(c.r, c.g, c.b, None)
  }

  /**
   * The effects of one pass of the `loop` body for one bus outcome: two
   * events after a failed write, four after a failed read, five after a good
   * read; always the write first and a wait last.
   */
  function CycleTrace(bus: CycleBus): (t: seq<Event>)
    ensures |t| == if !bus.writeOk then 2 else if bus.read.None? then 4 else 5
    ensures t[0] == Write(Sgp41Addr, MeasureFrame()) && t[|t| - 1].Sleep?
  {
    var write := Write(Sgp41Addr, MeasureFrame());
    if !bus.writeOk then
      [write, Sleep(1000)]
    else
      match bus.read
      case None => [write, Sleep(50), Read(Sgp41Addr, 6), Sleep(1000)]
      case Some(buf) => [write, Sleep(50), Read(Sgp41Addr, 6), Send(BlinkOf(ResponseColor(buf))), Sleep(2000)]
  }

  /**
   * A cycle always starts with the write. A failed write is followed only by
   * a 1 s wait; otherwise a 50 ms wait and a six-byte read follow. A failed
   * read sends nothing and ends with a 1 s wait; a good read sends a blink of
   * the chosen colour and ends with a 2 s wait.
   */
  lemma CycleShape(bus: CycleBus)
    ensures var t := CycleTrace(bus);
      && |t| >= 2 && t[0] == Write(Sgp41Addr, MeasureFrame())
      && (!bus.writeOk ==> t == [Write(Sgp41Addr, MeasureFrame()), Sleep(1000)])
      && (bus.writeOk ==> |t| >= 4 && t[1] == Sleep(50) && t[2] == Read(Sgp41Addr, 6))
      && (bus.read.None? ==> t[|t| - 1] == Sleep(1000) && forall k :: 0 <= k < |t| ==> !t[k].Send?)
      && (bus.writeOk && bus.read.Some? ==>
            t[|t| - 2] == Send(BlinkOf(ResponseColor(bus.read.value))) && t[|t| - 1] == Sleep(2000))
  {
  }

  /** The effects of the loop passes `cycles` describes, one after the other. */
  function CyclesTrace(cycles: seq<CycleBus>): seq<Event> {
    Passes(cycles, CycleTrace)
  }

  /** The number of leading loads of the flag that returned false. */
  function Polls(observed: seq<bool>): (n: nat)
    ensures n <= |observed|
    ensures forall k :: 0 <= k < n ==> !observed[k]
    ensures n < |observed| ==> observed[n]
  {
    if observed == [] || observed[0] then 0 else 1 + Polls(observed[1..])
  }

  /** Whether the task got past its start gate: some load returned true. */
  predicate Started(observed: seq<bool>) {
    Polls(observed) < |observed|
  }

  /** The whole run: the polling sleeps, then the cycles once the flag was seen set. */
  function MeasurementTrace(observed: seq<bool>, cycles: seq<CycleBus>): seq<Event> {
    Repeat(Sleep(PollMs), Polls(observed)) + (if Started(observed) then CyclesTrace(cycles) else [])
  }

  /**
   * `while !CONDITION_DONE.load(Acquire) { sleep 100 ms }`: one 100 ms sleep
   * per load that returned false, stopping at the first true.
   */
  method WaitForConditioning(observed: seq<bool>) returns (started: bool, trace: seq<Event>)
    ensures started <==> true in observed
    ensures |trace| <= |observed|
    ensures started ==> |trace| < |observed| && observed[|trace|]
    ensures forall k :: 0 <= k < |trace| ==> !observed[k] && trace[k] == Sleep(PollMs)
    ensures trace == Repeat(Sleep(PollMs), Polls(observed)) && started == Started(observed)
  {
    trace := [];
    var i := 0;
    while i < |observed| && !observed[i]
      invariant 0 <= i <= |observed| && |trace| == i
      invariant forall k :: 0 <= k < i ==> !observed[k] && trace[k] == Sleep(PollMs)
    {
      trace := trace + [Sleep(PollMs)];
      i := i + 1;
    }
    started := i < |observed|;
    assert i == Polls(observed);
    assert trace == Repeat(Sleep(PollMs), i);
  }

  /** `sgp41_measurement_task`: the start gate, then one loop pass per element of `cycles`. */
  method MeasurementTask(observed: seq<bool>, cycles: seq<CycleBus>) returns (trace: seq<Event>)
    ensures trace == MeasurementTrace(observed, cycles)
  {
    var started;
    started, trace := WaitForConditioning(observed);
    if !started {
      return;
    }
    var measured := RunCycles(cycles);
    trace := trace + measured;
  }

  /** The task's endless `loop`, one pass per element of `cycles`. */
  method RunCycles(cycles: seq<CycleBus>) returns (trace: seq<Event>)
    ensures trace == CyclesTrace(cycles)
  {
    trace := [];
    for i := 0 to |cycles|
      invariant trace == CyclesTrace(cycles[..i])
    {
      var cycle := MeasurementCycle(cycles[i]);
      PassesSnoc(cycles, CycleTrace, i);
      trace := trace + cycle;
    }
    assert cycles[..|cycles|] == cycles;
  }

  /**
   * One pass of the `loop` body; each `return` here is a `continue` there.
   * Build the frame, write it, wait 50 ms, read six bytes into the buffer,
   * decode, choose the colour, send one blink and wait 2 s; a failed write
   * or read costs a 1 s wait instead and ends the pass.
   */
  method MeasurementCycle(bus: CycleBus) returns (cycle: seq<Event>)
    ensures cycle == CycleTrace(bus)
  {
    var cmd := BuildFrame(CmdMeasureRawSignals);
    cycle := [Write(Sgp41Addr, cmd)];
    if !bus.writeOk {
      cycle := cycle + [Sleep(1000)];
      return;
    }
    cycle := cycle + [Sleep(50)];
    var buffer := new u8[6];
    cycle := cycle + [Read(Sgp41Addr, buffer.Length)];
    if bus.read.None? {
      cycle := cycle + [Sleep(1000)];
      return;
    }
    CopyFromSlice(buffer, 0, bus.read.value);
    var vocRaw := FromBeBytes(buffer[0], buffer[1]);
    var noxRaw := FromBeBytes(buffer[3], buffer[4]);
    var vocIndex := VocIndex(vocRaw);
    var noxIndex := NoxIndex(noxRaw);
    var color;
    if vocIndex > 180.0 {
      color := Red;
    } else if vocIndex > 120.0 {
      color := Yellow;
    } else {
      color := Green;
    }
    if noxIndex > 30.0 {
      color := Green;
    }
    ColorOnTicks(vocRaw, noxRaw);
    cycle := cycle + [Send(Blink(color.r, color.g, color.b, None))];
    cycle := cycle + [Sleep(2000)];
  }

  /** The blinks a run of cycles should send: one per cycle whose write and read both succeeded. */
  function Blinks(cycles: seq<CycleBus>): (cmds: seq<LedCommand>)
    ensures |cmds| <= |cycles|
    ensures forall k :: 0 <= k < |cmds| ==> cmds[k].Blink? && cmds[k].periodMs.None?
  {
    if cycles == [] then []
    else
      var last := cycles[|cycles| - 1];
      Blinks(cycles[..|cycles| - 1])
      + (if last.writeOk && last.read.Some? then [BlinkOf(ResponseColor(last.read.value))] else [])
  }

  /** The LED commands of one cycle: a blink after a good read, nothing otherwise. */
  lemma CycleSends(bus: CycleBus)
    ensures Sent(CycleTrace(bus))
      == if bus.writeOk && bus.read.Some? then [BlinkOf(ResponseColor(bus.read.value))] else []
    ensures BusOps(CycleTrace(bus)) == if bus.writeOk then 2 else 1
  {
    var t := CycleTrace(bus);
    if !bus.writeOk {
      SentAppend([t[0]], [t[1]]);
      BusOpsAppend([t[0]], [t[1]]);
    } else if bus.read.None? {
      assert t == [t[0], t[1]] + [t[2], t[3]];
      SentAppend([t[0], t[1]], [t[2], t[3]]);
      BusOpsAppend([t[0], t[1]], [t[2], t[3]]);
      BusOpsAppend([t[0]], [t[1]]);
      BusOpsAppend([t[2]], [t[3]]);
    } else {
      assert t == [t[0], t[1], t[2]] + [t[3], t[4]];
      SentAppend([t[0], t[1], t[2]], [t[3], t[4]]);
      SentAppend([t[3]], [t[4]]);
      SentAppend([t[0]], [t[1], t[2]]);
      SentAppend([t[1]], [t[2]]);
      BusOpsAppend([t[0], t[1], t[2]], [t[3], t[4]]);
      BusOpsAppend([t[0]], [t[1], t[2]]);
      BusOpsAppend([t[1]], [t[2]]);
    }
  }

  /** Over a run, the task sends exactly the blinks of its successful cycles, in order. */
  lemma {:induction false} CyclesSendBlinks(cycles: seq<CycleBus>)
    ensures Sent(CyclesTrace(cycles)) == Blinks(cycles)
  {
    if cycles != [] {
      var init := cycles[..|cycles| - 1];
      CyclesSendBlinks(init);
      CycleSends(cycles[|cycles| - 1]);
      ProjectionsAppend(CyclesTrace(init), CycleTrace(cycles[|cycles| - 1]));
    }
  }

  /**
   * A cycle whose write fails costs one write and a 1 s wait and nothing
   * else; the cycles before and after it run as they would have anyway.
   */
  lemma WriteFailureSkipsOnlyItsCycle(before: seq<CycleBus>, read: Option<Response6>, after: seq<CycleBus>)
    ensures CyclesTrace(before + [CycleBus.CycleBus(false, read)] + after)
      == CyclesTrace(before) + [Write(Sgp41Addr, MeasureFrame()), Sleep(1000)] + CyclesTrace(after)
  {
    PassesAppend(before + [CycleBus.CycleBus(false, read)], after, CycleTrace);
    PassesAppend(before, [CycleBus.CycleBus(false, read)], CycleTrace);
    assert [CycleBus.CycleBus(false, read)][..0] == [];
  }

  /** The checksum bytes of a response (offsets 2 and 5) never change what a cycle does. */
  lemma ChecksumBytesIgnored(writeOk: bool, buf: Response6, crcVoc: u8, crcNox: u8)
    ensures CycleTrace(CycleBus.CycleBus(writeOk, Some(buf)))
      == CycleTrace(CycleBus.CycleBus(writeOk, Some(buf[2 := crcVoc][5 := crcNox])))
  {
    var other: Response6 := buf[2 := crcVoc][5 := crcNox];
    assert other[0] == buf[0] && other[1] == buf[1] && other[3] == buf[3] && other[4] == buf[4];
  }

  /**
   * No bus transfer and no LED command happen before the flag has been seen
   * set: until then the task only sleeps 100 ms per load, and if the flag is
   * never seen set it does nothing else at all.
   */
  lemma NothingBeforeConditioningDone(observed: seq<bool>, cycles: seq<CycleBus>)
    ensures var t := MeasurementTrace(observed, cycles);
      forall k :: 0 <= k < |t| && (IsBusOp(t[k]) || t[k].Send?) ==> Started(observed) && k >= Polls(observed)
    ensures var t := MeasurementTrace(observed, cycles);
      forall k :: 0 <= k < Polls(observed) ==> t[k] == Sleep(PollMs)
    ensures !Started(observed) ==> MeasurementTrace(observed, cycles) == Repeat(Sleep(PollMs), |observed|)
  {
  }

  /**
   * The end-to-end reading of 30449 raw VOC ticks (index (30449 - 25000) / 50,
   * about 109) with a low NOx reading shows the low-VOC colour.
   */
  lemma LowVocScenario()
    ensures CycleTrace(CycleBus.CycleBus(true, Some([0x76, 0xF1, 0x00, 0x61, 0xA8, 0x00])))
      == [Write(Sgp41Addr, MeasureFrame()), Sleep(50), Read(Sgp41Addr, 6), Send(Blink(0, 30, 0, None)), Sleep(2000)]
    ensures 108.0 < VocIndex(30449) < 109.0 && NoxIndex(25000) == 0.0
    ensures SelectColor(VocIndex(30449), NoxIndex(25000)) == Green
  {
    var buf: Response6 := [0x76, 0xF1, 0x00, 0x61, 0xA8, 0x00];
    assert FromBeBytes(buf[0], buf[1]) == 30449;
    assert FromBeBytes(buf[3], buf[4]) == 25000;
    ColorOnTicks(30449, 25000);
  }
}
