# SGP41 air-quality firmware: a Dafny model

This project models the core of an ESP32 firmware that reads a Sensirion
SGP41 VOC/NOx sensor over I²C and shows the air quality on a status LED.
Three cooperating tasks make up the core:

- the **conditioning task** warms the sensor up. For `duration_secs` cycles it
  writes the conditioning command with a fixed 25 °C / 50 %RH compensation
  and reads the VOC word back. It shows red, then magenta each cycle, then
  green, and finally raises the `CONDITION_DONE` flag;
- the **measurement task** waits for that flag, polling every 100 ms. It then
  loops: write the measurement command, wait 50 ms and read six bytes. It
  decodes the big-endian VOC and NOx ticks, maps each to an index, picks a
  colour and sends a `Blink` to the LED task. A failed transfer costs a 1 s
  wait and a retry;
- the **LED task** renders each command it receives. A solid colour is one
  frame. A blink is a black frame, a pause of its period (300 ms by default),
  then the colour.

The model also covers the shared pieces:

- the SGP41 word checksum (CRC-8, polynomial 0x31, initial value 0xFF);
- `prepare_temp_hum_params`, which turns a temperature and a humidity into
  the six parameter bytes that follow each command;
- the two board variants of the LED driver: a WS2812 pixel with a rotating
  hue, and a plain GPIO pin.

Modules:

| module | file | models |
|---|---|---|
| `Base` | base.dfy | `u8`/`u16`, `Option`, `u16::from_be_bytes`, byte extraction, `copy_from_slice` on an array |
| `Sgp41` | sgp41.dfy | `calculate_crc`, `prepare_temp_hum_params` |
| `Led` | led.dfy | `LedCommand` and the `Led` driver: `Ws2812Led` and `GpioLed` classes whose `timeline` records frames, pin levels and pauses |
| `Events` | events.dfy | the observable effects of the sensor tasks and their projections |
| `Conditioning` | conditioning.dfy | `sgp41_conditioning_task` and the sensor constants |
| `Measurement` | measurement.dfy | `sgp41_measurement_task`: start gate, cycle, index and colour |
| `LedTask` | led_task.dfy | `led_task` |
| `Firmware` | firmware.dfy | how commands travel from the sensor tasks to the LED (src/bin/main.rs wiring) |

How the tasks are modelled:

- Each sensor task is a method that returns its trace, the sequence of its
  effects: bus writes and reads, sleeps, LED commands, samples handed to the
  gas-index algorithm, and the store of the done flag.
- The method is proved equal to a trace function, and the properties are
  proved about that function.
- Whatever a task learns from the outside world is an input. That covers
  whether each write succeeded, the bytes each read returned, and what each
  load of the flag saw.
- Each endless `loop` runs once per element of its input sequence.

## Model

| member | source | states |
|---|---|---|
| Base.FromBeBytes | src/tasks/sgp41_measurement.rs:58-59 | `u16::from_be_bytes([hi, lo])` is the word whose high byte is `hi` (it lies in `hi`'s block of 256 values) and whose low byte is `lo` (its offset in that block) |
| Base.WordRoundTrip | src/tasks/sgp41_measurement.rs:58-59 | joining two bytes with `u16::from_be_bytes` and splitting the word again gives the two bytes back |
| Base.HighByte | src/lib.rs:29 | `(v >> 8) as u8` brackets `v` between `b*256` and `(b+1)*256` |
| Base.LowByte | src/lib.rs:30 | `(v & 0xFF) as u8` differs from `v` by a multiple of 256 |
| Base.BytesRoundTrip | src/lib.rs:29-30 | splitting a word into its two bytes and joining them again gives the word back |
| Base.CopyFromSlice | src/tasks/conditioning.rs:41-42 | copying into `dst[start..start+len]` in place leaves the array as the old prefix, the source bytes, then the old suffix |
| Sgp41.Crc | src/lib.rs:7-20 | the checksum of no bytes is the initial value 0xFF |
| Sgp41.CalculateCrc | src/lib.rs:7-20 | the nested byte and bit loops on the 8-bit register compute the byte-wise fold `Crc` |
| Sgp41.CrcAppend | src/lib.rs:9-18 | checksumming `a ++ b` is checksumming `a` and then continuing from that register over `b` |
| Sgp41.UnrollByte | src/lib.rs:11-17 | the eight passes of the inner loop, written out |
| Sgp41.CrcOfWord | src/lib.rs:31 | the checksum of a two-byte word is two byte steps from 0xFF |
| Sgp41.CrcCheckVectors | src/lib.rs:7-20 | 0xBEEF gives 0x92 (the sensor's check value), 0x6666 gives 0x93 and 0x7FFF gives 0x8F |
| Sgp41.CrcResidueIsZero | src/lib.rs:7-20 | running the checksum over a message followed by its own checksum leaves the register at 0 |
| Sgp41.PackTicks | src/lib.rs:28-35 | six bytes; the humidity ticks decode big-endian from bytes 0-1 and the temperature ticks from bytes 3-4; bytes 2 and 5 are the checksums of their words |
| Sgp41.PackTicksInjective | src/lib.rs:28-35 | two packings are equal only when they carry the same humidity and temperature ticks |
| Sgp41.SaturatingTicks | src/lib.rs:25-26 | `as u16` truncates toward zero and saturates at 0 and 65535 |
| Sgp41.HumidityTicks | src/lib.rs:25 | 0 %RH and below give 0 ticks, 100 %RH and above give 65535, and in between the ticks are `humidity / 100 * 65535` rounded down |
| Sgp41.TemperatureTicks | src/lib.rs:26 | -45 °C and below give 0 ticks, 130 °C and above give 65535, and in between the ticks are `(temp + 45) / 175 * 65535` rounded down |
| Sgp41.TicksMonotonic | src/lib.rs:25-26 | a higher humidity or temperature never gives fewer ticks |
| Sgp41.SaturatingMonotonic | src/lib.rs:25-26 | the saturating truncation is monotonic |
| Sgp41.PrepareTempHumParams | src/lib.rs:23-36 | six bytes whose two words decode to the humidity and temperature tick conversions, each word followed by its checksum |
| Sgp41.DefaultTicks | src/lib.rs:25-26 | 50 %RH is 0x7FFF ticks and 25 °C is 0x6666 ticks |
| Sgp41.DefaultCompensation | src/tasks/conditioning.rs:39 | `prepare_temp_hum_params(25.0, 50.0)` is 7F FF 8F 66 66 93 |
| Led.Ws2812Led.NewWs2812 | src/led.rs:50-60 | the adapter is present, the hue starts at 0 and nothing has been shown |
| Led.Ws2812Led.SetColor | src/led.rs:97-116 | when on, shows the current hue at full saturation and the given brightness, then advances the hue by 15 modulo 256; when off, shows black and keeps the hue; without an adapter, does nothing; the hue stays 15 times the number of "on" calls modulo 256 |
| Led.Ws2812Led.SetColorRgb | src/led.rs:118-123 | shows exactly (r, g, b) when an adapter is present and nothing otherwise; the hue is untouched |
| Led.Ws2812Led.CycleColor | src/led.rs:127-138 | `set_color` when an adapter is present, then a 500 ms pause either way; the count of "on" calls goes up by one exactly when an adapter is present and the brightness is non-zero, so the hue invariant carries through |
| Led.WrappingHue | src/led.rs:108 | advancing the hue with `wrapping_add(15)` keeps it equal to 15 times the call count modulo 256 |
| Led.GpioLed.NewGpio | src/led.rs:37-41 | the pin is present and nothing has been driven |
| Led.GpioLed.SetColor | src/led.rs:66-74 | drives the pin high exactly when the brightness is non-zero; without a pin, nothing changes |
| Led.GpioLed.CycleColor | src/led.rs:77-88 | sets the pin when present, then pauses 500 ms either way |
| Conditioning.ConditioningFrame | src/tasks/conditioning.rs:39-42 | eight bytes that start with the conditioning command 0x26 0x12 |
| Conditioning.ConditioningFrameLayout | src/tasks/conditioning.rs:39-42 | the frame is the command followed by `prepare_temp_hum_params(25.0, 50.0)` |
| Conditioning.BuildFrame | src/tasks/conditioning.rs:39-42 | assembling the command and the parameters in an eight-byte array gives the command followed by the default compensation |
| Conditioning.CycleTrace | src/tasks/conditioning.rs:37-64 | a cycle has six effects when the read succeeded and five otherwise, starting with the write and ending with the 1 s wait |
| Conditioning.CycleEffects | src/tasks/conditioning.rs:36-65 | each cycle writes and reads once, sends one magenta command, never stores the flag, sleeps 1050 ms and hands the algorithm the big-endian VOC word exactly when the read succeeded |
| Conditioning.ConditioningTrace | src/tasks/conditioning.rs:25-72 | the run starts with the red command and ends with the flag store, with all the cycles and the green command in between |
| Conditioning.ConditioningTask | src/tasks/conditioning.rs:25-72 | the task's loop over `1..=duration_secs` produces exactly `ConditioningTrace` |
| Conditioning.RunCycles | src/tasks/conditioning.rs:36-65 | the `for i in 1..=duration_secs` loop produces one cycle's effects per bus outcome, in order |
| Conditioning.ConditioningCycle | src/tasks/conditioning.rs:37-64 | one pass of the `for` body, with its frame, buffer and decoding, produces exactly `CycleTrace` |
| Conditioning.CyclesProjections | src/tasks/conditioning.rs:36-65 | n cycles make 2n bus transfers, send n magenta commands, sleep 1050·n ms, store no flag and sample exactly the successful reads |
| Conditioning.ConditioningEffects | src/tasks/conditioning.rs:34-67 | a run sends red, one magenta per second, then green; it makes two transfers per second and sleeps 1050 ms per second, whatever failed |
| Conditioning.DoneStoredOnceAtEnd | src/tasks/conditioning.rs:67-70 | the done flag is stored exactly once, as the last effect of the run |
| Conditioning.CyclesWriteConditioningFrame | src/tasks/conditioning.rs:44 | every write of the run is the conditioning frame to address 0x59 |
| Conditioning.WriteResultIgnored | src/tasks/conditioning.rs:44-46 | whether a write failed never changes what the task does |
| Measurement.MeasureFrame | src/tasks/sgp41_measurement.rs:34-38 | eight bytes that start with the measurement command 0x26 0x19 |
| Measurement.MeasureFrameLayout | src/tasks/sgp41_measurement.rs:34-38 | the frame is the command followed by `prepare_temp_hum_params(25.0, 50.0)` |
| Measurement.Index | src/tasks/sgp41_measurement.rs:65-66 | the index is never negative; it is positive exactly when the reading exceeds the offset, and then it times the scale gives the reading minus the offset |
| Measurement.SelectColor | src/tasks/sgp41_measurement.rs:72-85 | the source's decision on the indices: red iff NOx index ≤ 30 and VOC index > 180; yellow iff NOx index ≤ 30 and 120 < VOC index ≤ 180; green iff NOx index > 30 or VOC index ≤ 120 |
| Measurement.TicksColor | src/tasks/sgp41_measurement.rs:72-85 | the same three cases on raw ticks: red iff NOx ≤ 26500 and VOC > 34000; yellow iff NOx ≤ 26500 and 31000 < VOC ≤ 34000; green iff NOx > 26500 or VOC ≤ 31000 |
| Measurement.ResponseColor | src/tasks/sgp41_measurement.rs:58-85 | the colour of a six-byte response is the source's index decision on the big-endian words at offsets 0 and 3 |
| Measurement.IndexThresholds | src/tasks/sgp41_measurement.rs:65-85 | VOC index > 180 iff raw > 34000, VOC index > 120 iff raw > 31000, NOx index > 30 iff raw > 26500 |
| Measurement.ColorOnTicks | src/tasks/sgp41_measurement.rs:71-85 | the colour chosen on indices equals the colour chosen on integer tick thresholds, for every reading |
| Measurement.SeverityMonotoneInVoc | src/tasks/sgp41_measurement.rs:71-79 | while NOx is not high, a higher VOC reading never shows a less alarming colour |
| Measurement.NoxOverrideShowsCleanAirColour | src/tasks/sgp41_measurement.rs:81-85 | a NOx index above 30 shows green (0,30,0), the same colour as clean air, whatever the VOC |
| Measurement.CycleTrace | src/tasks/sgp41_measurement.rs:40-89 | a cycle has two effects after a failed write, four after a failed read and five after a good read, always the write first and a wait last |
| Measurement.CycleShape | src/tasks/sgp41_measurement.rs:40-89 | a failed write gives only the write and a 1 s sleep; otherwise a 50 ms wait and a six-byte read follow; a failed read sends nothing and ends with a 1 s sleep; a good read sends a blink of the chosen colour and sleeps 2 s |
| Measurement.Polls | src/tasks/sgp41_measurement.rs:20-22 | the number of leading false loads: every load before it saw false and the load at it saw true |
| Measurement.WaitForConditioning | src/tasks/sgp41_measurement.rs:20-22 | the gate opens iff some load saw the flag set; it sleeps 100 ms once per false load before the first true one |
| Measurement.MeasurementTask | src/tasks/sgp41_measurement.rs:14-90 | the task produces the polling sleeps and then one cycle per bus outcome, exactly `MeasurementTrace` |
| Measurement.RunCycles | src/tasks/sgp41_measurement.rs:32-90 | the endless `loop`, bounded by its inputs, produces one cycle's effects per bus outcome, in order |
| Measurement.MeasurementCycle | src/tasks/sgp41_measurement.rs:33-89 | one pass of the loop, with its buffer, decoding and index-based colour reassignment, produces exactly `CycleTrace`, whose colour is decided on ticks |
| Measurement.CycleSends | src/tasks/sgp41_measurement.rs:41-88 | a cycle sends one blink exactly when both transfers succeeded; it makes one bus transfer when the write failed and two otherwise |
| Measurement.Blinks | src/tasks/sgp41_measurement.rs:88 | at most one command per cycle, and every one a blink with no period |
| Measurement.CyclesSendBlinks | src/tasks/sgp41_measurement.rs:32-90 | over a run, the task sends exactly the blinks of the successful cycles, in order |
| Measurement.WriteFailureSkipsOnlyItsCycle | src/tasks/sgp41_measurement.rs:41-45 | a failed write costs one write and a 1 s wait, and the cycles around it run unchanged |
| Measurement.ChecksumBytesIgnored | src/tasks/sgp41_measurement.rs:58-59 | bytes 2 and 5 of the response never change what a cycle does |
| Measurement.NothingBeforeConditioningDone | src/tasks/sgp41_measurement.rs:20-22 | no bus transfer and no LED command happen before the flag is seen set; until then there is only a 100 ms sleep per load |
| Measurement.LowVocScenario | src/tasks/sgp41_measurement.rs:58-89 | VOC 30449 ticks (index between 108 and 109) with NOx 25000 ticks (index 0) selects green, and the full cycle ends in a green blink and a 2 s sleep |
| LedTask.PeriodMs | src/tasks/led.rs:27 | the given period, or 300 ms when the command gives none |
| LedTask.CommandTimeline | src/tasks/led.rs:21-36 | with an adapter, handling a command ends on the command's colour; without one, it leaves only a blink's pause |
| LedTask.CommandEffects | src/tasks/led.rs:21-36 | with an adapter, a solid shows its colour once and a blink shows black then its colour; without one, nothing is shown; only a blink pauses, for its period |
| LedTask.TaskEffects | src/tasks/led.rs:18-38 | with an adapter, the task writes one frame per command plus one per blink, and none without an adapter; it pauses exactly for the blink periods |
| LedTask.LastCommandWins | src/tasks/led.rs:18-38 | after any sequence of commands the LED shows the colour of the last one |
| LedTask.BlinkPassesThroughBlack | src/tasks/led.rs:33-35 | a blink writes exactly two frames, black first |
| LedTask.Pause | src/tasks/led.rs:34 | a timer wait appends exactly one pause to the timeline |
| LedTask.HandleCommand | src/tasks/led.rs:21-36 | handling one command appends `CommandTimeline` to the LED's timeline |
| LedTask.LedTaskLoop | src/tasks/led.rs:14-39 | handling the received commands in order appends `TaskTimeline` to the timeline, and touches nothing else of the LED |
| Firmware.SleepsSendNothing | src/tasks/sgp41_measurement.rs:20-22 | the polling sleeps send no LED command |
| Firmware.MeasurementSends | src/tasks/sgp41_measurement.rs:20-88 | the measurement task sends exactly the blinks of its successful cycles once started, and nothing if never started |
| Firmware.BlinksUseDefaultPeriod | src/tasks/sgp41_measurement.rs:88 | every command the measurement task sends is a blink without a period, so the LED task pauses 300 ms for each of them |
| Firmware.ConditioningLeavesLedGreen | src/tasks/conditioning.rs:67 | after a conditioning run the LED shows (0, 30, 0) |
| Firmware.MeasurementLedColour | src/tasks/sgp41_measurement.rs:88-89 | once measuring, the LED writes two frames per blink, ends on the last successful cycle's colour and spends 300 ms dark per blink |

## Left out

- Concurrency is not modelled. That covers the embassy executor, the
  interleaving of the three tasks, the bus mutex, and the four-slot channel
  with its back-pressure. Each task is modelled as one sequential run over its
  inputs. The channel becomes the sequence of commands a task sends, or the
  LED task receives.
- The atomic `CONDITION_DONE` flag is not shared state in the model. The
  conditioning trace records the store, and the measurement task takes the
  values its loads saw as an input.
- The endless `loop`s are bounded by the length of their input sequences.
- Floating point is not modelled: the model computes on exact reals.
  - `Measurement.Index`: the model divides exactly. `raw - 25000` is exact in
    f32, and the f32 rounding of the division cannot move a quotient across
    180, 120 or 30. So the colour decision, which is all the index is used
    for, is the same (`Measurement.IndexThresholds`).
  - `Sgp41.SaturatingTicks`, `Sgp41.HumidityTicks` and
    `Sgp41.TemperatureTicks`: for some inputs, f32 rounding can make these
    differ by one tick from the exact real value. The 25 °C / 50 %RH values
    the firmware sends give the same ticks under both.
  - NaN inputs, which Rust's `as u16` maps to 0, are not modelled.
- The VOC gas-index algorithm (`GasIndexAlgorithm::process`) is a foreign
  library whose result is only logged. The model records the sample handed to
  it and nothing else.
- `defmt` logging is not modelled.
- The HSV-to-RGB conversion of `smart_leds` is not modelled: a frame written
  from HSV is recorded as the HSV value. Frames are recorded as the RGB or HSV
  value handed to the adapter, not as RMT pulses.
- Driver write errors are ignored by the source and are not modelled.
- The `Led` objects are built only with the device present. `ws2812` or
  `gpio` being `None` is part of the state, and every method handles it, but
  no constructor produces it, because the source has none.
- The 3-byte and 6-byte responses' checksums are never checked by the
  source, and not by the model either (`Measurement.ChecksumBytesIgnored`).
- src/hal.rs (the I²C adapter) and the hardware set-up in src/bin/main.rs are
  not part of this model. In src/bin/main.rs:150, `sgp41_conditioning_task`
  is spawned with three arguments while src/tasks/conditioning.rs:25-30
  declares four. The model follows the task's own definition.
- Three facts about the colour decision and its timing, as the code has them:
  - the VOC colour has three tiers, cut at 180 and 120;
  - the NOx override sets green (0, 30, 0), the clean-air colour
    (`Measurement.NoxOverrideShowsCleanAirColour`);
  - a successful cycle then waits 2 s.
- The source's comment at src/tasks/sgp41_measurement.rs:28 expects about 104
  for a raw reading near 30449. Its own constants give (30449 − 25000) / 50 ≈
  109. That is a comment, not behaviour; the model uses the constants.
