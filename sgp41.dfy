/**
 * The SGP41 word checksum and the compensation parameters that follow every
 * conditioning and measurement command (src/lib.rs).
 *
 * The checksum is Sensirion's CRC-8: polynomial 0x31, initial value 0xFF,
 * most significant bit first, no final XOR (the CRC-8/NRSC-5 parameter set).
 * The register is a `bv8`, so that `crc << 1` drops the top bit exactly as a
 * Rust `u8` shift does.
 */
module Sgp41 {
  import opened Base

  const CrcInit: bv8 := 0xFF
  const CrcPolynomial: bv8 := 0x31

  /** One pass of the inner loop: shift left, folding the polynomial in when the MSB was set. */
  function BitStep(crc: bv8): bv8 {
    if crc & 0x80 != 0 then (crc << 1) ^ CrcPolynomial else crc << 1
  }

  /** `n` passes of the inner loop. */
  function BitSteps(crc: bv8, n: nat): bv8 {
    if n == 0 then crc else BitStep(BitSteps(crc, n - 1))
  }

  /** One pass of the outer loop: XOR the byte in, then exactly eight bit steps. */
  function ByteStep(crc: bv8, b: u8): bv8 {
    BitSteps(crc ^ (b as bv8), 8)
  }

  /** The register after feeding `data` to a register that holds `crc`: a left fold of ByteStep. */
  function CrcFrom(crc: bv8, data: seq<u8>): bv8
    decreases |data|
  {
    if data == [] then crc else CrcFrom(ByteStep(crc, data[0]), data[1..])
  }

  /** The value `calculate_crc(data)` returns. */
  function Crc(data: seq<u8>): (r: u8)
    ensures data == [] ==> r == 0xFF
  {
    CrcFrom(CrcInit, data) as int
  }

  /** `calculate_crc`: a byte loop with a nested eight-step bit loop over one register. */
  method CalculateCrc(data: seq<u8>) returns (r: u8)
    ensures r == Crc(data)
  {
    var crc: bv8 := 0xFF;
    for i := 0 to |data|
      invariant crc == CrcFrom(CrcInit, data[..i])
    {
      crc := crc ^ (data[i] as bv8);
      ghost var start := crc;
      for j := 0 to 8
        invariant crc == BitSteps(start, j)
      {
        if crc & 0x80 != 0 {
          crc := (crc << 1) ^ 0x31;
        } else {
          crc := crc << 1;
        }
      }
      CrcAppend(CrcInit, data[..i], [data[i]]);
      assert data[..i + 1] == data[..i] + [data[i]];
    }
    assert data[..|data|] == data;
    r := crc as int;
  }

  /** Feeding `a ++ b` is feeding `a`, then continuing from that register over `b`. */
  lemma {:induction false} CrcAppend(crc: bv8, a: seq<u8>, b: seq<u8>)
    ensures CrcFrom(crc, a + b) == CrcFrom(CrcFrom(crc, a), b)
    decreases |a|
  {
    if a != [] {
      assert (a + b)[1..] == a[1..] + b;
      CrcAppend(ByteStep(crc, a[0]), a[1..], b);
    } else {
      assert a + b == b;
    }
  }

  /** The eight bit steps of one byte, written out. */
  lemma UnrollByte(x: bv8)
    ensures BitSteps(x, 8) == BitStep(BitStep(BitStep(BitStep(BitStep(BitStep(BitStep(BitStep(x))))))))
  {
    assert BitSteps(x, 8) == BitStep(BitSteps(x, 7));
    assert BitSteps(x, 7) == BitStep(BitSteps(x, 6));
    assert BitSteps(x, 6) == BitStep(BitSteps(x, 5));
    assert BitSteps(x, 5) == BitStep(BitSteps(x, 4));
    assert BitSteps(x, 4) == BitStep(BitSteps(x, 3));
    assert BitSteps(x, 3) == BitStep(BitSteps(x, 2));
    assert BitSteps(x, 2) == BitStep(BitSteps(x, 1));
    assert BitSteps(x, 1) == BitStep(x);
  }

  /** The checksum of a two-byte word, byte by byte. */
  lemma CrcOfWord(hi: u8, lo: u8)
    ensures Crc([hi, lo]) == ByteStep(ByteStep(CrcInit, hi), lo) as int
  {
    var w: seq<u8> := [hi, lo];
    assert w[1..] == [lo] && w[1..][1..] == [];
    assert CrcFrom(CrcInit, w) == CrcFrom(ByteStep(CrcInit, hi), [lo]);
    assert CrcFrom(ByteStep(CrcInit, hi), [lo]) == CrcFrom(ByteStep(ByteStep(CrcInit, hi), lo), []);
  }

  /**
   * The datasheet's check value 0xBEEF -> 0x92, and 0x6666 -> 0x93 (the
   * checksum of the default temperature word).
   */
  lemma CrcCheckVectors()
    ensures Crc([0xBE, 0xEF]) == 0x92
    ensures Crc([0x66, 0x66]) == 0x93
    ensures Crc([0x7F, 0xFF]) == 0x8F
  {
    UnrollByte(0xFF ^ 0xBE);
    UnrollByte(0x0C ^ 0xEF);
    CrcOfWord(0xBE, 0xEF);
    UnrollByte(0xFF ^ 0x66);
    UnrollByte(0xB1 ^ 0x66);
    CrcOfWord(0x66, 0x66);
    UnrollByte(0xFF ^ 0x7F);
    UnrollByte(0x7A ^ 0xFF);
    CrcOfWord(0x7F, 0xFF);
  }

  /**
   * With no final XOR, running the checksum over a word followed by its own
   * checksum leaves the register at zero.
   */
  lemma CrcResidueIsZero(data: seq<u8>)
    ensures CrcFrom(CrcInit, data + [Crc(data)]) == 0
  {
    var c := CrcFrom(CrcInit, data);
    CrcAppend(CrcInit, data, [Crc(data)]);
    var tail: seq<u8> := [c as int];
    assert tail[1..] == [];
    assert CrcFrom(c, tail) == ByteStep(c, c as int);
    ByteStepOwnValue(c);
  }

  /** Feeding the register its own value clears it. */
  lemma ByteStepOwnValue(c: bv8)
    ensures ByteStep(c, c as int) == 0
  {
    XorOwnByte(c);
    ZeroStaysZero();
  }

  lemma ZeroStaysZero()
    ensures BitSteps(0, 8) == 0
  {
    UnrollByte(0);
  }

  lemma XorOwnByte(c: bv8)
    ensures c ^ ((c as int) as bv8) == 0
  {
    RoundTrip(c);
  }

  lemma RoundTrip(c: bv8)
    ensures (c as int) as bv8 == c
  {
  }

  /** A three-byte group `[hi, lo, crc]` whose third byte is the checksum of the first two. */
  predicate WordChecksumMatches(group: seq<u8>)
    requires |group| == 3
  {
    Crc(group[..2]) == group[2]
  }

  /**
   * `prepare_temp_hum_params` on ticks: the humidity word, its checksum,
   * the temperature word, its checksum.
   */
  function PackTicks(humidityTicks: u16, tempTicks: u16): (out: seq<u8>)
    ensures |out| == 6
    ensures FromBeBytes(out[0], out[1]) == humidityTicks
    ensures FromBeBytes(out[3], out[4]) == tempTicks
    ensures WordChecksumMatches(out[0..3]) && WordChecksumMatches(out[3..6])
  {
    var out := [
      HighByte(humidityTicks),
      LowByte(humidityTicks),
      Crc([HighByte(humidityTicks), LowByte(humidityTicks)]),
      HighByte(tempTicks),
      LowByte(tempTicks),
      Crc([HighByte(tempTicks), LowByte(tempTicks)])
    ];
    BytesRoundTrip(humidityTicks);
    BytesRoundTrip(tempTicks);
    assert out[0..3] == [HighByte(humidityTicks), LowByte(humidityTicks), out[2]];
    assert out[0..3][..2] == [HighByte(humidityTicks), LowByte(humidityTicks)];
    assert out[3..6] == [HighByte(tempTicks), LowByte(tempTicks), out[5]];
    assert out[3..6][..2] == [HighByte(tempTicks), LowByte(tempTicks)];
    out
  }

  /** Two packings are equal only when they carry the same ticks. */
  lemma PackTicksInjective(h1: u16, t1: u16, h2: u16, t2: u16)
    requires PackTicks(h1, t1) == PackTicks(h2, t2)
    ensures h1 == h2 && t1 == t2
  {
    var p := PackTicks(h1, t1);
    assert FromBeBytes(p[0], p[1]) == h1 && FromBeBytes(p[0], p[1]) == h2;
  }

  /**
   * A Rust `f32 as u16` cast on the exact real value: truncation toward zero,
   * saturating at both ends of the range.
   */
  function SaturatingTicks(x: real): (t: u16)
    ensures x <= 0.0 ==> t == 0
    ensures x >= 65535.0 ==> t == 65535
    ensures 0.0 <= x < 65535.0 ==> t as real <= x < t as real + 1.0
  {
    if x <= 0.0 then 0 else if x >= 65535.0 then 65535 else x.Floor
  }

  /**
   * `((humidity_percent / 100.0) * 65535.0) as u16`: 0 %RH and below give 0,
   * 100 %RH and above give 65535, and in between the ticks are the scaled
   * value rounded down.
   */
  function HumidityTicks(humidityPercent: real): (t: u16)
    ensures humidityPercent <= 0.0 ==> t == 0
    ensures humidityPercent >= 100.0 ==> t == 65535
    ensures 0.0 <= humidityPercent < 100.0 ==>
      t as real <= humidityPercent / 100.0 * 65535.0 < t as real + 1.0
  {
    SaturatingTicks(humidityPercent / 100.0 * 65535.0)
  }

  /**
   * `(((temp_celsius + 45.0) / 175.0) * 65535.0) as u16`: -45 °C and below
   * give 0, 130 °C and above give 65535, and in between the ticks are the
   * scaled value rounded down.
   */
  function TemperatureTicks(tempCelsius: real): (t: u16)
    ensures tempCelsius <= -45.0 ==> t == 0
    ensures tempCelsius >= 130.0 ==> t == 65535
    ensures -45.0 <= tempCelsius < 130.0 ==>
      t as real <= (tempCelsius + 45.0) / 175.0 * 65535.0 < t as real + 1.0
  {
    SaturatingTicks((tempCelsius + 45.0) / 175.0 * 65535.0)
  }

  /** Both conversions grow with their input. */
  lemma TicksMonotonic(a: real, b: real)
    requires a <= b
    ensures HumidityTicks(a) <= HumidityTicks(b)
    ensures TemperatureTicks(a) <= TemperatureTicks(b)
  {
    SaturatingMonotonic(a / 100.0 * 65535.0, b / 100.0 * 65535.0);
    SaturatingMonotonic((a + 45.0) / 175.0 * 65535.0, (b + 45.0) / 175.0 * 65535.0);
  }

  lemma SaturatingMonotonic(x: real, y: real)
    requires x <= y
    ensures SaturatingTicks(x) <= SaturatingTicks(y)
  {
  }

  /** `prepare_temp_hum_params(temp_celsius, humidity_percent)`. */
  function PrepareTempHumParams(tempCelsius: real, humidityPercent: real): (out: seq<u8>)
    ensures |out| == 6
    ensures FromBeBytes(out[0], out[1]) == HumidityTicks(humidityPercent)
    ensures FromBeBytes(out[3], out[4]) == TemperatureTicks(tempCelsius)
    ensures WordChecksumMatches(out[0..3]) && WordChecksumMatches(out[3..6])
  {
    PackTicks(HumidityTicks(humidityPercent), TemperatureTicks(tempCelsius))
  }

  /** The six bytes of `prepare_temp_hum_params(25.0, 50.0)`, the compensation both tasks send. */
  const DefaultParams: seq<u8> := [0x7F, 0xFF, 0x8F, 0x66, 0x66, 0x93]

  /** 25 °C and 50 %RH, as ticks and as bytes on the wire. */
  lemma DefaultCompensation()
    ensures HumidityTicks(50.0) == 0x7FFF
    ensures TemperatureTicks(25.0) == 0x6666
    ensures PrepareTempHumParams(25.0, 50.0) == DefaultParams
  {
    DefaultTicks();
    CrcCheckVectors();
    assert HighByte(0x7FFF) == 0x7F && LowByte(0x7FFF) == 0xFF;
    assert HighByte(0x6666) == 0x66 && LowByte(0x6666) == 0x66;
  }

  lemma DefaultTicks()
    ensures HumidityTicks(50.0) == 0x7FFF
    ensures TemperatureTicks(25.0) == 0x6666
  {
    assert 50.0 / 100.0 * 65535.0 == 32767.5;
    assert (32767.5).Floor == 32767;
    assert (25.0 + 45.0) / 175.0 * 65535.0 == 26214.0;
  }
}
