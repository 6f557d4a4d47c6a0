/**
 * The status LED (src/led.rs): the commands the tasks send it, and the two
 * board variants of the `Led` driver object.
 *
 * What the hardware does is recorded on the object's `timeline`: every frame
 * written to the WS2812 adapter (`Show`), every level driven on the GPIO pin
 * (`Level`) and every pause during which the LED holds what it shows (`Wait`).
 * The HSV-to-RGB conversion of the `smart_leds` library is not modelled: a
 * frame written from HSV is recorded as the HSV value handed to it.
 */
module Led {
  import opened Base

  /** `LedCommand`: a solid colour, or a blink with an optional period in milliseconds. */
  datatype LedCommand =
    | Solid(r: u8, g: u8, b: u8)
    | Blink(r: u8, g: u8, b: u8, periodMs: Option<u16>)

  /** A pixel value handed to the WS2812 adapter. */
  datatype Pixel =
    | Rgb(red: u8, green: u8, blue: u8)
    | Hsv(hue: u8, sat: u8, val: u8)

  const Black := Rgb(0, 0, 0)

  datatype LedEvent =
    | Show(pixel: Pixel)
    | Level(high: bool)
    | Wait(ms: nat)

  /** How long `cycle_color` pauses after setting the LED. */
  const CyclePauseMs := 500

  /** How far `set_color` advances the hue on each call that turns the LED on. */
  const HueStep := 15

  /** `Led<TX>` of the ESP32-C6 build: an optional WS2812 adapter and a hue counter. */
  class Ws2812Led {
    /** `ws2812.is_some()`. */
    var adapterPresent: bool
    var hue: u8
    var timeline: seq<LedEvent>
    /** The number of `set_color` calls that turned the LED on since construction. */
    ghost var onCalls: nat

    /** The hue counter wraps around: it is always 15 times the number of "on" calls, modulo 256. */
    ghost predicate Valid()
      reads this
    {
      hue == (HueStep * onCalls) % 256
    }

    /** `Led::new_ws2812`: the adapter is present and the hue starts at 0. */
    constructor NewWs2812()
      ensures Valid()
      ensures adapterPresent && hue == 0 && onCalls == 0 && timeline == []
    {
      adapterPresent := true;
      hue := 0;
      timeline := [];
      onCalls := 0;
    }

    /**
     * `set_color`: when on, show the current hue at full saturation with the
     * given brightness and then advance the hue by 15 (wrapping); when off,
     * show black and keep the hue. Without an adapter nothing happens.
     */
    method SetColor(brightness: u8)
      requires Valid()
      modifies this
      ensures Valid() && adapterPresent == old(adapterPresent)
      ensures !adapterPresent ==> hue == old(hue) && timeline == old(timeline) && onCalls == old(onCalls)
      ensures adapterPresent && brightness > 0 ==>
        && timeline == old(timeline) + [Show(Hsv(old(hue), 255, brightness))]
        && hue == (old(hue) + HueStep) % 256
        && onCalls == old(onCalls) + 1
      ensures adapterPresent && brightness == 0 ==>
        timeline == old(timeline) + [Show(Black)] && hue == old(hue) && onCalls == old(onCalls)
    {
      if adapterPresent {
        var px;
        if brightness > 0 {
          px := Hsv(hue, 255, brightness);
          hue := (hue + HueStep) % 256;
          onCalls := onCalls + 1;
          WrappingHue(old(onCalls));
        } else {
          px := Black;
        }
        timeline := timeline + [Show(px)];
      }
    }

    /** `set_color_rgb`: show exactly (r, g, b); the hue is never touched. */
    method SetColorRgb(r: u8, g: u8, b: u8)
      modifies this`timeline
      ensures adapterPresent ==> timeline == old(timeline) + [Show(Rgb(r, g, b))]
      ensures !adapterPresent ==> timeline == old(timeline)
    {
      if adapterPresent {
        timeline := timeline + [Show(Rgb(r, g, b))];
      }
    }

    /** `cycle_color`: `set_color(brightness)` when an adapter is present, then a 500 ms pause in any case. */
    method CycleColor(brightness: u8)
      requires Valid()
      modifies this
      ensures Valid() && adapterPresent == old(adapterPresent)
      ensures onCalls == old(onCalls) + (if adapterPresent && brightness > 0 then 1 else 0)
      ensures !adapterPresent ==> hue == old(hue) && timeline == old(timeline) + [Wait(CyclePauseMs)]
      ensures adapterPresent && brightness > 0 ==>
        && timeline == old(timeline) + [Show(Hsv(old(hue), 255, brightness)), Wait(CyclePauseMs)]
        && hue == (old(hue) + HueStep) % 256
      ensures adapterPresent && brightness == 0 ==>
        timeline == old(timeline) + [Show(Black), Wait(CyclePauseMs)] && hue == old(hue)
    {
      if adapterPresent {
        if brightness > 0 {
          SetColor(brightness);
        } else {
          SetColor(0);
        }
      }
      timeline := timeline + [Wait(CyclePauseMs)];
    }
  }

  /** Advancing the hue by 15 modulo 256 keeps it equal to 15 times the call count modulo 256. */
  lemma WrappingHue(n: nat)
    ensures ((HueStep * n) % 256 + HueStep) % 256 == (HueStep * (n + 1)) % 256
  {
    var q := (HueStep * n) / 256;
    assert HueStep * n == 256 * q + (HueStep * n) % 256;
    assert HueStep * (n + 1) == 256 * q + ((HueStep * n) % 256 + HueStep);
  }

  /** `Led` of the ESP32-S3 build: an optional GPIO output pin. */
  class GpioLed {
    /** `gpio.is_some()`. */
    var pinPresent: bool
    var high: bool
    var timeline: seq<LedEvent>

    /** `Led::new_gpio(pin)` for a pin created at `initiallyHigh`. */
    constructor NewGpio(initiallyHigh: bool)
      ensures pinPresent && high == initiallyHigh && timeline == []
    {
      pinPresent := true;
      high := initiallyHigh;
      timeline := [];
    }

    /** `set_color`: drive the pin high exactly when the brightness is non-zero. */
    method SetColor(brightness: u8)
      modifies this
      ensures pinPresent == old(pinPresent)
      ensures pinPresent ==> high == (brightness > 0) && timeline == old(timeline) + [Level(brightness > 0)]
      ensures !pinPresent ==> high == old(high) && timeline == old(timeline)
    {
      if pinPresent {
        if brightness > 0 {
          high := true;
        } else {
          high := false;
        }
        timeline := timeline + [Level(high)];
      }
    }

    /** `cycle_color`: `set_color(brightness)` when a pin is present, then a 500 ms pause in any case. */
    method CycleColor(brightness: u8)
      modifies this
      ensures pinPresent == old(pinPresent)
      ensures pinPresent ==> high == (brightness > 0) && timeline == old(timeline) + [Level(brightness > 0), Wait(CyclePauseMs)]
      ensures !pinPresent ==> high == old(high) && timeline == old(timeline) + [Wait(CyclePauseMs)]
    {
      if pinPresent {
        if brightness > 0 {
          SetColor(brightness);
        } else {
          SetColor(0);
        }
      }
      timeline := timeline + [Wait(CyclePauseMs)];
    }
  }
}
