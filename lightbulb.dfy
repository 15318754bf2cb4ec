/** The duty the HomeKit lightbulb callbacks of main/main.c hand to
    multipwm_set_duty for channel 0: brightness in percent scaled to the
    16-bit PWM period, or 0 when the light is switched off. */
module Lightbulb {

  datatype Option<T> = None | Some(value: T)

  /** PWM_PERIOD: UINT16_MAX counts. */
  const PwmPeriod: int := 65535

  /** The value a characteristic callback receives: a bool, an int, or a
      value of some other format. */
  datatype Value = BoolValue(b: bool) | IntValue(i: int) | OtherValue(format: nat)

  /** C's `/` on int: the quotient truncated toward zero. */
  function CDiv(a: int, d: int): (q: int)
    requires d > 0
    ensures a >= 0 ==> q * d <= a < q * d + d
    ensures a < 0 ==> q * d - d < a <= q * d
  {
    if a >= 0 then a / d else -((-a) / d)
  }

  /** The conversion to the uint16_t parameter of multipwm_set_duty. */
  function ToU16(x: int): (r: nat)
    ensures r < 65536
    ensures 0 <= x < 65536 ==> r == x
    ensures (r - x) % 65536 == 0
  {
    x % 65536
  }

  /** `b * PWM_PERIOD / 100` in int arithmetic. */
  function Duty(b: int): (d: int)
    ensures b >= 0 ==> d * 100 <= b * PwmPeriod < d * 100 + 100
  {
    CDiv(b * PwmPeriod, 100)
  }

  /** The ends of the brightness range map to the ends of the PWM range. */
  lemma DutyEnds()
    ensures Duty(0) == 0 && Duty(100) == PwmPeriod
  {
  }

  /** Over brightness 0 to 100 the duty is monotone and fits in 16 bits. */
  lemma DutyMonotone(a: int, b: int)
    requires 0 <= a <= b <= 100
    ensures 0 <= Duty(a) <= Duty(b) <= PwmPeriod
  {
    assert a * PwmPeriod <= b * PwmPeriod;
    assert b * PwmPeriod <= 100 * PwmPeriod;
    var da, db := Duty(a), Duty(b);
    assert da * 100 <= a * PwmPeriod < da * 100 + 100;
    assert db * 100 <= b * PwmPeriod < db * 100 + 100;
  }

  /** lightbulb_brightness_callback: nothing for a value that is not an
      int, otherwise the duty for that brightness. */
  function BrightnessDuty(v: Value): (r: Option<nat>)
    ensures r.Some? <==> v.IntValue?
  {
    if v.IntValue? then Some(ToU16(Duty(v.i))) else None
  }

  /** A brightness in range reaches multipwm_set_duty unchanged by the
      16-bit conversion. */
  lemma BrightnessInRange(b: int)
    requires 0 <= b <= 100
    ensures BrightnessDuty(IntValue(b)) == Some(Duty(b))
  {
    DutyMonotone(b, b);
  }

  /** lightbulb_on_callback with the brightness characteristic holding
      `brightness`: nothing for a value that is not a bool, 0 when
      switched off, the brightness duty when switched on. */
  function OnDuty(v: Value, brightness: int): (r: Option<nat>)
    ensures r.Some? <==> v.BoolValue?
    ensures v == BoolValue(false) ==> r == Some(0)
    ensures v == BoolValue(true) ==> r == BrightnessDuty(IntValue(brightness))
  {
    if !v.BoolValue? then None
    else if v.b then Some(ToU16(Duty(brightness)))
    else Some(0)
  }

  /** Switching on at full brightness sets the full period, and off sets 0. */
  lemma OnOff()
    ensures OnDuty(BoolValue(true), 100) == Some(PwmPeriod as nat)
    ensures OnDuty(BoolValue(false), 100) == Some(0)
  {
    DutyEnds();
  }
}
