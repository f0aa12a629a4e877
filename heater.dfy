/** manageHeater: one pass of the heater regulation loop. It samples the
    regulator output and the low side of the heater, computes the dissipated
    power in 16/32-bit unsigned arithmetic and decides whether to cool down,
    heat up or hold. The actuation itself is not written in the firmware yet,
    so the observable outcome is the power and the branch taken. */
module Heater {
  import opened Board

  /** The main.h constants the body of manageHeater refers to. main.h is not
      part of this model, so their values are parameters. */
  datatype HeaterConstants = HeaterConstants(
    no2PowerAdc: byte,           // NO2_HEATER_POWER_ADC
    no2FeedbackAdc: byte,        // NO2_HEATER_FEEDBACK_ADC
    feedbackResistance: uint32,  // HEATER_FEEDBACK_RESISTANCE
    no2TargetPowerMw: uint32)    // NO2_HEATER_TARGET_POWER_MW
  {
    /** The power is divided by the feedback resistance. */
    predicate Valid() {
      feedbackResistance > 0
    }
  }

  /** The three branches of the comparison against the target power. */
  datatype Adjustment = CoolDown | HeatUp | Hold

  datatype HeaterStep = HeaterStep(powerMw: uint32, adjustment: Adjustment)

  /** The power formula exactly as the target evaluates it: `supply - feedback`
      is an `unsigned int` (16-bit on AVR) subtraction, both products are
      `uint32_t`/`unsigned long` products, the division is unsigned. */
  function PowerMw(supply: uint16, feedback: uint16, resistance: uint32): (p: uint32)
    requires resistance > 0
    ensures p * resistance < Two32
  {
    var difference := (supply - feedback) % Two16;
    var product := (difference * feedback) % Two32;
    var scaled := (1000 * product) % Two32;
    scaled / resistance
  }

  /** manageHeater(power_adc_num, feedback_adc_num, feedback_resistance,
      target_power_mw). Its body uses the NO2 constants throughout, so the four
      arguments do not influence the outcome. `analogRead` gives the ADC code
      of each channel at the time of the pass. */
  function ManageHeater(powerAdcNum: byte, feedbackAdcNum: byte, feedbackResistance: uint32,
                        targetPowerMw: uint32, k: HeaterConstants, analogRead: byte -> uint16): (r: HeaterStep)
    requires k.Valid()
    ensures r.powerMw == PowerMw(analogRead(k.no2PowerAdc), analogRead(k.no2FeedbackAdc), k.feedbackResistance)
    ensures r.adjustment == CoolDown <==> r.powerMw > k.no2TargetPowerMw
    ensures r.adjustment == HeatUp <==> r.powerMw < k.no2TargetPowerMw
    ensures r.adjustment == Hold <==> r.powerMw == k.no2TargetPowerMw
  {
    var supply := analogRead(k.no2PowerAdc);
    var feedback := analogRead(k.no2FeedbackAdc);
    var power := PowerMw(supply, feedback, k.feedbackResistance);
    if power > k.no2TargetPowerMw then HeaterStep(power, CoolDown)
    else if power < k.no2TargetPowerMw then HeaterStep(power, HeatUp)
    else HeaterStep(power, Hold)
  }

  /** Largest code of the 10-bit converter. */
  const AdcMax: nat := 1023

  /** a <= b and c >= 0 give a * c <= b * c. */
  lemma MulMonotone(a: int, b: int, c: int)
    requires a <= b && 0 <= c
    ensures a * c <= b * c
  {
    assert b * c - a * c == (b - a) * c;
  }

  lemma ModOfSmall(x: int, m: int)
    requires 0 <= x < m
    ensures x % m == x
  {
  }

  /** PowerMw step by step, given the value of each intermediate. */
  lemma PowerMwSteps(supply: uint16, feedback: uint16, resistance: uint32, d: int, x: int, y: int)
    requires resistance > 0
    requires d == (supply - feedback) % Two16
    requires x == (d * feedback) % Two32
    requires y == (1000 * x) % Two32
    ensures PowerMw(supply, feedback, resistance) == y / resistance
  {
  }

  /** With no voltage across the heater the computed power is zero. */
  lemma PowerZeroWhenEqual(v: uint16, resistance: uint32)
    requires resistance > 0
    ensures PowerMw(v, v, resistance) == 0
  {
    PowerMwSteps(v, v, resistance, 0, 0, 0);
  }

  /** While the supply reading is at least the feedback reading and the exact
      product fits in 32 bits, the firmware computes the exact integer quotient. */
  lemma PowerExact(supply: uint16, feedback: uint16, resistance: uint32)
    requires resistance > 0
    requires feedback <= supply
    requires 1000 * (supply - feedback) * feedback < Two32
    ensures PowerMw(supply, feedback, resistance) == 1000 * (supply - feedback) * feedback / resistance
  {
    var d := supply - feedback;
    var x := d * feedback;
    assert 1000 * d * feedback == 1000 * x;
    ModOfSmall(d, Two16);
    MulMonotone(1, 1000, x);
    ModOfSmall(x, Two32);
    ModOfSmall(1000 * x, Two32);
    PowerMwSteps(supply, feedback, resistance, d, x, 1000 * x);
  }

  /** For 10-bit readings with the supply at or above the feedback, the
      product never overflows 32 bits, so the power is always exact. */
  lemma PowerExactForTenBitReadings(supply: uint16, feedback: uint16, resistance: uint32)
    requires resistance > 0
    requires feedback <= supply <= AdcMax
    ensures 1000 * (supply - feedback) * feedback < Two32
    ensures PowerMw(supply, feedback, resistance) == 1000 * (supply - feedback) * feedback / resistance
  {
    var d := supply - feedback;
    MulMonotone(d, AdcMax, feedback);
    MulMonotone(feedback, AdcMax, AdcMax);
    assert d * feedback <= AdcMax * AdcMax;
    assert 1000 * (d * feedback) <= 1000 * (AdcMax * AdcMax);
    PowerExact(supply, feedback, resistance);
  }

  /** When the feedback reading is above the supply reading (a negative voltage
      across the heater), the 16-bit subtraction wraps: the firmware uses
      2^16 - (feedback - supply) as the voltage difference. */
  lemma PowerWrapsWhenFeedbackAbove(supply: uint16, feedback: uint16, resistance: uint32)
    requires resistance > 0
    requires supply < feedback <= AdcMax
    ensures PowerMw(supply, feedback, resistance)
            == (1000 * ((Two16 - (feedback - supply)) * feedback)) % Two32 / resistance
  {
    var d := Two16 - (feedback - supply);
    assert (supply - feedback) % Two16 == d;
    MulMonotone(d, Two16, feedback);
    MulMonotone(feedback, AdcMax, Two16);
    ModOfSmall(d * feedback, Two32);
    PowerMwSteps(supply, feedback, resistance, d, d * feedback, (1000 * (d * feedback)) % Two32);
  }

  /** The smallest such inversion already yields a large positive power. */
  lemma PowerOfInvertedReadings(resistance: uint32)
    requires resistance > 0
    ensures PowerMw(0, 1, resistance) == 65_535_000 / resistance
  {
    PowerWrapsWhenFeedbackAbove(0, 1, resistance);
  }

  /** The outcome is the same whatever arguments manageHeater is called with:
      the CO call in the main loop regulates on the NO2 channels too. */
  lemma ManageHeaterIgnoresArguments(p1: byte, f1: byte, r1: uint32, t1: uint32,
                                     p2: byte, f2: byte, r2: uint32, t2: uint32,
                                     k: HeaterConstants, analogRead: byte -> uint16)
    requires k.Valid()
    ensures ManageHeater(p1, f1, r1, t1, k, analogRead) == ManageHeater(p2, f2, r2, t2, k, analogRead)
  {
  }

  /** Equal readings give zero power, so the loop asks to heat up unless the
      target itself is zero, in which case it holds. */
  lemma ManageHeaterEqualReadings(p: byte, f: byte, r: uint32, t: uint32,
                                  k: HeaterConstants, analogRead: byte -> uint16)
    requires k.Valid()
    requires analogRead(k.no2PowerAdc) == analogRead(k.no2FeedbackAdc)
    ensures ManageHeater(p, f, r, t, k, analogRead).powerMw == 0
    ensures ManageHeater(p, f, r, t, k, analogRead).adjustment == (if k.no2TargetPowerMw == 0 then Hold else HeatUp)
  {
    PowerZeroWhenEqual(analogRead(k.no2PowerAdc), k.feedbackResistance);
  }
}
