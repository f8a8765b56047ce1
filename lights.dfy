/**
 * The per-LED light computation of the light controller firmware: the
 * light-switch position, the value each car-light function contributes to
 * an LED, how those values are mixed, the weak-ground simulation, the slew
 * limiting that turns setpoints into actual outputs, and the byte protocol a
 * slave controller receives its 16 LED values by.
 *
 * The firmware keeps the switch position, the setpoint/actual/limit arrays
 * and the slave receiver state in globals; they are the fields of
 * LightController. The global flags (braking, indicators, blinking) are set
 * elsewhere in the firmware and are a parameter here. Functions that write
 * their result through an LED_T out-parameter return the new value instead.
 */
module Lights {
  import opened Wrappers
  import opened Layout

  /** 16 lights driven locally, another 16 possibly at a slave. */
  const MAX_LIGHTS: int := 32
  /** Number of LED values in one slave frame; slave lights start here. */
  const SLAVE_LIGHTS: int := 16
  /** The first byte of every frame sent to a slave, and only that byte. */
  const SLAVE_MAGIC_BYTE: Byte := 0x87

  // CAR_LIGHT_FUNCTION_T
  const ALWAYS_ON: int := 0
  const LIGHT_SWITCH_POSITION: int := 1
  const TAIL_LIGHT: int := LIGHT_SWITCH_POSITION + LIGHT_SWITCH_POSITIONS
  const BRAKE_LIGHT: int := TAIL_LIGHT + 1
  const REVERSING_LIGHT: int := TAIL_LIGHT + 2
  const INDICATOR_LEFT: int := TAIL_LIGHT + 3
  const INDICATOR_RIGHT: int := TAIL_LIGHT + 4

  /** The members of GLOBAL_FLAGS_T the light computation reads. */
  datatype GlobalFlags = GlobalFlags(
    blinkFlag: bool,
    blinkHazard: bool,
    blinkIndicatorLeft: bool,
    blinkIndicatorRight: bool,
    braking: bool,
    reversing: bool)

  // ---------------------------------------------------------------------
  // Light switch

  /** light_switch_up: one position up while below the top position
      `positions - 1`; the 8-bit position wraps past 255. */
  function SwitchUp(pos: Byte, positions: U16): (r: Byte)
    ensures r == pos || r == (pos + 1) % 256
    ensures r != pos <==> pos + 1 < positions
  {
    if pos < positions - 1 then (pos + 1) % 256 else pos
  }

  /** light_switch_down: one position down while above 0. */
  function SwitchDown(pos: Byte): (r: Byte)
    ensures r <= pos && pos - r <= 1
    ensures r == pos <==> pos == 0
  {
    if pos > 0 then pos - 1 else pos
  }

  /** toggle_light_switch: to the top position when below it, otherwise to 0
      (the top position truncated to 8 bits). */
  function SwitchToggle(pos: Byte, positions: U16): (r: Byte)
    ensures r == 0 || r == (positions - 1) % 256
    ensures positions <= pos + 1 ==> r == 0
    ensures 1 <= positions <= 256 ==> r < positions
  {
    if pos < positions - 1 then (positions - 1) % 256 else 0
  }

  /** With between 1 and 256 configured positions, every switch operation
      keeps the position inside 0 .. positions - 1. */
  lemma SwitchKeepsRange(pos: Byte, positions: U16)
    requires 1 <= positions <= 256 && pos < positions
    ensures SwitchUp(pos, positions) < positions
    ensures SwitchDown(pos) < positions
    ensures SwitchToggle(pos, positions) < positions
  {
  }

  /** Up moves one step exactly when below the top, and down undoes it;
      down from a position above 0 is undone by up. */
  lemma SwitchUpDown(pos: Byte, positions: U16)
    requires 1 <= positions <= 256 && pos < positions
    ensures SwitchUp(pos, positions) == pos + 1 <==> pos < positions - 1
    ensures pos < positions - 1 ==> SwitchDown(SwitchUp(pos, positions)) == pos
    ensures pos > 0 ==> SwitchUp(SwitchDown(pos), positions) == pos
  {
  }

  /** Toggling from below the top jumps to the top, and toggling again
      returns to 0. */
  lemma ToggleTwice(pos: Byte, positions: U16)
    requires 2 <= positions <= 256 && pos < positions - 1
    ensures SwitchToggle(pos, positions) == positions - 1
    ensures SwitchToggle(SwitchToggle(pos, positions), positions) == 0
  {
  }

  /** Out-of-range configurations: with more than 256 positions the 8-bit
      position wraps from 255 to 0 and toggling truncates the top position;
      with 0 positions up never moves and toggling always goes to 0. */
  lemma SwitchOutOfRange()
    ensures SwitchUp(255, 300) == 0
    ensures SwitchToggle(0, 300) == 43
    ensures forall p: Byte :: SwitchUp(p, 0) == p && SwitchToggle(p, 0) == 0
  {
  }

  // ---------------------------------------------------------------------
  // Values of the car-light functions

  /** get_light_value: the level `light` gives car-light function `f`; codes
      outside ALWAYS_ON .. INDICATOR_RIGHT read the constant 0. The codes are
      the positions of the levels in the record, so `f` selects the f-th
      level byte. */
  function GetLightValue(light: CarLight, f: int): (r: Byte)
    requires light.WellFormed()
    ensures ALWAYS_ON <= f <= INDICATOR_RIGHT ==> r == light.Levels()[f]
    ensures !(ALWAYS_ON <= f <= INDICATOR_RIGHT) ==> r == 0
  {
    if f == ALWAYS_ON then light.alwaysOn
    else if LIGHT_SWITCH_POSITION <= f < TAIL_LIGHT then light.switchPosition[f - LIGHT_SWITCH_POSITION]
    else if f == TAIL_LIGHT then light.tailLight
    else if f == BRAKE_LIGHT then light.brakeLight
    else if f == REVERSING_LIGHT then light.reversingLight
    else if f == INDICATOR_LEFT then light.indicatorLeft
    else if f == INDICATOR_RIGHT then light.indicatorRight
    else 0
  }

  /** is_value_zero */
  predicate IsValueZero(light: CarLight, f: int)
    requires light.WellFormed()
    ensures IsValueZero(light, f) <==> (ALWAYS_ON <= f <= INDICATOR_RIGHT ==> light.Levels()[f] == 0)
  {
    GetLightValue(light, f) == 0
  }

  /** mix_light: the LED takes the brighter of its value and `value`. */
  function MixLight(led: Byte, value: Byte): (r: Byte)
    ensures r >= led && r >= value
    ensures r == led || r == value
  {
    Max(led, value)
  }

  /** mix_car_light */
  function MixCarLight(led: Byte, light: CarLight, f: int): (r: Byte)
    requires light.WellFormed()
    ensures r >= led
    ensures ALWAYS_ON <= f <= INDICATOR_RIGHT ==> r >= light.Levels()[f] && (r == led || r == light.Levels()[f])
    ensures !(ALWAYS_ON <= f <= INDICATOR_RIGHT) ==> r == led
  {
    MixLight(led, GetLightValue(light, f))
  }

  // ---------------------------------------------------------------------
  // Combined tail / brake / indicator lights

  /** combined_tail_brake: the tail level is mixed in while the switch is
      above position 0, the brake level while braking. */
  function CombinedTailBrake(led: Byte, light: CarLight, pos: Byte, g: GlobalFlags): (r: Byte)
    requires light.WellFormed()
    ensures r >= led
    ensures pos > 0 ==> r >= light.tailLight
    ensures g.braking ==> r >= light.brakeLight
    ensures r == led || (pos > 0 && r == light.tailLight) || (g.braking && r == light.brakeLight)
  {
    var led := if pos > 0 then MixCarLight(led, light, TAIL_LIGHT) else led;
    if g.braking then MixCarLight(led, light, BRAKE_LIGHT) else led
  }

  /** Hazard lights, or an active indicator this LED has a level for. */
  predicate IndicatorActive(light: CarLight, g: GlobalFlags)
    requires light.WellFormed()
    ensures IndicatorActive(light, g) ==> g.blinkHazard || g.blinkIndicatorLeft || g.blinkIndicatorRight
    ensures !g.blinkHazard && light.indicatorLeft == 0 && light.indicatorRight == 0 ==> !IndicatorActive(light, g)
  {
    g.blinkHazard
    || (g.blinkIndicatorLeft && !IsValueZero(light, INDICATOR_LEFT))
    || (g.blinkIndicatorRight && !IsValueZero(light, INDICATOR_RIGHT))
  }

  /** combined_tail_brake_indicators: one LED serving as tail, brake and
      indicator light. Without an active indicator it behaves like
      combined_tail_brake; otherwise the blink period decides. */
  function CombinedTailBrakeIndicators(led: Byte, light: CarLight, pos: Byte, g: GlobalFlags): (r: Byte)
    requires light.WellFormed()
    ensures r >= led
    ensures !IndicatorActive(light, g) ==> r == CombinedTailBrake(led, light, pos, g)
    ensures r == led || r == light.tailLight || r == light.brakeLight
         || r == light.indicatorLeft || r == light.indicatorRight
  {
    if IndicatorActive(light, g) then
      if g.blinkFlag then
        // bright period: brake first, then tail, then the indicators
        if g.braking then MixCarLight(led, light, BRAKE_LIGHT)
        else if pos > 0 then MixCarLight(led, light, TAIL_LIGHT)
        else
          var led := if g.blinkIndicatorLeft || g.blinkHazard then MixCarLight(led, light, INDICATOR_LEFT) else led;
          if g.blinkIndicatorRight || g.blinkHazard then MixCarLight(led, light, INDICATOR_RIGHT) else led
      else
        // dark period: only the tail level, and only with tail and brake both on
        if pos > 0 && g.braking then MixCarLight(led, light, TAIL_LIGHT) else led
    else
      CombinedTailBrake(led, light, pos, g)
  }

  /** The blink table of a combined tail/brake/indicator LED starting dark:
      in the bright period brake beats tail beats indicator; in the dark
      period the LED is off unless tail and brake are both on, when it shows
      the tail level. */
  lemma CombinedBlinkTable(light: CarLight, pos: Byte, g: GlobalFlags)
    requires light.WellFormed() && IndicatorActive(light, g)
    ensures var r := CombinedTailBrakeIndicators(0, light, pos, g);
      && (g.blinkFlag && g.braking ==> r == light.brakeLight)
      && (g.blinkFlag && !g.braking && pos > 0 ==> r == light.tailLight)
      && (g.blinkFlag && !g.braking && pos == 0 && g.blinkHazard ==> r == Max(light.indicatorLeft, light.indicatorRight))
      && (!g.blinkFlag && g.braking && pos > 0 ==> r == light.tailLight)
      && (!g.blinkFlag && !(g.braking && pos > 0) ==> r == 0)
  {
  }

  // ---------------------------------------------------------------------
  // Weak ground

  /** When the k-th LIGHT_FEATURE_T flag (switch positions 0..8, tail, brake,
      reversing, left and right indicator) makes the weak ground apply. */
  predicate FlagCondition(k: int, pos: Byte, g: GlobalFlags)
  {
    if 0 <= k < LIGHT_SWITCH_POSITIONS then pos == k
    else if k == LIGHT_SWITCH_POSITIONS then pos > 0
    else if k == LIGHT_SWITCH_POSITIONS + 1 then g.braking
    else if k == LIGHT_SWITCH_POSITIONS + 2 then g.reversing
    else if k == LIGHT_SWITCH_POSITIONS + 3 then g.blinkFlag && (g.blinkIndicatorLeft || g.blinkHazard)
    else if k == LIGHT_SWITCH_POSITIONS + 4 then g.blinkFlag && (g.blinkIndicatorRight || g.blinkHazard)
    else false
  }

  /** is_light_affected: the fourteen checks in the firmware's order. */
  predicate IsLightAffected(w: seq<bool>, pos: Byte, g: GlobalFlags)
    requires |w| == FEATURE_FLAGS
    ensures (forall k | 0 <= k < FEATURE_FLAGS :: !w[k]) ==> !IsLightAffected(w, pos, g)
    ensures pos >= LIGHT_SWITCH_POSITIONS && !g.braking && !g.reversing && !g.blinkFlag ==>
      (IsLightAffected(w, pos, g) <==> w[LIGHT_SWITCH_POSITIONS])
  {
    (w[0] && pos == 0) || (w[1] && pos == 1) || (w[2] && pos == 2)
    || (w[3] && pos == 3) || (w[4] && pos == 4) || (w[5] && pos == 5)
    || (w[6] && pos == 6) || (w[7] && pos == 7) || (w[8] && pos == 8)
    || (w[9] && pos > 0)
    || (w[10] && g.braking)
    || (w[11] && g.reversing)
    || (w[12] && g.blinkFlag && (g.blinkIndicatorLeft || g.blinkHazard))
    || (w[13] && g.blinkFlag && (g.blinkIndicatorRight || g.blinkHazard))
  }

  /** A light is affected exactly when one of its flags is set whose
      condition holds. */
  lemma IsLightAffectedIff(w: seq<bool>, pos: Byte, g: GlobalFlags)
    requires |w| == FEATURE_FLAGS
    ensures IsLightAffected(w, pos, g) <==> exists k :: 0 <= k < FEATURE_FLAGS && w[k] && FlagCondition(k, pos, g)
  {
    if IsLightAffected(w, pos, g) {
      if pos < 9 && w[pos] {
        assert FlagCondition(pos, pos, g);
      } else if w[9] && pos > 0 {
        assert FlagCondition(9, pos, g);
      } else if w[10] && g.braking {
        assert FlagCondition(10, pos, g);
      } else if w[11] && g.reversing {
        assert FlagCondition(11, pos, g);
      } else if w[12] && g.blinkFlag && (g.blinkIndicatorLeft || g.blinkHazard) {
        assert FlagCondition(12, pos, g);
      } else {
        assert FlagCondition(13, pos, g);
      }
    }
  }

  /** C's `/`, which truncates toward zero. */
  function CDiv(a: int, b: int): (q: int)
    requires b > 0
    ensures a >= 0 ==> q == a / b
    ensures a < 0 ==> q == -((-a) / b)
  {
    if a >= 0 then a / b else -((-a) / b)
  }

  /** simulate_weak_ground: an affected LED with a non-zero reduction becomes
      `led * (100 - reduction) / 100`, computed in int and stored in 8 bits. */
  function SimulateWeakGround(led: Byte, light: CarLight, pos: Byte, g: GlobalFlags): (r: Byte)
    requires light.WellFormed()
    ensures light.reductionPercent == 0 || !IsLightAffected(light.weak, pos, g) ==> r == led
    ensures light.reductionPercent <= 100 ==> r <= led
    ensures light.reductionPercent <= 100 && IsLightAffected(light.weak, pos, g) ==>
      r * 100 <= led * (100 - light.reductionPercent) < (r + 1) * 100
  {
    if light.reductionPercent == 0 || !IsLightAffected(light.weak, pos, g) then led
    else Reduce(led, light.reductionPercent)
  }

  /** The weak-ground arithmetic: `(uint16_t)led * (100 - percent) / 100`
      with C's truncating division, stored into an 8-bit LED value. For
      percentages up to 100 this is the floor of the scaled value. */
  function Reduce(led: Byte, percent: Byte): (r: Byte)
    ensures percent <= 100 ==> r <= led && r * 100 <= led * (100 - percent) < (r + 1) * 100
  {
    var scaled := led * (100 - percent);
    if percent <= 100 then
      ScaledBounds(led, percent);
      scaled / 100
    else
      CDiv(scaled, 100) % 256
  }

  lemma ScaledBounds(led: Byte, percent: Byte)
    requires percent <= 100
    ensures 0 <= led * (100 - percent) <= led * 100
    ensures 0 <= led * (100 - percent) / 100 <= led
  {
    var keep := 100 - percent;
    MulMonotone(led, keep, 100);
    assert led * keep / 100 <= led * 100 / 100;
  }

  /** a * b <= a * c for non-negative a and b <= c. */
  lemma MulMonotone(a: nat, b: nat, c: nat)
    requires b <= c
    ensures 0 <= a * b <= a * c
  {
    assert a * c == a * b + a * (c - b);
  }

  /** A reduction above 100 makes the factor negative and the 8-bit store
      wraps: an affected LED at 255 drops to 1 and one at 1 lights fully. */
  lemma WeakGroundAbove100(light: CarLight, pos: Byte, g: GlobalFlags)
    requires light.WellFormed() && light.reductionPercent == 200
    requires IsLightAffected(light.weak, pos, g)
    ensures SimulateWeakGround(255, light, pos, g) == 1
    ensures SimulateWeakGround(1, light, pos, g) == 255
  {
  }

  // ---------------------------------------------------------------------
  // process_light

  /** The LED's value and its slew limit, the two results of process_light. */
  datatype LightOutput = LightOutput(value: Byte, limit: Byte)

  /** An LED with non-zero tail, brake and at least one indicator level is a
      combined tail/brake/indicator light. */
  predicate CombinedTailBrakeIndicator(light: CarLight)
    requires light.WellFormed()
  {
    !IsValueZero(light, TAIL_LIGHT) && !IsValueZero(light, BRAKE_LIGHT)
    && (!IsValueZero(light, INDICATOR_LEFT) || !IsValueZero(light, INDICATOR_RIGHT))
  }

  /** process_light up to the weak-ground step: the always-on level, mixed
      with the current switch position's level, the reversing level while
      reversing, then the tail/brake/indicator functions. The result is one
      of the record's levels and never below always-on or the switch level. */
  function MixedLevel(light: CarLight, pos: Byte, g: GlobalFlags): (r: Byte)
    requires light.WellFormed()
    ensures r in light.Levels()
    ensures r >= light.alwaysOn
    ensures r >= GetLightValue(light, LIGHT_SWITCH_POSITION + pos)
    ensures g.reversing ==> r >= light.reversingLight
  {
    var result := GetLightValue(light, ALWAYS_ON);
    var result := MixCarLight(result, light, LIGHT_SWITCH_POSITION + pos);
    var result := if g.reversing then MixCarLight(result, light, REVERSING_LIGHT) else result;
    if CombinedTailBrakeIndicator(light) then
      CombinedTailBrakeIndicators(result, light, pos, g)
    else
      var result := CombinedTailBrake(result, light, pos, g);
      if g.blinkFlag then
        var result := if g.blinkHazard || g.blinkIndicatorLeft then MixCarLight(result, light, INDICATOR_LEFT) else result;
        if g.blinkHazard || g.blinkIndicatorRight then MixCarLight(result, light, INDICATOR_RIGHT) else result
      else result
  }

  /** process_light: the limit is the record's max_change_per_systick; the
      value is the mixed level after the weak-ground step, so it keeps the
      mixed level's lower bounds whenever the weak ground does not apply and
      never exceeds it for reductions up to 100. */
  function ProcessLight(light: CarLight, pos: Byte, g: GlobalFlags): (o: LightOutput)
    requires light.WellFormed()
    ensures o.limit == light.maxChangePerSystick
    ensures light.reductionPercent == 0 || !IsLightAffected(light.weak, pos, g) ==>
      o.value == MixedLevel(light, pos, g) && o.value >= light.alwaysOn
      && o.value >= GetLightValue(light, LIGHT_SWITCH_POSITION + pos)
    ensures light.reductionPercent <= 100 ==> o.value <= MixedLevel(light, pos, g)
  {
    LightOutput(SimulateWeakGround(MixedLevel(light, pos, g), light, pos, g), light.maxChangePerSystick)
  }

  /** For an LED that is not a combined tail/brake/indicator light, every
      active function shows at least its level before the weak ground. */
  lemma SeparateFunctionsShow(light: CarLight, pos: Byte, g: GlobalFlags)
    requires light.WellFormed() && !CombinedTailBrakeIndicator(light)
    ensures var r := MixedLevel(light, pos, g);
      && (pos > 0 ==> r >= light.tailLight)
      && (g.braking ==> r >= light.brakeLight)
      && (g.blinkFlag && (g.blinkHazard || g.blinkIndicatorLeft) ==> r >= light.indicatorLeft)
      && (g.blinkFlag && (g.blinkHazard || g.blinkIndicatorRight) ==> r >= light.indicatorRight)
  {
  }

  /** A combined tail/brake/indicator LED goes dark in the dark blink period
      even while braking, when the switch is at position 0 and nothing else
      lights it. */
  lemma CombinedBrakeBlinks(light: CarLight, g: GlobalFlags)
    requires light.WellFormed() && CombinedTailBrakeIndicator(light)
    requires light.alwaysOn == 0 && light.switchPosition[0] == 0
    requires g.braking && g.blinkHazard && !g.blinkFlag && !g.reversing
    ensures MixedLevel(light, 0, g) == 0
  {
  }

  // ---------------------------------------------------------------------
  // Slew limiting

  /** One pass of the slew loop for one light: straight to the setpoint when
      the limit is 0, otherwise one calculate_step_value step. */
  function SlewValue(actual: Byte, setpoint: Byte, maxChange: Byte): (r: Byte)
    ensures maxChange == 0 ==> r == setpoint
    ensures Min(actual, setpoint) <= r <= Max(actual, setpoint)
    ensures maxChange > 0 ==> r - actual <= maxChange && actual - r <= maxChange
    ensures maxChange > 0 && r != setpoint ==> r - actual == maxChange || actual - r == maxChange
  {
    if maxChange > 0 then CalculateStepValue(actual, setpoint, maxChange) else setpoint
  }

  /** calculate_step_value: from `current` toward `target`, by at most
      `maxChange`, reaching `target` when it is within reach and otherwise
      moving by exactly `maxChange`. */
  function CalculateStepValue(current: Byte, target: Byte, maxChange: Byte): (r: Byte)
    ensures Min(current, target) <= r <= Max(current, target)
    ensures r - current <= maxChange && current - r <= maxChange
    ensures target - current <= maxChange && current - target <= maxChange ==> r == target
    ensures r != target ==> r - current == maxChange || current - r == maxChange
  {
    if target > current then
      var adjusted := Min(maxChange, 0xff - current);
      Min(target, current + adjusted)
    else
      var adjusted := Min(maxChange, current);
      Max(target, current - adjusted)
  }

  /** The actual value after `n` passes of the slew loop with a fixed
      setpoint and limit. */
  function SlewSteps(actual: Byte, setpoint: Byte, maxChange: Byte, n: nat): Byte
    decreases n
  {
    if n == 0 then actual else SlewSteps(SlewValue(actual, setpoint, maxChange), setpoint, maxChange, n - 1)
  }

  /** With a non-zero limit the actual value reaches the setpoint after
      ceil(distance / limit) passes and stays there. */
  lemma {:induction false} SlewConverges(actual: Byte, setpoint: Byte, maxChange: Byte, n: nat)
    requires maxChange > 0
    requires n * maxChange >= setpoint - actual && n * maxChange >= actual - setpoint
    ensures SlewSteps(actual, setpoint, maxChange, n) == setpoint
    decreases n
  {
    if n > 0 {
      var next := SlewValue(actual, setpoint, maxChange);
      if next == setpoint {
        SlewStaysAtSetpoint(setpoint, maxChange, n - 1);
      } else {
        assert (n - 1) * maxChange == n * maxChange - maxChange;
        SlewConverges(next, setpoint, maxChange, n - 1);
      }
    }
  }

  /** Once at the setpoint, the slew loop leaves the value there. */
  lemma {:induction false} SlewStaysAtSetpoint(setpoint: Byte, maxChange: Byte, n: nat)
    ensures SlewSteps(setpoint, setpoint, maxChange, n) == setpoint
    decreases n
  {
    if n > 0 {
      SlewStaysAtSetpoint(setpoint, maxChange, n - 1);
    }
  }

  // ---------------------------------------------------------------------
  // Slave receiver

  /** process_slave's state: 0 waits for the magic byte, s >= 1 expects LED
      value s - 1; `frames` counts the frames passed on to the TLC5940. */
  datatype Receiver = Receiver(state: int, frames: nat, levels: seq<Byte>)
  {
    predicate Valid()
    {
      0 <= state <= SLAVE_LIGHTS && |levels| == MAX_LIGHTS
    }
  }

  /** One received byte. The magic byte restarts a frame from any state; a
      data byte is stored as `byte << 2` in 8 bits; after the 16th the frame
      is passed on and the receiver waits for the next magic byte. Data bytes
      are ignored while waiting. */
  function ReceiveByte(r: Receiver, b: Byte): (n: Receiver)
    requires r.Valid()
    ensures n.Valid()
  {
    if b == SLAVE_MAGIC_BYTE then r.(state := 1)
    else if r.state >= 1 then
      var levels := r.levels[r.state - 1 := (b as int * 4) % 256];
      if r.state + 1 > SLAVE_LIGHTS then Receiver(0, r.frames + 1, levels)
      else Receiver(r.state + 1, r.frames, levels)
    else r
  }

  /** The receiver after every byte of `input`, in order. */
  function Receive(r: Receiver, input: seq<Byte>): (n: Receiver)
    requires r.Valid()
    ensures n.Valid()
    decreases |input|
  {
    if input == [] then r
    else ReceiveByte(Receive(r, input[..|input| - 1]), input[|input| - 1])
  }

  /** Receiving two chunks one after the other is receiving them joined. */
  lemma {:induction false} ReceiveConcat(r: Receiver, a: seq<Byte>, b: seq<Byte>)
    requires r.Valid()
    ensures Receive(r, a + b) == Receive(Receive(r, a), b)
    decreases |b|
  {
    if b == [] {
      assert a + b == a;
    } else {
      var b' := b[..|b| - 1];
      assert (a + b)[..|a + b| - 1] == a + b';
      assert (a + b)[|a + b| - 1] == b[|b| - 1];
      ReceiveConcat(r, a, b');
    }
  }

  /** Receiving a single byte is one step of the state machine. */
  lemma ReceiveOne(r: Receiver, b: Byte)
    requires r.Valid()
    ensures Receive(r, [b]) == ReceiveByte(r, b)
  {
    assert [b][..0] == [];
  }

  /** Data bytes received while waiting for the magic byte change nothing. */
  lemma {:induction false} StrayBytesIgnored(r: Receiver, input: seq<Byte>)
    requires r.Valid() && r.state == 0
    requires forall i | 0 <= i < |input| :: input[i] != SLAVE_MAGIC_BYTE
    ensures Receive(r, input) == r
    decreases |input|
  {
    if input != [] {
      StrayBytesIgnored(r, input[..|input| - 1]);
    }
  }

  /** The levels a frame of data bytes `values` stores into `levels`. */
  function FrameLevels(levels: seq<Byte>, values: seq<Byte>): (r: seq<Byte>)
    requires |values| <= SLAVE_LIGHTS && |levels| == MAX_LIGHTS
    ensures |r| == MAX_LIGHTS
  {
    seq(MAX_LIGHTS, i requires 0 <= i < MAX_LIGHTS => if i < |values| then (values[i] as int * 4) % 256 else levels[i])
  }

  /** After the magic byte and k < 16 data bytes, the first k values are
      stored and the receiver expects value k. */
  lemma {:induction false} FrameProgress(r: Receiver, values: seq<Byte>)
    requires r.Valid() && r.state == 1 && |values| < SLAVE_LIGHTS
    requires forall i | 0 <= i < |values| :: values[i] != SLAVE_MAGIC_BYTE
    ensures Receive(r, values) == Receiver(|values| + 1, r.frames, FrameLevels(r.levels, values))
    decreases |values|
  {
    if values == [] {
      assert FrameLevels(r.levels, values) == r.levels;
    } else {
      var k := |values| - 1;
      FrameProgress(r, values[..k]);
      assert FrameLevels(FrameLevels(r.levels, values[..k]), values)
          == FrameLevels(r.levels, values);
      assert FrameLevels(r.levels, values[..k])[k := (values[k] as int * 4) % 256] == FrameLevels(r.levels, values);
    }
  }

  /** A magic byte followed by 16 data bytes, from any state, stores the 16
      values (shifted left by two, in 8 bits) into the first 16 lights,
      passes exactly one frame on and leaves the receiver waiting. */
  lemma SlaveFrame(r: Receiver, values: seq<Byte>)
    requires r.Valid() && |values| == SLAVE_LIGHTS
    requires forall i | 0 <= i < |values| :: values[i] != SLAVE_MAGIC_BYTE
    ensures Receive(r, [SLAVE_MAGIC_BYTE] + values) == Receiver(0, r.frames + 1, FrameLevels(r.levels, values))
  {
    var r1 := Receive(r, [SLAVE_MAGIC_BYTE]);
    ReceiveOne(r, SLAVE_MAGIC_BYTE);
    ReceiveConcat(r, [SLAVE_MAGIC_BYTE], values);
    var k := SLAVE_LIGHTS - 1;
    FrameProgress(r1, values[..k]);
    assert values[..k + 1] == values;
    assert FrameLevels(r.levels, values[..k])[k := (values[k] as int * 4) % 256] == FrameLevels(r.levels, values);
  }

  /** What a master sends its slave each systick: the magic byte, then each
      gamma-corrected slave output shifted right by two. */
  function MasterFrame(outputs: seq<Byte>): (f: seq<Byte>)
    ensures |f| == |outputs| + 1 && f[0] == SLAVE_MAGIC_BYTE
    ensures forall i | 0 <= i < |outputs| :: f[i + 1] == outputs[i] / 4
  {
    [SLAVE_MAGIC_BYTE] + seq(|outputs|, i requires 0 <= i < |outputs| => outputs[i] / 4)
  }

  /** A master frame for 16 slave lights never contains a second magic byte,
      so the slave stores each output with its two low bits cleared and
      passes the frame on. */
  lemma MasterFrameReceived(r: Receiver, outputs: seq<Byte>)
    requires r.Valid() && |outputs| == SLAVE_LIGHTS
    ensures var n := Receive(r, MasterFrame(outputs));
      && n.state == 0 && n.frames == r.frames + 1 && n.levels[SLAVE_LIGHTS..] == r.levels[SLAVE_LIGHTS..]
      && forall i | 0 <= i < SLAVE_LIGHTS :: n.levels[i] == outputs[i] / 4 * 4
  {
    var values := MasterFrame(outputs)[1..];
    assert MasterFrame(outputs) == [SLAVE_MAGIC_BYTE] + values;
    SlaveFrame(r, values);
  }

  /** A master frame for fewer than 16 slave lights stores its values but
      never completes: the slave passes nothing on and is still expecting
      data when the next frame's magic byte restarts it. */
  lemma ShortMasterFrameNotPassedOn(r: Receiver, outputs: seq<Byte>)
    requires r.Valid() && |outputs| < SLAVE_LIGHTS
    ensures var n := Receive(r, MasterFrame(outputs));
      n.state == |outputs| + 1 && n.frames == r.frames
  {
    var values := MasterFrame(outputs)[1..];
    assert MasterFrame(outputs) == [SLAVE_MAGIC_BYTE] + values;
    var r1 := Receive(r, [SLAVE_MAGIC_BYTE]);
    ReceiveOne(r, SLAVE_MAGIC_BYTE);
    ReceiveConcat(r, [SLAVE_MAGIC_BYTE], values);
    FrameProgress(r1, values);
  }

  // ---------------------------------------------------------------------
  // The controller's globals

  /** Bit `i` of the leds_used mask: LED `i` is driven by a light program. */
  predicate Used(mask: bv32, i: nat)
  {
    i < 32 && mask & (1 << i) != 0
  }

  /** process_light applied to every record of an LED bank. */
  function Outputs(leds: seq<CarLight>, pos: Byte, g: GlobalFlags): (r: seq<LightOutput>)
    requires forall k | 0 <= k < |leds| :: leds[k].WellFormed()
    ensures |r| == |leds|
  {
    seq(|leds|, k requires 0 <= k < |leds| => ProcessLight(leds[k], pos, g))
  }

  /** What process_car_lights computes for light `i`, if anything: from
      light 16 on the outputs of the slave LEDs when slave output is on,
      otherwise the output of local LED `i` unless a light program drives
      it. The slave loop runs second, so a local bank of more than 16 LEDs
      is overwritten from light 16 on. */
  function Target(i: int, localOuts: seq<LightOutput>, slaveOuts: seq<LightOutput>,
                  ledsUsed: bv32, slaveOutput: bool): Option<LightOutput>
  {
    if slaveOutput && SLAVE_LIGHTS <= i < SLAVE_LIGHTS + |slaveOuts| then Some(slaveOuts[i - SLAVE_LIGHTS])
    else if 0 <= i < |localOuts| && !Used(ledsUsed, i) then Some(localOuts[i])
    else None
  }

  class LightController {
    /** light_switch_position */
    var lightSwitchPosition: Byte
    /** config.light_switch_positions */
    const lightSwitchPositions: U16
    /** light_setpoint: the value each light should have. */
    const setpoint: array<Byte>
    /** light_actual: the value each light has, approaching the setpoint. */
    const actual: array<Byte>
    /** max_change_per_systick */
    const maxChange: array<Byte>
    /** process_slave's static state. */
    var slaveState: int
    /** How often process_slave has passed a frame on to the TLC5940. */
    var framesSent: nat

    predicate Valid()
      reads this
    {
      && setpoint.Length == MAX_LIGHTS && actual.Length == MAX_LIGHTS && maxChange.Length == MAX_LIGHTS
      && setpoint != actual && setpoint != maxChange && actual != maxChange
      && 0 <= slaveState <= SLAVE_LIGHTS
    }

    /** The firmware's zero-initialised globals, with the switch at the
        configured initial position (init_lights). */
    constructor (positions: U16, initialPosition: Byte)
      ensures Valid() && fresh(setpoint) && fresh(actual) && fresh(maxChange)
      ensures lightSwitchPositions == positions && lightSwitchPosition == initialPosition
      ensures slaveState == 0 && framesSent == 0
      ensures forall i | 0 <= i < MAX_LIGHTS :: setpoint[i] == 0 && actual[i] == 0 && maxChange[i] == 0
    {
      lightSwitchPositions := positions;
      lightSwitchPosition := initialPosition;
      setpoint := new Byte[MAX_LIGHTS](_ => 0);
      actual := new Byte[MAX_LIGHTS](_ => 0);
      maxChange := new Byte[MAX_LIGHTS](_ => 0);
      slaveState := 0;
      framesSent := 0;
    }

    method LightSwitchUp()
      requires Valid()
      modifies this
      ensures Valid() && lightSwitchPosition == SwitchUp(old(lightSwitchPosition), lightSwitchPositions)
      ensures slaveState == old(slaveState) && framesSent == old(framesSent)
    {
      if lightSwitchPosition < lightSwitchPositions - 1 {
        lightSwitchPosition := (lightSwitchPosition + 1) % 256;
      }
    }

    method LightSwitchDown()
      requires Valid()
      modifies this
      ensures Valid() && lightSwitchPosition == SwitchDown(old(lightSwitchPosition))
      ensures slaveState == old(slaveState) && framesSent == old(framesSent)
    {
      if lightSwitchPosition > 0 {
        lightSwitchPosition := lightSwitchPosition - 1;
      }
    }

    method ToggleLightSwitch()
      requires Valid()
      modifies this
      ensures Valid() && lightSwitchPosition == SwitchToggle(old(lightSwitchPosition), lightSwitchPositions)
      ensures slaveState == old(slaveState) && framesSent == old(framesSent)
    {
      if lightSwitchPosition < lightSwitchPositions - 1 {
        lightSwitchPosition := (lightSwitchPositions - 1) % 256;
      } else {
        lightSwitchPosition := 0;
      }
    }

    /** The stores of one of process_car_lights' process_light loops: output
        k goes to light `first + k` unless bit k of `skip` is set. The outputs
        are ProcessLight's results, a pure function of the record, the switch
        position and the flags. */
    method StoreOutputs(outs: seq<LightOutput>, first: nat, skip: bv32)
      requires Valid() && first + |outs| <= MAX_LIGHTS
      modifies setpoint, maxChange
      ensures forall i | 0 <= i < MAX_LIGHTS ::
        setpoint[i] == (if first <= i < first + |outs| && !Used(skip, i - first) then outs[i - first].value else old(setpoint[i]))
      ensures forall i | 0 <= i < MAX_LIGHTS ::
        maxChange[i] == (if first <= i < first + |outs| && !Used(skip, i - first) then outs[i - first].limit else old(maxChange[i]))
    {
      var k := 0;
      while k < |outs|
        invariant 0 <= k <= |outs|
        invariant forall i | 0 <= i < MAX_LIGHTS ::
          setpoint[i] == (if first <= i < first + k && !Used(skip, i - first) then outs[i - first].value else old(setpoint[i]))
        invariant forall i | 0 <= i < MAX_LIGHTS ::
          maxChange[i] == (if first <= i < first + k && !Used(skip, i - first) then outs[i - first].limit else old(maxChange[i]))
      {
        if !Used(skip, k) {
          setpoint[first + k] := outs[k].value;
          maxChange[first + k] := outs[k].limit;
        }
        k := k + 1;
      }
    }

    /** The slew loop: every light's actual value moves toward its setpoint
        by at most its limit, or jumps to it when the limit is 0. */
    method Slew()
      requires Valid()
      modifies actual
      ensures forall i | 0 <= i < MAX_LIGHTS :: actual[i] == SlewValue(old(actual[i]), setpoint[i], maxChange[i])
    {
      for i := 0 to MAX_LIGHTS
        invariant forall k | 0 <= k < i :: actual[k] == SlewValue(old(actual[k]), setpoint[k], maxChange[k])
        invariant forall k | i <= k < MAX_LIGHTS :: actual[k] == old(actual[k])
      {
        if maxChange[i] > 0 {
          actual[i] := CalculateStepValue(actual[i], setpoint[i], maxChange[i]);
        } else {
          actual[i] := setpoint[i];
        }
      }
    }

    /** process_car_lights without its output: the local LEDs not driven by
        a light program, the slave LEDs when slave output is on, then the
        slew loop over all 32 lights. */
    method ProcessCarLights(local: seq<CarLight>, slave: seq<CarLight>, ledsUsed: bv32,
                            slaveOutput: bool, g: GlobalFlags)
      requires Valid() && |local| <= MAX_LIGHTS && |slave| <= SLAVE_LIGHTS
      requires forall k | 0 <= k < |local| :: local[k].WellFormed()
      requires forall k | 0 <= k < |slave| :: slave[k].WellFormed()
      modifies setpoint, actual, maxChange
      ensures var pos := old(lightSwitchPosition);
        forall i | 0 <= i < MAX_LIGHTS ::
          var t := Target(i, Outputs(local, pos, g), Outputs(slave, pos, g), ledsUsed, slaveOutput);
          setpoint[i] == (if t.Some? then t.value.value else old(setpoint[i]))
          && maxChange[i] == (if t.Some? then t.value.limit else old(maxChange[i]))
      ensures forall i | 0 <= i < MAX_LIGHTS :: actual[i] == SlewValue(old(actual[i]), setpoint[i], maxChange[i])
    {
      var pos := lightSwitchPosition;
      StoreOutputs(Outputs(local, pos, g), 0, ledsUsed);
      if slaveOutput {
        StoreOutputs(Outputs(slave, pos, g), SLAVE_LIGHTS, 0);
      }
      Slew();
    }

    /** process_slave over the bytes pending on the UART: the receiver state
        machine runs once per byte, writing the same values into the
        setpoints and the actual values. */
    method ProcessSlave(input: seq<Byte>)
      requires Valid()
      modifies this, setpoint, actual
      ensures Valid() && lightSwitchPosition == old(lightSwitchPosition)
      ensures var s := Receive(Receiver(old(slaveState), old(framesSent), old(setpoint[..])), input);
        slaveState == s.state && framesSent == s.frames && setpoint[..] == s.levels
      ensures actual[..] == Receive(Receiver(old(slaveState), old(framesSent), old(actual[..])), input).levels
    {
      ghost var s0 := Receiver(slaveState, framesSent, setpoint[..]);
      ghost var a0 := Receiver(slaveState, framesSent, actual[..]);
      var i := 0;
      while i < |input|
        invariant 0 <= i <= |input| && Valid()
        invariant lightSwitchPosition == old(lightSwitchPosition)
        invariant Receive(s0, input[..i]) == Receiver(slaveState, framesSent, setpoint[..])
        invariant Receive(a0, input[..i]) == Receiver(slaveState, framesSent, actual[..])
      {
        var b := input[i];
        if b == SLAVE_MAGIC_BYTE {
          slaveState := 1;
        } else if slaveState >= 1 {
          setpoint[slaveState - 1] := (b as int * 4) % 256;
          actual[slaveState - 1] := (b as int * 4) % 256;
          slaveState := slaveState + 1;
          if slaveState > SLAVE_LIGHTS {
            slaveState := 0;
            framesSent := framesSent + 1;
          }
        }
        assert input[..i + 1][..i] == input[..i];
        i := i + 1;
      }
      assert input[..|input|] == input;
    }
  }
}
