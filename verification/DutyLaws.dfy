/**
 The duty cycle control of mcpwm_adc_int_handler on values: the step of each control mode, the limits that
 replace it, and the restart rule, with what they mean for the duty cycle.
 */
module DutyLaws {
  import opened Utils

  datatype MotorType = BLDC | DC
  datatype SensorMode = Sensorless | Sensored | Hybrid
  datatype ControlMode = Duty | Speed | Current | CurrentBrake | Pos | NoControl

  /** The fields of mc_configuration this code reads; names follow the source. */
  datatype Config = Config(
    motorType: MotorType, sensorMode: SensorMode, integrate: bool,
    lMinDuty: real, lMaxDuty: real, maxErpmFbrake: real, maxErpmFbrakeCc: real,
    minErpm: real, maxErpm: real, rpmLimNegTorque: bool,
    slMinErpm: real, slMaxFullbreakCurrentDirChange: real, hallSlErpm: real,
    loCurrentMin: real, loCurrentMax: real, loInCurrentMin: real, loInCurrentMax: real,
    ccMinCurrent: real, ccGain: real, ccStartupBoost: real, ccRampStepMax: real,
    dutyRampStep: real, dutyRampStepRpmLim: real, currentBackoffGain: real, sPidMinErpm: real)

  ghost predicate ValidConfig(c: Config) {
    && 0.0 < c.lMinDuty <= c.lMaxDuty
    && 0.0 <= c.dutyRampStep && 0.0 <= c.dutyRampStepRpmLim && 0.0 <= c.currentBackoffGain && 0.0 <= c.ccRampStepMax
  }

  /** What the low-level setter reads besides the state: the hall phase and the filtered current. */
  datatype Reading = Reading(hall: int, currentFiltered: real)

  ghost predicate ValidReading(r: Reading) {
    1 <= r.hall <= 6
  }

  /**
   One ADC interrupt: stuck and crossed are the outcomes of the commutation timeout and of the
   back-EMF integrator.
   */
  datatype Sample = Sample(r: Reading, current: real, inputVoltage: real, frequency: real, stuck: bool, crossed: bool)

  ghost predicate ValidSample(s: Sample) {
    ValidReading(s.r) && s.inputVoltage > 0.0 && s.frequency > 0.0
  }

  // ----- arithmetic helpers -----

  /** A step rescaled from 1 kHz to the switching frequency. */
  function PerKhz(step: real, frequency: real): real
    requires frequency > 0.0
  {
    step / (frequency / 1000.0)
  }

  lemma QuotientBound(x: real, m: real, d: real)
    requires d > 0.0 && Within(x, m)
    ensures Within(x / d, m / d)
  {
    var q, b := x / d, m / d;
    assert q * d == x && b * d == m;
    assert (b - q) * d >= 0.0 && (b + q) * d >= 0.0;
  }

  /** The average voltage of a duty cycle. */
  function Voltage(duty: real, supply: real): real {
    duty * supply
  }

  lemma QuotientSign(x: real, d: real)
    requires d > 0.0
    ensures (x / d > 0.0 <==> x > 0.0) && (x / d < 0.0 <==> x < 0.0)
  {
    assert x / d * d == x;
  }

  lemma TruncateQuotient(q: real, forward: bool, m: real)
    requires m > 0.0
    ensures var x := if forward then q else -q; var t := Truncate(x, -m, m);
      Within(t, m) && (Within(q, m) ==> t == x) && (q > 0.0 ==> (forward <==> t > 0.0))
  {
  }

  lemma QuotientInRange(x: real, m: real, d: real)
    requires d > 0.0
    ensures x / d * d == x && -(x / d) * d == -x
    ensures Within(x, m * d) ==> Within(x / d, m)
  {
    if Within(x, m * d) {
      QuotientBound(x, m * d, d);
      assert m * d / d == m;
    }
  }

  lemma AmplitudeDuty(amp: real, supply: real, forward: bool, m: real)
    requires m > 0.0 && supply > 0.0
    ensures var d := Truncate(if forward then amp / supply else -(amp / supply), -m, m);
      && Within(d, m) && (amp > 0.0 ==> (forward <==> d > 0.0))
      && (Within(amp, Voltage(m, supply)) ==> Voltage(d, supply) == if forward then amp else -amp)
  {
    QuotientSign(amp, supply);
    QuotientInRange(amp, m, supply);
    TruncateQuotient(amp / supply, forward, m);
    hide Truncate;
  }

  lemma ScaledSign(x: real, gain: real, scale: real)
    requires gain >= 0.0 && scale > 0.0
    ensures x >= 0.0 ==> x * gain * scale >= 0.0
    ensures x <= 0.0 ==> x * gain * scale <= 0.0
  {
    assert x >= 0.0 ==> x * gain >= 0.0;
    assert x <= 0.0 ==> x * gain <= 0.0;
  }

  lemma PerKhzBound(step: real, m: real, frequency: real)
    requires frequency > 0.0 && Within(step, m)
    ensures Within(PerKhz(step, frequency), PerKhz(m, frequency)) && PerKhz(m, frequency) >= 0.0
  {
    QuotientBound(step, m, frequency / 1000.0);
  }

  /** The step of a current limit, proportional to the excess. */
  function Backoff(ramp: real, excess: real, gain: real): real {
    ramp * Abs(excess) * gain
  }

  lemma BackoffNonNegative(ramp: real, excess: real, gain: real)
    requires ramp >= 0.0 && gain >= 0.0
    ensures Backoff(ramp, excess, gain) >= 0.0
  {
    assert ramp * Abs(excess) >= 0.0;
  }

  // ----- one control step on values -----

  /** What a control step depends on, and changes. */
  datatype Control = Control(
    conf: Config, mode: ControlMode, direction: bool, rpmNow: real,
    dutyNow: real, dutySet: real, currentSet: real, slow: nat)

  /** mcpwm_get_rpm. */
  function RpmOf(k: Control): real {
    if k.direction then k.rpmNow else -k.rpmNow
  }

  function OneLess(n: nat): nat {
    if n > 0 then n - 1 else 0
  }

  /** The error of the current, scaled by the gain and for the supply voltage. */
  function Demand(c: Config, s: Sample, error: real): real
    requires s.inputVoltage > 0.0
  {
    error * c.ccGain * (20.0 / s.inputVoltage)
  }

  /** The step of the current controller for an error, limited, rescaled, and slowed while recovering. */
  function CurrentStepOf(c: Config, s: Sample, error: real, slow: nat): real
    requires s.inputVoltage > 0.0 && s.frequency > 0.0
  {
    var most := c.ccRampStepMax;
    var step := PerKhz(Truncate(Demand(c, s, error), -most, most), s.frequency);
    if slow > 0 then step * 0.1 else step
  }

  /** The start-up boost, compensated for the supply voltage. */
  function StartBoost(c: Config, s: Sample): real
    requires s.inputVoltage > 0.0
  {
    c.ccStartupBoost * (20.0 / s.inputVoltage)
  }

  /** How far the motor current is below the set current, counted in the direction of rotation. */
  function CurrentError(currentSet: real, direction: bool, s: Sample): real {
    currentSet - (if direction then s.current else -s.current)
  }

  /** Current control before the range and the minimum are applied. */
  function Aim(k: Control, s: Sample, ramp: real): real
    requires s.inputVoltage > 0.0 && s.frequency > 0.0
  {
    var boost := StartBoost(k.conf, s);
    if Abs(k.dutyNow) < boost then StepTowards(k.dutyNow, if k.currentSet > 0.0 then boost else -boost, ramp)
    else k.dutyNow + CurrentStepOf(k.conf, s, CurrentError(k.currentSet, k.direction, s), k.slow)
  }

  function CurrentTarget(k: Control, s: Sample, ramp: real): real
    requires s.inputVoltage > 0.0 && s.frequency > 0.0
  {
    var t := Truncate(Aim(k, s, ramp), -k.conf.lMaxDuty, k.conf.lMaxDuty);
    if Abs(t) < k.conf.lMinDuty && t < 0.0 && k.currentSet > 0.0 then k.conf.lMinDuty
    else if Abs(t) < k.conf.lMinDuty && t > 0.0 && k.currentSet < 0.0 then -k.conf.lMinDuty
    else t
  }

  /** Current braking before the minimum is applied. */
  function BrakeAim(k: Control, s: Sample): real
    requires s.inputVoltage > 0.0 && s.frequency > 0.0
  {
    var step := CurrentStepOf(k.conf, s, -Abs(k.currentSet) - s.current, k.slow);
    Truncate(k.dutyNow + Along(k.dutyNow, step), -k.conf.lMaxDuty, k.conf.lMaxDuty)
  }

  function BrakeTarget(k: Control, s: Sample): real
    requires s.inputVoltage > 0.0 && s.frequency > 0.0
  {
    var t := BrakeAim(k, s);
    if Abs(t) >= k.conf.lMinDuty then t
    else if Abs(k.rpmNow) < k.conf.maxErpmFbrakeCc then 0.0
    else Along(t, k.conf.lMinDuty)
  }

  predicate ByCurrent(k: Control) {
    k.mode == Current || k.mode == Pos
  }

  /** The duty cycle the control mode asks for. */
  function Target(k: Control, s: Sample, ramp: real): real
    requires s.inputVoltage > 0.0 && s.frequency > 0.0
  {
    if ByCurrent(k) then CurrentTarget(k, s, ramp)
    else if k.mode == CurrentBrake then BrakeTarget(k, s)
    else StepTowards(k.dutyNow, k.dutySet, ramp)
  }

  /** dutycycle_set after the regulator. */
  function SetAfter(k: Control, s: Sample, ramp: real): real
    requires s.inputVoltage > 0.0 && s.frequency > 0.0
  {
    if ByCurrent(k) then (if Target(k, s, ramp) >= 0.0 then k.conf.lMinDuty else -k.conf.lMinDuty)
    else if k.mode == CurrentBrake && Abs(BrakeAim(k, s)) < k.conf.lMinDuty then Target(k, s, ramp)
    else k.dutySet
  }

  function SlowAfter(k: Control): nat {
    if ByCurrent(k) || k.mode == CurrentBrake then OneLess(k.slow) else k.slow
  }

  /** What the current limits ask for: a move of the duty cycle towards a goal, in proportion to the excess. */
  datatype Limit = NoLimit | Towards(goal: real, excess: real)

  /** The current limit that acts, by priority: motor current too high, too low, input current too high, too low. */
  function LimitOf(c: Config, direction: bool, s: Sample, duty: real): Limit {
    var outer := if direction then c.lMaxDuty else -c.lMaxDuty;
    var input := s.current * Abs(duty);
    if s.current > c.loCurrentMax then Towards(0.0, s.current - c.loCurrentMax)
    else if s.current < c.loCurrentMin then Towards(outer, s.current - c.loCurrentMin)
    else if input > c.loInCurrentMax then Towards(0.0, input - c.loInCurrentMax)
    else if input < c.loInCurrentMin then Towards(outer, input - c.loInCurrentMin)
    else NoLimit
  }

  /** Too fast in either direction while the regulator does not slow down. */
  predicate TooFast(c: Config, rpm: real, s: Sample, duty: real, target: real) {
    && (c.rpmLimNegTorque || s.r.currentFiltered > -1.0)
    && ((rpm > c.maxErpm && duty <= target) || (rpm <= c.maxErpm && rpm < c.minErpm && duty >= target))
  }

  /** A stopped motor is restarted in the set direction, but never against a fast rotation. */
  function Restarted(c: Config, duty: real, goal: real, rpm: real): real {
    var d := if Abs(duty) >= c.lMinDuty then duty
             else if goal >= c.lMinDuty then c.lMinDuty
             else if goal <= -c.lMinDuty then -c.lMinDuty
             else duty;
    if d >= c.lMinDuty && rpm < -c.maxErpmFbrake then -c.lMinDuty
    else if d <= -c.lMinDuty && rpm > c.maxErpmFbrake then c.lMinDuty
    else d
  }

  /** After the limits, before the restart. */
  function Limited(k: Control, s: Sample, target: real, step: real): (r: (real, nat))
  {
    match LimitOf(k.conf, k.direction, s, k.dutyNow)
    case Towards(goal, excess) =>
      (StepTowards(k.dutyNow, goal, Backoff(step, excess, k.conf.currentBackoffGain)), k.slow)
    case NoLimit =>
      if TooFast(k.conf, RpmOf(k), s, k.dutyNow, target)
      then (StepTowards(k.dutyNow, 0.0, k.conf.dutyRampStepRpmLim), 500)
      else (target, k.slow)
  }

  /** The step of the ramp in this interrupt, and while recovering. */
  function RampStep(k: Control, s: Sample): real
    requires s.frequency > 0.0
  {
    if k.slow > 0 then PerKhz(k.conf.dutyRampStep, s.frequency) * 0.1 else PerKhz(k.conf.dutyRampStep, s.frequency)
  }

  /** One control step. */
  function Next(k: Control, s: Sample): (n: Control)
    requires s.inputVoltage > 0.0 && s.frequency > 0.0
    ensures n == k.(dutyNow := n.dutyNow, dutySet := n.dutySet, slow := n.slow)
  {
    var m := k.(slow := OneLess(k.slow));
    var ramp := RampStep(k, s);
    var goal := SetAfter(m, s, ramp);
    var n := m.(dutySet := goal, slow := SlowAfter(m));
    var (duty, slow) := Limited(n, s, Target(m, s, ramp), PerKhz(k.conf.dutyRampStep, s.frequency));
    k.(dutyNow := Restarted(k.conf, duty, goal, RpmOf(k)), dutySet := goal, slow := slow)
  }

  // ----- bounds and directions -----

  lemma StepBound(c: Config, s: Sample, error: real, slow: nat)
    requires ValidConfig(c) && ValidSample(s)
    ensures Within(CurrentStepOf(c, s, error, slow), PerKhz(c.ccRampStepMax, s.frequency))
    ensures c.ccGain >= 0.0 ==>
      && (error >= 0.0 ==> CurrentStepOf(c, s, error, slow) >= 0.0)
      && (error <= 0.0 ==> CurrentStepOf(c, s, error, slow) <= 0.0)
  {
    hide PerKhz, Demand;
    var step := Truncate(Demand(c, s, error), -c.ccRampStepMax, c.ccRampStepMax);
    if c.ccGain >= 0.0 {
      DemandSign(c, s, error);
    }
    PerKhzBound(step, c.ccRampStepMax, s.frequency);
    PerKhzSign(step, s.frequency);
  }

  lemma DemandSign(c: Config, s: Sample, error: real)
    requires ValidSample(s) && c.ccGain >= 0.0
    ensures (error >= 0.0 ==> Demand(c, s, error) >= 0.0) && (error <= 0.0 ==> Demand(c, s, error) <= 0.0)
  {
    QuotientSign(20.0, s.inputVoltage);
    ScaledSign(error, c.ccGain, 20.0 / s.inputVoltage);
  }

  lemma PerKhzSign(step: real, frequency: real)
    requires frequency > 0.0
    ensures (step >= 0.0 ==> PerKhz(step, frequency) >= 0.0) && (step <= 0.0 ==> PerKhz(step, frequency) <= 0.0)
  {
    QuotientSign(step, frequency / 1000.0);
  }

  /** The most dutycycle_now moves in one interrupt while no limit is active. */
  function RateOf(c: Config, ramp: real, frequency: real): real
    requires frequency > 0.0
  {
    Larger(ramp, PerKhz(c.ccRampStepMax, frequency))
  }

  /** Without the boost the duty cycle moves with the sign of the error, below it towards the boost. */
  lemma AimBound(k: Control, s: Sample, ramp: real)
    requires ValidConfig(k.conf) && ValidSample(s) && ramp >= 0.0
    ensures Within(Aim(k, s, ramp) - k.dutyNow, RateOf(k.conf, ramp, s.frequency))
    ensures Abs(k.dutyNow) >= StartBoost(k.conf, s) && k.conf.ccGain >= 0.0 ==>
      && (CurrentError(k.currentSet, k.direction, s) >= 0.0 ==> Aim(k, s, ramp) >= k.dutyNow)
      && (CurrentError(k.currentSet, k.direction, s) <= 0.0 ==> Aim(k, s, ramp) <= k.dutyNow)
    ensures Abs(k.dutyNow) < StartBoost(k.conf, s) ==>
      && (k.currentSet > 0.0 ==> Aim(k, s, ramp) >= k.dutyNow)
      && (k.currentSet <= 0.0 ==> Aim(k, s, ramp) <= k.dutyNow)
  {
    hide CurrentStepOf, StepTowards, PerKhz, StartBoost, CurrentError;
    var boost := StartBoost(k.conf, s);
    StepBound(k.conf, s, CurrentError(k.currentSet, k.direction, s), k.slow);
    StepTowardsSpec(k.dutyNow, if k.currentSet > 0.0 then boost else -boost, ramp);
  }

  /** Current control: in range, a bounded step away unless at the minimum, never at rest against the set current. */
  lemma CurrentTargetBound(k: Control, s: Sample, ramp: real)
    requires ValidConfig(k.conf) && ValidSample(s) && ramp >= 0.0
    ensures var t, c := CurrentTarget(k, s, ramp), k.conf;
      && Within(t, c.lMaxDuty)
      && (k.currentSet != 0.0 && Abs(t) < c.lMinDuty && t != 0.0 ==> (t > 0.0 <==> k.currentSet > 0.0))
      && (Within(k.dutyNow, c.lMaxDuty) ==>
            && (Within(t - k.dutyNow, RateOf(c, ramp, s.frequency)) || Abs(t) == c.lMinDuty)
            && (Abs(k.dutyNow) >= StartBoost(c, s) && c.ccGain >= 0.0 ==>
                  && (CurrentError(k.currentSet, k.direction, s) >= 0.0 ==> t >= k.dutyNow || Abs(t) == c.lMinDuty)
                  && (CurrentError(k.currentSet, k.direction, s) <= 0.0 ==> t <= k.dutyNow || Abs(t) == c.lMinDuty))
            && (Abs(k.dutyNow) < StartBoost(c, s) ==>
                  && (k.currentSet > 0.0 ==> t >= k.dutyNow)
                  && (k.currentSet <= 0.0 ==> t <= k.dutyNow || t == c.lMinDuty)))
  {
    hide Aim, RateOf, StartBoost, CurrentError;
    AimBound(k, s, ramp);
    RateNonNegative(k.conf, ramp, s.frequency);
  }

  lemma RateNonNegative(c: Config, ramp: real, frequency: real)
    requires ramp >= 0.0 && frequency > 0.0
    ensures RateOf(c, ramp, frequency) >= 0.0
  {
    hide PerKhz;
  }

  /** Current braking: towards zero while too little current is generated, and zero only below the speed limit. */
  lemma BrakeTargetBound(k: Control, s: Sample)
    requires ValidConfig(k.conf) && ValidSample(s)
    ensures var t, c := BrakeTarget(k, s), k.conf;
      && Within(t, c.lMaxDuty)
      && (Abs(t) < c.lMinDuty ==> t == 0.0 && Abs(k.rpmNow) < c.maxErpmFbrakeCc)
      && (Abs(t) < c.lMinDuty ==> Abs(BrakeAim(k, s)) < c.lMinDuty)
      && (Abs(t) > c.lMinDuty ==> Abs(BrakeAim(k, s)) >= c.lMinDuty)
      && (Within(k.dutyNow, c.lMaxDuty) ==>
            && (Within(t - k.dutyNow, PerKhz(c.ccRampStepMax, s.frequency)) || t == 0.0 || Abs(t) == c.lMinDuty)
            && (Abs(t) > c.lMinDuty && c.ccGain >= 0.0 ==>
                  && (-s.current <= Abs(k.currentSet) ==> Along(k.dutyNow, t - k.dutyNow) <= 0.0)
                  && (-s.current >= Abs(k.currentSet) ==> Along(k.dutyNow, t - k.dutyNow) >= 0.0)))
  {
    hide CurrentStepOf, PerKhz;
    StepBound(k.conf, s, -Abs(k.currentSet) - s.current, k.slow);
  }

  /** The limits move the duty cycle between its old value and their goal, and otherwise it is the target. */
  lemma LimitedBound(k: Control, s: Sample, target: real, step: real)
    requires ValidConfig(k.conf) && step >= 0.0
    ensures match LimitOf(k.conf, k.direction, s, k.dutyNow)
      case Towards(goal, excess) =>
        Within(goal, k.conf.lMaxDuty) && Between(Limited(k, s, target, step).0, k.dutyNow, goal)
      case NoLimit => Between(Limited(k, s, target, step).0, k.dutyNow, 0.0) || Limited(k, s, target, step).0 == target
    ensures LimitOf(k.conf, k.direction, s, k.dutyNow) == NoLimit && k.conf.minErpm <= RpmOf(k) <= k.conf.maxErpm ==>
      Limited(k, s, target, step) == (target, k.slow)
  {
    hide StepTowards, Backoff;
    StepTowardsSpec(k.dutyNow, 0.0, k.conf.dutyRampStepRpmLim);
    match LimitOf(k.conf, k.direction, s, k.dutyNow)
    case Towards(goal, excess) =>
      BackoffNonNegative(step, excess, k.conf.currentBackoffGain);
      StepTowardsSpec(k.dutyNow, goal, Backoff(step, excess, k.conf.currentBackoffGain));
    case NoLimit =>
  }

  /** The restart rule: it only acts below the minimum, or against a fast rotation. */
  lemma RestartedBound(c: Config, duty: real, goal: real, rpm: real)
    requires ValidConfig(c)
    ensures var r := Restarted(c, duty, goal, rpm);
      && (r == duty || Abs(r) == c.lMinDuty)
      && (Abs(r) < c.lMinDuty ==> Abs(goal) < c.lMinDuty)
    ensures Within(rpm, c.maxErpmFbrake) ==>
      Restarted(c, duty, goal, rpm) ==
      if Abs(duty) >= c.lMinDuty || Abs(goal) < c.lMinDuty then duty else Along(goal, c.lMinDuty)
    ensures c.maxErpmFbrake >= 0.0 && rpm < -c.maxErpmFbrake ==>
      Restarted(c, duty, goal, rpm) ==
      if duty >= c.lMinDuty || (duty > -c.lMinDuty && Abs(goal) >= c.lMinDuty) then -c.lMinDuty else duty
    ensures c.maxErpmFbrake >= 0.0 && rpm > c.maxErpmFbrake ==>
      Restarted(c, duty, goal, rpm) ==
      if duty <= -c.lMinDuty || (duty < c.lMinDuty && Abs(goal) >= c.lMinDuty) then c.lMinDuty else duty
  {
  }

  lemma RampStepBound(k: Control, s: Sample)
    requires ValidConfig(k.conf) && ValidSample(s)
    ensures 0.0 <= RampStep(k, s) <= PerKhz(k.conf.dutyRampStep, s.frequency)
    ensures k.slow == 0 ==> RampStep(k, s) == PerKhz(k.conf.dutyRampStep, s.frequency)
  {
    hide PerKhz;
    PerKhzBound(0.0, k.conf.dutyRampStep, s.frequency);
  }

  /** The target of every mode is in range if the duty cycles are, and a bounded step away unless at the minimum. */
  lemma TargetBound(k: Control, s: Sample, ramp: real)
    requires ValidConfig(k.conf) && ValidSample(s) && ramp >= 0.0
    ensures var t, c := Target(k, s, ramp), k.conf;
      && (Within(k.dutyNow, c.lMaxDuty) && Within(k.dutySet, c.lMaxDuty) ==> Within(t, c.lMaxDuty))
      && (Within(k.dutyNow, c.lMaxDuty) ==>
            Within(t - k.dutyNow, RateOf(c, ramp, s.frequency)) || t == 0.0 || Abs(t) == c.lMinDuty)
  {
    hide CurrentTarget, BrakeTarget, StepTowards, PerKhz, BrakeAim, Aim;
    CurrentTargetBound(k, s, ramp);
    BrakeTargetBound(k, s);
    StepTowardsSpec(k.dutyNow, k.dutySet, ramp);
  }

  /** One control step: it backs off under overcurrent, is rate-limited, and never turns against a fast rotation. */
  lemma NextBound(k: Control, s: Sample)
    requires ValidConfig(k.conf) && ValidSample(s)
    ensures s.current > k.conf.loCurrentMax ==>
      Between(Next(k, s).dutyNow, 0.0, k.dutyNow) || Abs(Next(k, s).dutyNow) == k.conf.lMinDuty
    ensures Within(k.dutyNow, k.conf.lMaxDuty) && LimitOf(k.conf, k.direction, s, k.dutyNow) == NoLimit ==>
      k.conf.minErpm <= RpmOf(k) <= k.conf.maxErpm ==>
      var duty := Next(k, s).dutyNow;
      || Within(duty - k.dutyNow, RateOf(k.conf, PerKhz(k.conf.dutyRampStep, s.frequency), s.frequency))
      || duty == 0.0 || Abs(duty) == k.conf.lMinDuty
    ensures k.conf.maxErpmFbrake >= 0.0 && RpmOf(k) < -k.conf.maxErpmFbrake ==> Next(k, s).dutyNow < k.conf.lMinDuty
    ensures k.conf.maxErpmFbrake >= 0.0 && RpmOf(k) > k.conf.maxErpmFbrake ==> Next(k, s).dutyNow > -k.conf.lMinDuty
  {
    hide Target, SetAfter, Limited, Restarted, RampStep, PerKhz, SlowAfter, Backoff;
    var m := k.(slow := OneLess(k.slow));
    var ramp, step := RampStep(k, s), PerKhz(k.conf.dutyRampStep, s.frequency);
    var n := m.(dutySet := SetAfter(m, s, ramp), slow := SlowAfter(m));
    RampStepBound(k, s);
    TargetBound(m, s, ramp);
    LimitedBound(n, s, Target(m, s, ramp), step);
    RestartedBound(k.conf, Limited(n, s, Target(m, s, ramp), step).0, SetAfter(m, s, ramp), RpmOf(k));
  }

  // ----- what one step does, mode by mode and limit by limit -----

  /** No current or speed limit acts, whatever the control mode asks for. */
  ghost predicate Free(k: Control, s: Sample) {
    && k.conf.loCurrentMin <= s.current <= k.conf.loCurrentMax
    && k.conf.loInCurrentMin <= s.current * Abs(k.dutyNow) <= k.conf.loInCurrentMax
    && k.conf.minErpm <= RpmOf(k) <= k.conf.maxErpm
  }

  /** Then the duty cycle is the target of the control mode, apart from the restart rule. */
  lemma FreeStep(k: Control, s: Sample)
    requires ValidSample(s) && Free(k, s)
    ensures var m := k.(slow := OneLess(k.slow));
      var goal := SetAfter(m, s, RampStep(k, s));
      Next(k, s) == k.(dutyNow := Restarted(k.conf, Target(m, s, RampStep(k, s)), goal, RpmOf(k)), dutySet := goal,
                       slow := SlowAfter(m))
  {
    hide Target, SetAfter, SlowAfter, Restarted, RampStep, PerKhz, StepTowards, Backoff;
  }

  /** A move by the whole step, or to the goal when that is nearer. */
  ghost predicate Moved(before: real, after: real, goal: real, step: real) {
    if -step <= goal - before <= step then after == goal
    else after == if goal > before then before + step else before - step
  }

  lemma MovedTowards(value: real, goal: real, step: real)
    requires step >= 0.0
    ensures Moved(value, StepTowards(value, goal, step), goal, step)
  {
    StepTowardsSpec(value, goal, step);
  }

  /** Duty cycle and speed control: the whole ramp step, or a tenth of it while recovering. */
  lemma RampLaw(k: Control, s: Sample) returns (duty: real)
    requires ValidConfig(k.conf) && ValidSample(s) && Free(k, s) && k.mode !in {Current, CurrentBrake, Pos}
    ensures var step := k.conf.dutyRampStep / (s.frequency / 1000.0);
      Moved(k.dutyNow, duty, k.dutySet, if k.slow == 0 then step else step * 0.1)
    ensures Next(k, s) == k.(dutyNow := Restarted(k.conf, duty, k.dutySet, RpmOf(k)), slow := OneLess(k.slow))
  {
    hide Restarted, StepTowards, Next, RampStep, Free, Moved;
    RampStepIs(k, s);
    FreeStep(k, s);
    MovedTowards(k.dutyNow, k.dutySet, RampStep(k, s));
    duty := StepTowards(k.dutyNow, k.dutySet, RampStep(k, s));
  }

  /** Too much motor current: towards zero, in proportion to the excess, whatever the mode. */
  lemma OvercurrentLaw(k: Control, s: Sample) returns (duty: real, excess: real)
    requires ValidConfig(k.conf) && ValidSample(s) && s.current > k.conf.loCurrentMax
    ensures excess == s.current - k.conf.loCurrentMax
    ensures var step := k.conf.dutyRampStep / (s.frequency / 1000.0);
      Moved(k.dutyNow, duty, 0.0, step * excess * k.conf.currentBackoffGain)
    ensures Next(k, s).dutyNow == Restarted(k.conf, duty, Next(k, s).dutySet, RpmOf(k))
  {
    hide Next, Moved, Restarted, Backoff, PerKhz;
    excess := s.current - k.conf.loCurrentMax;
    duty := LimitLaw(k, s);
    MovedBack(k, s, duty, 0.0, excess, excess);
  }

  /** Too much generated current: outwards in the direction of rotation. */
  lemma RegenerationLaw(k: Control, s: Sample) returns (duty: real, excess: real)
    requires ValidConfig(k.conf) && ValidSample(s)
    requires s.current <= k.conf.loCurrentMax && s.current < k.conf.loCurrentMin
    ensures excess == k.conf.loCurrentMin - s.current
    ensures var step := k.conf.dutyRampStep / (s.frequency / 1000.0);
      Moved(k.dutyNow, duty, if k.direction then k.conf.lMaxDuty else -k.conf.lMaxDuty,
            step * excess * k.conf.currentBackoffGain)
    ensures Next(k, s).dutyNow == Restarted(k.conf, duty, Next(k, s).dutySet, RpmOf(k))
  {
    hide Next, Moved, Restarted, Backoff, PerKhz;
    excess := k.conf.loCurrentMin - s.current;
    duty := LimitLaw(k, s);
    MovedBack(k, s, duty, if k.direction then k.conf.lMaxDuty else -k.conf.lMaxDuty, -excess, excess);
  }

  /** The same for the current taken from the supply, if the motor current is within its limits. */
  lemma InputCurrentLaw(k: Control, s: Sample) returns (duty: real, excess: real)
    requires ValidConfig(k.conf) && ValidSample(s) && k.conf.loCurrentMin <= s.current <= k.conf.loCurrentMax
    requires var input := s.current * Abs(k.dutyNow); input > k.conf.loInCurrentMax || input < k.conf.loInCurrentMin
    ensures var step, input := k.conf.dutyRampStep / (s.frequency / 1000.0), s.current * Abs(k.dutyNow);
      if input > k.conf.loInCurrentMax then
        && excess == input - k.conf.loInCurrentMax
        && Moved(k.dutyNow, duty, 0.0, step * excess * k.conf.currentBackoffGain)
      else
        && excess == k.conf.loInCurrentMin - input
        && Moved(k.dutyNow, duty, if k.direction then k.conf.lMaxDuty else -k.conf.lMaxDuty,
                 step * excess * k.conf.currentBackoffGain)
    ensures Next(k, s).dutyNow == Restarted(k.conf, duty, Next(k, s).dutySet, RpmOf(k))
  {
    hide Next, Moved, Restarted, Backoff, PerKhz, LimitOf;
    var goal, signed;
    goal, signed, excess := InputLimit(k, s);
    duty := LimitLaw(k, s);
    MovedBack(k, s, duty, goal, signed, excess);
  }

  lemma InputLimit(k: Control, s: Sample) returns (goal: real, signed: real, size: real)
    requires k.conf.loCurrentMin <= s.current <= k.conf.loCurrentMax
    requires var input := s.current * Abs(k.dutyNow); input > k.conf.loInCurrentMax || input < k.conf.loInCurrentMin
    ensures LimitOf(k.conf, k.direction, s, k.dutyNow) == Towards(goal, signed) && size == Abs(signed)
    ensures var input := s.current * Abs(k.dutyNow);
      if input > k.conf.loInCurrentMax then goal == 0.0 && size == input - k.conf.loInCurrentMax
      else goal == (if k.direction then k.conf.lMaxDuty else -k.conf.lMaxDuty) && size == k.conf.loInCurrentMin - input
  {
    var input := s.current * Abs(k.dutyNow);
    if input > k.conf.loInCurrentMax {
      goal, signed := 0.0, input - k.conf.loInCurrentMax;
    } else {
      goal, signed := if k.direction then k.conf.lMaxDuty else -k.conf.lMaxDuty, input - k.conf.loInCurrentMin;
    }
    size := Abs(signed);
  }

  lemma MovedBack(k: Control, s: Sample, duty: real, goal: real, signed: real, size: real)
    requires ValidSample(s) && size == Abs(signed)
    requires var step := PerKhz(k.conf.dutyRampStep, s.frequency);
      Moved(k.dutyNow, duty, goal, Backoff(step, signed, k.conf.currentBackoffGain))
    ensures var step := k.conf.dutyRampStep / (s.frequency / 1000.0);
      Moved(k.dutyNow, duty, goal, step * size * k.conf.currentBackoffGain)
  {
    hide Backoff, PerKhz, Abs;
    BackoffIs(k.conf, s, signed, size);
  }

  lemma BackoffIs(c: Config, s: Sample, excess: real, size: real)
    requires ValidSample(s) && size == Abs(excess)
    ensures Backoff(PerKhz(c.dutyRampStep, s.frequency), excess, c.currentBackoffGain) ==
            c.dutyRampStep / (s.frequency / 1000.0) * size * c.currentBackoffGain
  {
  }

  /** Whichever current limit acts: the whole backed-off step towards its goal. */
  lemma LimitLaw(k: Control, s: Sample) returns (duty: real)
    requires ValidConfig(k.conf) && ValidSample(s)
    ensures match LimitOf(k.conf, k.direction, s, k.dutyNow)
      case Towards(goal, excess) =>
        && Moved(k.dutyNow, duty, goal,
                 Backoff(PerKhz(k.conf.dutyRampStep, s.frequency), excess, k.conf.currentBackoffGain))
        && Next(k, s).dutyNow == Restarted(k.conf, duty, Next(k, s).dutySet, RpmOf(k))
      case NoLimit => true
  {
    hide Target, SetAfter, SlowAfter, Restarted, RampStep, PerKhz, Backoff, StepTowards, LimitOf, TooFast;
    var step := PerKhz(k.conf.dutyRampStep, s.frequency);
    RampStepBound(k, s);
    duty := 0.0;
    match LimitOf(k.conf, k.direction, s, k.dutyNow)
    case Towards(goal, excess) =>
      duty := StepTowards(k.dutyNow, goal, Backoff(step, excess, k.conf.currentBackoffGain));
      BackoffNonNegative(step, excess, k.conf.currentBackoffGain);
      StepTowardsSpec(k.dutyNow, goal, Backoff(step, excess, k.conf.currentBackoffGain));
    case NoLimit =>
  }

  /** The step of the current controller: proportional to the error, limited, and a tenth of that while recovering. */
  lemma CurrentStepLaw(c: Config, s: Sample, error: real) returns (demand: real, most: real)
    requires ValidConfig(c) && ValidSample(s)
    ensures demand == error * c.ccGain * (20.0 / s.inputVoltage) && most == c.ccRampStepMax / (s.frequency / 1000.0)
    ensures -c.ccRampStepMax <= demand <= c.ccRampStepMax ==>
      CurrentStepOf(c, s, error, 0) == demand / (s.frequency / 1000.0)
    ensures demand > c.ccRampStepMax ==> CurrentStepOf(c, s, error, 0) == most
    ensures demand < -c.ccRampStepMax ==> CurrentStepOf(c, s, error, 0) == -most
    ensures forall slow: nat :: slow > 0 ==> CurrentStepOf(c, s, error, slow) == CurrentStepOf(c, s, error, 0) * 0.1
  {
    demand := error * c.ccGain * (20.0 / s.inputVoltage);
    most := c.ccRampStepMax / (s.frequency / 1000.0);
    NegativeQuotient(c.ccRampStepMax, s.frequency / 1000.0);
  }

  lemma NegativeQuotient(x: real, d: real)
    requires d > 0.0
    ensures (-x) / d == -(x / d)
  {
    assert x / d * d == x;
    assert -(x / d) * d == -x;
  }

  /** Current control above the start-up boost: the duty cycle moves by the step for the error. */
  lemma CurrentLaw(k: Control, s: Sample) returns (duty: real)
    requires ValidConfig(k.conf) && ValidSample(s) && Free(k, s) && (k.mode == Current || k.mode == Pos)
    requires Abs(k.dutyNow) >= k.conf.ccStartupBoost * (20.0 / s.inputVoltage)
    ensures duty == k.dutyNow +
      CurrentStepOf(k.conf, s, k.currentSet - (if k.direction then s.current else -s.current), OneLess(k.slow))
    ensures k.conf.lMinDuty <= Abs(duty) <= k.conf.lMaxDuty ==>
      && Next(k, s).dutySet == (if duty >= 0.0 then k.conf.lMinDuty else -k.conf.lMinDuty)
      && Next(k, s).dutyNow == Restarted(k.conf, duty, Next(k, s).dutySet, RpmOf(k))
    ensures Abs(duty) > k.conf.lMaxDuty ==>
      Next(k, s).dutyNow ==
      Restarted(k.conf, if duty > 0.0 then k.conf.lMaxDuty else -k.conf.lMaxDuty, Next(k, s).dutySet, RpmOf(k))
  {
    hide CurrentStepOf, Restarted, StepTowards, PerKhz, Next, RampStep, Free, BrakeTarget, BrakeAim, SlowAfter;
    FreeStep(k, s);
    duty := k.dutyNow + CurrentStepOf(k.conf, s, CurrentError(k.currentSet, k.direction, s), OneLess(k.slow));
  }

  lemma RampStepIs(k: Control, s: Sample)
    requires ValidConfig(k.conf) && ValidSample(s)
    ensures var step := k.conf.dutyRampStep / (s.frequency / 1000.0);
      0.0 <= RampStep(k, s) == if k.slow == 0 then step else step * 0.1
  {
    RampStepBound(k, s);
  }

  /** Below it, towards the boost in the direction of the set current, by the ramp step. */
  lemma BoostLaw(k: Control, s: Sample, boost: real) returns (duty: real)
    requires ValidConfig(k.conf) && ValidSample(s) && Free(k, s) && (k.mode == Current || k.mode == Pos)
    requires boost == k.conf.ccStartupBoost * (20.0 / s.inputVoltage) && Abs(k.dutyNow) < boost
    ensures var step := k.conf.dutyRampStep / (s.frequency / 1000.0);
      Moved(k.dutyNow, duty, if k.currentSet > 0.0 then boost else -boost, if k.slow == 0 then step else step * 0.1)
    ensures k.conf.lMinDuty <= Abs(duty) <= k.conf.lMaxDuty ==>
      Next(k, s).dutyNow == Restarted(k.conf, duty, Next(k, s).dutySet, RpmOf(k))
  {
    hide Aim, Restarted, StepTowards, Next, RampStep, Free, SetAfter, SlowAfter, StartBoost, Moved, BrakeTarget;
    duty := BoostAim(k, s, boost);
    FreeStep(k, s);
  }

  lemma BoostAim(k: Control, s: Sample, boost: real) returns (duty: real)
    requires ValidConfig(k.conf) && ValidSample(s)
    requires boost == k.conf.ccStartupBoost * (20.0 / s.inputVoltage) && Abs(k.dutyNow) < boost
    ensures var step := k.conf.dutyRampStep / (s.frequency / 1000.0);
      Moved(k.dutyNow, duty, if k.currentSet > 0.0 then boost else -boost, if k.slow == 0 then step else step * 0.1)
    ensures duty == Aim(k.(slow := OneLess(k.slow)), s, RampStep(k, s))
  {
    hide Aim, StepTowards, RampStep;
    RampStepIs(k, s);
    var goal := if k.currentSet > 0.0 then boost else -boost;
    duty := StepTowards(k.dutyNow, goal, RampStep(k, s));
    StepTowardsSpec(k.dutyNow, goal, RampStep(k, s));
    AimForBoost(k.(slow := OneLess(k.slow)), s, RampStep(k, s), boost);
  }

  lemma AimForBoost(k: Control, s: Sample, ramp: real, boost: real)
    requires ValidSample(s) && boost == StartBoost(k.conf, s) && Abs(k.dutyNow) < boost
    ensures Aim(k, s, ramp) == StepTowards(k.dutyNow, if k.currentSet > 0.0 then boost else -boost, ramp)
  {
    hide StartBoost, StepTowards, CurrentStepOf;
  }

  /** Current braking: by the step for the error along the duty cycle, to zero below the minimum when slow. */
  lemma BrakeLaw(k: Control, s: Sample) returns (duty: real)
    requires ValidConfig(k.conf) && ValidSample(s) && Free(k, s) && k.mode == CurrentBrake
    ensures var step := CurrentStepOf(k.conf, s, -Abs(k.currentSet) - s.current, OneLess(k.slow));
      duty == k.dutyNow + if k.dutyNow < 0.0 then -step else step
    ensures k.conf.lMinDuty <= Abs(duty) <= k.conf.lMaxDuty ==>
      Next(k, s).dutySet == k.dutySet && Next(k, s).dutyNow == Restarted(k.conf, duty, k.dutySet, RpmOf(k))
    ensures Abs(duty) < k.conf.lMinDuty && Abs(k.rpmNow) < k.conf.maxErpmFbrakeCc ==>
      Next(k, s).dutyNow == Next(k, s).dutySet == 0.0
    ensures Abs(duty) < k.conf.lMinDuty && Abs(k.rpmNow) >= k.conf.maxErpmFbrakeCc ==>
      && Next(k, s).dutySet == (if duty >= 0.0 then k.conf.lMinDuty else -k.conf.lMinDuty)
      && Next(k, s).dutyNow == Restarted(k.conf, Next(k, s).dutySet, Next(k, s).dutySet, RpmOf(k))
  {
    hide CurrentStepOf, StepTowards, PerKhz, Next, RampStep, Restarted, Free, CurrentTarget;
    FreeStep(k, s);
    duty := k.dutyNow + Along(k.dutyNow, CurrentStepOf(k.conf, s, -Abs(k.currentSet) - s.current, OneLess(k.slow)));
    RestAtZero(k.conf, RpmOf(k));
  }

  lemma RestAtZero(c: Config, rpm: real)
    requires ValidConfig(c)
    ensures Restarted(c, 0.0, 0.0, rpm) == 0.0
  {
  }

  /** The speed limits: towards zero by their own step, and then ramping slows down for 500 interrupts. */
  lemma SpeedLimitLaw(k: Control, s: Sample) returns (duty: real)
    requires ValidConfig(k.conf) && ValidSample(s)
    requires k.conf.loCurrentMin <= s.current <= k.conf.loCurrentMax
    requires k.conf.loInCurrentMin <= s.current * Abs(k.dutyNow) <= k.conf.loInCurrentMax
    requires k.conf.rpmLimNegTorque || s.r.currentFiltered > -1.0
    requires var target := Target(k.(slow := OneLess(k.slow)), s, RampStep(k, s));
      || (RpmOf(k) > k.conf.maxErpm && k.dutyNow <= target)
      || (RpmOf(k) <= k.conf.maxErpm && RpmOf(k) < k.conf.minErpm && k.dutyNow >= target)
    ensures Moved(k.dutyNow, duty, 0.0, k.conf.dutyRampStepRpmLim) && Next(k, s).slow == 500
    ensures Next(k, s).dutyNow == Restarted(k.conf, duty, Next(k, s).dutySet, RpmOf(k))
  {
    hide Target, SetAfter, SlowAfter, Restarted, RampStep, PerKhz, StepTowards;
    duty := StepTowards(k.dutyNow, 0.0, k.conf.dutyRampStepRpmLim);
    StepTowardsSpec(k.dutyNow, 0.0, k.conf.dutyRampStepRpmLim);
  }

  // ----- a run of steps -----

  /** Whatever the duty cycle, no limit acts, and the rotation is slow enough to start in either direction. */
  ghost predicate Calm(c: Config, rpmNow: real, s: Sample) {
    && ValidSample(s)
    && c.loCurrentMin <= s.current <= c.loCurrentMax && c.loInCurrentMin <= 0.0 <= c.loInCurrentMax
    && c.loInCurrentMin <= s.current * c.lMaxDuty <= c.loInCurrentMax
    && c.minErpm <= -Abs(rpmNow) && Abs(rpmNow) <= c.maxErpm && Abs(rpmNow) <= c.maxErpmFbrake
  }

  lemma InputInRange(c: real, d: real, m: real, low: real, high: real)
    requires 0.0 <= d <= m && low <= 0.0 <= high && low <= c * m <= high
    ensures low <= c * d <= high
  {
    if c >= 0.0 {
      assert 0.0 <= c * d <= c * m;
    } else {
      assert c * m <= c * d <= 0.0;
    }
  }

  function Distance(k: Control): real {
    Abs(k.dutySet - k.dutyNow)
  }

  /** In duty cycle control each step takes the whole ramp step off the distance to dutycycle_set, or all of it. */
  lemma CalmStep(k: Control, s: Sample)
    requires ValidConfig(k.conf) && Calm(k.conf, k.rpmNow, s) && k.mode == Duty && k.slow == 0
    requires k.conf.lMinDuty <= Abs(k.dutySet) <= k.conf.lMaxDuty && Abs(k.dutyNow) <= k.conf.lMaxDuty
    ensures var n, step := Next(k, s), k.conf.dutyRampStep / (s.frequency / 1000.0);
      && n == k.(dutyNow := n.dutyNow) && k.conf.lMinDuty <= Abs(n.dutyNow) <= k.conf.lMaxDuty
      && Distance(n) <= (if Distance(k) <= step then 0.0 else Distance(k) - step)
      && (k.dutyNow * k.dutySet > 0.0 && Abs(k.dutyNow) >= k.conf.lMinDuty ==>
            && Distance(n) == (if Distance(k) <= step then 0.0 else Distance(k) - step)
            && n.dutyNow * k.dutySet > 0.0)
  {
    hide Next, PerKhz, Restarted, Moved, RampStep, Distance, Free;
    CalmIsFree(k, s);
    var duty := RampLaw(k, s);
    var step := k.conf.dutyRampStep / (s.frequency / 1000.0);
    RampStepIs(k, s);
    RestartedBound(k.conf, duty, k.dutySet, RpmOf(k));
    Nearer(k, Next(k, s), duty, step);
  }

  lemma CalmIsFree(k: Control, s: Sample)
    requires Calm(k.conf, k.rpmNow, s) && Abs(k.dutyNow) <= k.conf.lMaxDuty
    ensures Free(k, s) && Within(RpmOf(k), k.conf.maxErpmFbrake)
  {
    InputInRange(s.current, Abs(k.dutyNow), k.conf.lMaxDuty, k.conf.loInCurrentMin, k.conf.loInCurrentMax);
  }

  lemma Nearer(k: Control, n: Control, duty: real, step: real)
    requires ValidConfig(k.conf) && step >= 0.0 && Moved(k.dutyNow, duty, k.dutySet, step)
    requires k.conf.lMinDuty <= Abs(k.dutySet) <= k.conf.lMaxDuty && Abs(k.dutyNow) <= k.conf.lMaxDuty
    requires n == k.(dutyNow := if Abs(duty) >= k.conf.lMinDuty then duty else Along(k.dutySet, k.conf.lMinDuty))
    ensures k.conf.lMinDuty <= Abs(n.dutyNow) <= k.conf.lMaxDuty
    ensures Distance(n) <= (if Distance(k) <= step then 0.0 else Distance(k) - step)
    ensures k.dutyNow * k.dutySet > 0.0 && Abs(k.dutyNow) >= k.conf.lMinDuty ==>
      && Distance(n) == (if Distance(k) <= step then 0.0 else Distance(k) - step)
      && n.dutyNow * k.dutySet > 0.0
  {
    SameSign(k.dutyNow, k.dutySet);
    SameSign(n.dutyNow, k.dutySet);
  }

  lemma SameSign(x: real, y: real)
    ensures x * y > 0.0 <==> (x > 0.0 && y > 0.0) || (x < 0.0 && y < 0.0)
  {
  }
}
