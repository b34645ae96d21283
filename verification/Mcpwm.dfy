/**
 Six-step motor control of mcpwm.c: commutation and its step counters, and the duty cycle state
 machine with its command, thread and interrupt entry points, over exact reals. Readings of
 sensors and of the analog comparisons arrive as parameters.
 */
module Mcpwm {
  import opened DutyLaws
  import opened Tachometer
  import opened Utils

  datatype State = Off | Detecting | Running | FullBrake

  // ----- full brake entries -----

  /** A full brake entry: the configuration, whether a command or the low-level setter decided, and on what. */
  datatype Entry = Entry(conf: Config, byCommand: bool, mode: ControlMode, rpm: real, duty: real)

  function ModeLimit(c: Config, mode: ControlMode): real {
    if mode == Current || mode == CurrentBrake then c.maxErpmFbrakeCc else c.maxErpmFbrake
  }

  /** The speed (or, for a DC motor, duty) condition under which an entry happened. */
  ghost predicate Proper(e: Entry) {
    if e.byCommand then
      && (e.mode == Duty || e.mode == CurrentBrake)
      && (if e.conf.motorType == DC then Abs(e.duty) <= 0.1 else Abs(e.rpm) <= e.conf.maxErpmFbrake)
    else Abs(e.rpm) <= ModeLimit(e.conf, e.mode)
  }

  ghost predicate AllProper(es: seq<Entry>) {
    forall e <- es :: Proper(e)
  }

  /** Every entry is within the limit of its control mode, or the brake command is the reason. */
  ghost predicate RespectsMode(e: Entry) {
    || Abs(e.rpm) <= ModeLimit(e.conf, e.mode)
    || (e.byCommand && e.mode == CurrentBrake && Abs(e.rpm) <= e.conf.maxErpmFbrake)
  }

  /** Entries respect the limit of their mode exactly if the plain limit is not above the current-control one. */
  lemma ModeLimitExact(c: Config)
    requires c.motorType == BLDC
    ensures (forall e: Entry :: e.conf == c && Proper(e) ==> Abs(e.rpm) <= ModeLimit(c, e.mode))
       <==> (c.maxErpmFbrake <= c.maxErpmFbrakeCc || c.maxErpmFbrake < 0.0)
  {
    var worst := Entry(c, true, CurrentBrake, c.maxErpmFbrake, 0.0);
    if c.maxErpmFbrake > c.maxErpmFbrakeCc && c.maxErpmFbrake >= 0.0 {
      assert Proper(worst);
    }
  }

  // ----- the two duty cycles -----

  /** Whether the motor runs, the configured maximum, dutycycle_now and dutycycle_set. */
  datatype Duties = Duties(running: bool, max: real, dutyNow: real, dutySet: real)

  /** The largest of the configured maximum and the magnitudes of the two duty cycles. */
  ghost function ReachOf(d: Duties): real {
    Larger(d.max, Larger(Abs(d.dutyNow), Abs(d.dutySet)))
  }

  ghost predicate DutiesInRange(d: Duties) {
    Within(d.dutyNow, d.max) && Within(d.dutySet, d.max)
  }

  class Motor {
    var conf: Config

    var state: State
    var controlMode: ControlMode
    var direction: bool
    var rpmNow: real
    var rpmP1: real
    var dutySet: real
    var dutyNow: real
    /** The duty cycle last handed to the timer. */
    var output: real
    var currentSet: real
    var speedSet: real
    var slowRampingCycles: nat
    var limitDelay: nat

    var commStep: int
    var detectStep: int
    var lastStep: int
    var tachometer: int
    var tachometerAbs: int
    var tachometerForDirection: int
    var sensorless: bool
    var hasCommutated: bool
    /** Interrupts since the last commutation. */
    var pwmCycles: nat
    var directionBefore: bool

    /** Every difference counted, and every full brake entry, since mcpwm_init. */
    ghost var moves: seq<Move>
    ghost var brakes: seq<Entry>
    /** How much of the history the tachometers have been reset after. */
    ghost var absFrom: nat
    ghost var netFrom: nat
    /** Whether phase detection, or a change of the sensor mode, has moved the step without counting. */
    ghost var detected: bool

    /** The tachometers are the sums of the history since their last reset. */
    ghost predicate Counted()
      reads `tachometer, `tachometerAbs, `moves, `absFrom, `netFrom
    {
      && absFrom <= |moves| && netFrom <= |moves|
      && tachometerAbs == Total(moves[absFrom..]) && tachometer == Net(moves[netFrom..])
    }

    ghost predicate StepsValid()
      reads `commStep, `detectStep, `lastStep, `tachometer, `tachometerAbs, `moves, `absFrom, `netFrom
    {
      && 1 <= commStep <= 6 && 0 <= detectStep <= 5 && 0 <= lastStep <= 5
      && Counted() && Congruent(Total(moves), lastStep) && InWindow(moves)
    }

    ghost predicate SensorsValid()
      reads `conf, `commStep, `lastStep, `sensorless, `moves, `detected
    {
      && (conf.sensorMode == Sensorless ==> sensorless)
      && (conf.sensorMode == Sensored ==> !sensorless)
      && (conf.sensorMode == Sensorless && !detected ==> lastStep == commStep - 1 && Forwards(moves))
    }

    ghost predicate TachoValid()
      reads `conf, `commStep, `detectStep, `lastStep, `tachometer, `tachometerAbs
      reads `sensorless, `moves, `absFrom, `netFrom, `detected
    {
      StepsValid() && SensorsValid()
    }

    ghost function DutiesNow(): Duties
      reads `conf, `state, `dutyNow, `dutySet
    {
      Duties(state == Running, conf.lMaxDuty, dutyNow, dutySet)
    }

    /** No method makes this larger, apart from a new configuration and a command that skips the ramp. */
    ghost function Reach(): (r: real)
      reads `conf, `state, `dutyNow, `dutySet
      ensures r >= conf.lMaxDuty && Within(dutyNow, r) && Within(dutySet, r)
      ensures r == conf.lMaxDuty || r == Abs(dutyNow) || r == Abs(dutySet)
    {
      ReachOf(DutiesNow())
    }

    /** Neither duty cycle exceeds the configured maximum. */
    ghost predicate InRange()
      reads `conf, `state, `dutyNow, `dutySet
    {
      DutiesInRange(DutiesNow())
    }

    ghost predicate Valid()
      reads `conf, `commStep, `detectStep, `lastStep, `tachometer, `tachometerAbs
      reads `sensorless, `moves, `absFrom, `netFrom, `detected, `limitDelay, `brakes
    {
      ValidConfig(conf) && TachoValid() && limitDelay == 0 && AllProper(brakes)
    }

    /** The timer runs the commanded duty cycle, capped by the configuration, in the commanded direction. */
    ghost predicate Follows(duty: real)
      reads `conf, `direction, `output
    {
      output == Truncate(Abs(duty), 0.0, conf.lMaxDuty) && direction == (duty > 0.0)
    }

    /** mcpwm_init. */
    constructor (conf: Config)
      requires ValidConfig(conf)
      ensures Valid() && InRange() && this.conf == conf && state == Off
      ensures moves == [] && brakes == [] && !detected && rpmNow == rpmP1 == 0.0
    {
      this.conf := conf;
      state, controlMode, direction := Off, NoControl, true;
      rpmNow, rpmP1, dutySet, dutyNow, output, currentSet, speedSet := 0.0, 0.0, 0.0, 0.0, 0.0, 0.0, 0.0;
      slowRampingCycles, limitDelay := 0, 0;
      commStep, detectStep, lastStep := 1, 0, 0;
      tachometer, tachometerAbs, tachometerForDirection := 0, 0, 0;
      hasCommutated, directionBefore, pwmCycles := false, true, 0;
      moves, brakes, detected, absFrom, netFrom := [], [], false, 0, 0;
      sensorless := conf.sensorMode == Sensorless || (conf.sensorMode == Hybrid && 0.0 > conf.hallSlErpm);
    }

    // ----- commutation -----

    /** mcpwm_get_rpm. */
    function Rpm(): real
      reads `direction, `rpmNow
    {
      if direction then rpmNow else -rpmNow
    }

    /** update_rpm_tacho without its time stamps. */
    method UpdateRpmTacho()
      requires 1 <= commStep <= 6 && 0 <= lastStep <= 5 && Counted()
      modifies `lastStep, `tachometer, `tachometerAbs, `tachometerForDirection, `moves
      ensures lastStep == commStep - 1 && Counted()
      ensures var d := tachometerAbs - old(tachometerAbs);
        && Nearest(d, lastStep, old(lastStep))
        && moves == old(moves) + [Move(d, direction)]
        && tachometer == old(tachometer) + (if direction then d else -d)
        && tachometerForDirection == old(tachometerForDirection) + d
    {
      hide Total, Net, Remainder, Congruent, Nearest;
      RemainderNearest(commStep - 1, lastStep);
      var step := commStep - 1;
      var tachoDiff := Remainder(step - lastStep, 6);
      lastStep := step;
      if tachoDiff > 3 {
        tachoDiff := tachoDiff - 6;
      } else if tachoDiff < -2 {
        tachoDiff := tachoDiff + 6;
      }
      tachometerForDirection := tachometerForDirection + tachoDiff;
      tachometerAbs := tachometerAbs + tachoDiff;
      if direction {
        tachometer := tachometer + tachoDiff;
      } else {
        tachometer := tachometer - tachoDiff;
      }
      ghost var m := Move(tachoDiff, direction);
      Extend(moves[absFrom..], m);
      Extend(moves[netFrom..], m);
      assert (moves + [m])[absFrom..] == moves[absFrom..] + [m] && (moves + [m])[netFrom..] == moves[netFrom..] + [m];
      moves := moves + [m];
    }

    method UpdateSensorMode()
      modifies `sensorless
      ensures sensorless <==>
        conf.sensorMode == Sensorless || (conf.sensorMode == Hybrid && Abs(rpmNow) > conf.hallSlErpm)
    {
      sensorless := conf.sensorMode == Sensorless || (conf.sensorMode == Hybrid && Abs(Rpm()) > conf.hallSlErpm);
    }

    /** The two loops of commutate that bring any step number back into 1..6. */
    method WrapStep()
      modifies `commStep
      ensures 1 <= commStep <= 6 && Congruent(commStep, old(commStep))
    {
      hide Congruent;
      CongruentRefl(commStep);
      while commStep > 6
        invariant Congruent(commStep, old(commStep))
      {
        CongruentWrap(commStep, old(commStep));
        commStep := commStep - 6;
      }
      while commStep < 1
        invariant commStep <= 6 && Congruent(commStep, old(commStep))
      {
        CongruentWrap(commStep, old(commStep));
        commStep := commStep + 6;
      }
    }

    /** The part of commutate that advances and counts. */
    method AdvanceStep(steps: nat)
      requires StepsValid() && steps <= 2
      modifies `commStep, `lastStep, `tachometer, `tachometerAbs, `tachometerForDirection, `moves
      ensures StepsValid() && lastStep == commStep - 1 && commStep == (old(commStep) - 1 + steps) % 6 + 1
      ensures old(moves) <= moves && |moves| == |old(moves)| + 1
      ensures old(lastStep) == old(commStep) - 1 ==>
        && tachometerAbs == old(tachometerAbs) + steps
        && tachometer == old(tachometer) + (if direction then steps as int else -(steps as int))
        && (old(Forwards(moves)) ==> Forwards(moves))
    {
      hide Total, Net, Counted, Nearest, Congruent, InWindow, Forwards;
      commStep := commStep + steps;
      WrapStep();
      UpdateRpmTacho();
      ghost var d := tachometerAbs - old(tachometerAbs);
      NearestSum(Total(old(moves)), d, lastStep, old(lastStep));
      Extend(old(moves), Move(d, direction));
      Advance(old(commStep), commStep, old(lastStep), steps, d);
    }

    /** commutate: without hall sensors the step advances cyclically and the move is counted. */
    method Commutate(steps: nat)
      requires TachoValid() && steps <= 2
      modifies `commStep, `lastStep, `tachometer, `tachometerAbs, `tachometerForDirection, `moves
      modifies `sensorless, `hasCommutated, `pwmCycles
      ensures TachoValid()
      ensures conf.motorType == BLDC && old(sensorless) ==>
        commStep == (old(commStep) - 1 + steps) % 6 + 1 && lastStep == commStep - 1 && |moves| == |old(moves)| + 1
      ensures conf.motorType == BLDC && old(sensorless) && old(lastStep) == old(commStep) - 1 ==>
        && tachometerAbs == old(tachometerAbs) + steps
        && tachometer == old(tachometer) + (if direction then steps as int else -(steps as int))
      ensures old(moves) <= moves
      ensures !(conf.motorType == BLDC && old(sensorless)) ==>
        && commStep == old(commStep) && lastStep == old(lastStep) && moves == old(moves)
        && tachometerAbs == old(tachometerAbs) && tachometer == old(tachometer)
      ensures pwmCycles == 0
      ensures hasCommutated <==> old(hasCommutated) || state == Running || !(conf.motorType == BLDC && old(sensorless))
    {
      hide StepsValid, Forwards;
      pwmCycles := 0;
      if conf.motorType == BLDC && sensorless {
        AdvanceStep(steps);
        if state != Running {
          UpdateSensorMode();
          return;
        }
      }
      hasCommutated := true;
      UpdateSensorMode();
    }

    // ----- duty cycle setters -----

    method StopPwmLl()
      modifies `state
      ensures state == Off
    {
      state := Off;
    }

    method FullBrakeLl(ghost byCommand: bool)
      modifies `state, `brakes
      ensures state == FullBrake && brakes == old(brakes) + [Entry(conf, byCommand, controlMode, rpmNow, dutyNow)]
    {
      state := FullBrake;
      brakes := brakes + [Entry(conf, byCommand, controlMode, rpmNow, dutyNow)];
    }

    /** set_duty_cycle_hw: only a duty cycle in the allowed range reaches the timer. */
    method SetDutyCycleHw(duty: real)
      requires ValidConfig(conf)
      modifies `output
      ensures conf.lMinDuty <= output <= conf.lMaxDuty
      ensures conf.lMinDuty <= duty <= conf.lMaxDuty ==> output == duty
      ensures duty > conf.lMaxDuty ==> output == conf.lMaxDuty
    {
      output := Truncate(duty, conf.lMinDuty, conf.lMaxDuty);
    }

    /** Whether set_duty_cycle_ll makes the motor run, from the minimum duty cycle up. */
    predicate Starts(r: Reading): (b: bool)
      reads `conf, `sensorless, `state, `rpmNow
      ensures state in {Off, Running} ==> b
    {
      || conf.motorType == DC || !sensorless || state in {Off, Running}
      || (state == FullBrake && Abs(rpmNow) < conf.slMinErpm
          && r.currentFiltered < conf.slMaxFullbreakCurrentDirChange)
    }

    /** The part of set_duty_cycle_ll that starts the motor once the timer has its duty cycle. */
    method Start(r: Reading)
      requires Valid() && ValidReading(r)
      modifies `state
      modifies `commStep, `lastStep, `tachometer, `tachometerAbs, `tachometerForDirection, `moves
      modifies `sensorless, `hasCommutated, `pwmCycles
      ensures Valid() && old(moves) <= moves
      ensures state == if old(Starts(r)) then Running else old(state)
      ensures conf.motorType == DC || !old(sensorless) || old(state) in {Off, Running} ==> state == Running
      ensures conf.motorType == BLDC && old(sensorless) && old(state) == Detecting ==> state == Detecting
      ensures conf.motorType == BLDC && old(sensorless) && old(state) == FullBrake ==>
        state == if Abs(rpmNow) < conf.slMinErpm && r.currentFiltered < conf.slMaxFullbreakCurrentDirChange
                 then Running else FullBrake
      ensures conf.motorType == BLDC && !old(sensorless) && old(state) != Running ==> commStep == r.hall
      ensures conf.motorType == BLDC && old(sensorless) && old(state) == Off ==>
        commStep == if Abs(rpmNow) < conf.slMinErpm then old(commStep) % 6 + 1 else old(commStep)
      ensures conf.motorType == BLDC && old(state) == Running ==>
        && commStep == old(commStep) && lastStep == old(lastStep)
        && tachometerAbs == old(tachometerAbs) && moves == old(moves)
    {
      hide Total, Net, Counted, Congruent, InWindow, Forwards;
      if conf.motorType == DC {
        state := Running;
        Commutate(1);
      } else if sensorless {
        if state == Off {
          state := Running;
          if Abs(rpmNow) < conf.slMinErpm {
            Commutate(1);
          }
        } else if state == FullBrake {
          if Abs(rpmNow) < conf.slMinErpm && r.currentFiltered < conf.slMaxFullbreakCurrentDirChange {
            state := Running;
            Commutate(1);
          }
        }
      } else if state != Running {
        state := Running;
        commStep := r.hall;
        Commutate(1);
      }
    }

    /**
     set_duty_cycle_ll: from the minimum up, the timer follows the argument; below it, a running
     motor is braked only under the speed limit of its control mode, and otherwise runs at the minimum.
     */
    method SetDutyCycleLl(duty: real, r: Reading)
      requires Valid() && ValidReading(r)
      modifies `direction, `output, `brakes, `state
      modifies `commStep, `lastStep, `tachometer, `tachometerAbs, `tachometerForDirection, `moves
      modifies `sensorless, `hasCommutated, `pwmCycles
      ensures Valid() && old(moves) <= moves && old(brakes) <= brakes
      ensures conf.lMinDuty <= Abs(duty) ==>
        && Follows(duty) && brakes == old(brakes) && conf.lMinDuty <= output <= conf.lMaxDuty
        && state == if old(Starts(r)) then Running else old(state)
      ensures conf.motorType == BLDC && old(state) == Running ==>
        && commStep == old(commStep) && lastStep == old(lastStep)
        && tachometerAbs == old(tachometerAbs) && moves == old(moves)
      ensures Abs(duty) < conf.lMinDuty ==> direction == old(direction)
      ensures Abs(duty) < conf.lMinDuty && old(state) == Running ==>
        if Abs(rpmNow) > ModeLimit(conf, controlMode)
        then state == Running && output == conf.lMinDuty && brakes == old(brakes)
        else
          && state == FullBrake && output == old(output)
          && brakes == old(brakes) + [Entry(conf, false, controlMode, rpmNow, dutyNow)]
      ensures Abs(duty) < conf.lMinDuty && old(state) == Running ==>
        (state == FullBrake <==>
         Abs(rpmNow) <= if controlMode in {Current, CurrentBrake} then conf.maxErpmFbrakeCc else conf.maxErpmFbrake)
      ensures conf.lMinDuty <= Abs(duty) ==>
        output == (if Abs(duty) > conf.lMaxDuty then conf.lMaxDuty else Abs(duty)) && direction == (duty > 0.0)
      ensures Abs(duty) < conf.lMinDuty && old(state) != Running ==>
        && state == (if old(state) == Detecting then Off else old(state))
        && output == old(output) && brakes == old(brakes) && moves == old(moves)
    {
      hide TachoValid;
      var d := duty;
      if d >= conf.lMinDuty {
        direction := true;
      } else if d <= -conf.lMinDuty {
        d := -d;
        direction := false;
      }
      if d < conf.lMinDuty {
        match state {
          case Running =>
            if Abs(rpmNow) > ModeLimit(conf, controlMode) {
              d := conf.lMinDuty;
            } else {
              FullBrakeLl(false);
              return;
            }
          case Detecting =>
            StopPwmLl();
            return;
          case _ =>
            return;
        }
      } else if d > conf.lMaxDuty {
        d := conf.lMaxDuty;
      }
      SetDutyCycleHw(d);
      Start(r);
    }

    /** Slow enough for a full brake by command: in duty cycle for a DC motor, else in speed. */
    predicate Brakes()
      reads `conf, `dutyNow, `rpmNow
    {
      if conf.motorType == DC then Abs(dutyNow) <= 0.1 else Abs(rpmNow) <= conf.maxErpmFbrake
    }

    /** The brake decision of set_duty_cycle_hl and mcpwm_set_brake_current: coast down first when too fast. */
    method RunOrBrake()
      modifies `state, `brakes
      ensures if Brakes()
        then state == FullBrake && brakes == old(brakes) + [Entry(conf, true, controlMode, rpmNow, dutyNow)]
        else state == Running && brakes == old(brakes)
      ensures old(AllProper(brakes)) && controlMode in {Duty, CurrentBrake} ==> AllProper(brakes)
    {
      if conf.motorType == DC {
        if Abs(dutyNow) > 0.1 {
          state := Running;
        } else {
          FullBrakeLl(true);
        }
      } else {
        if Abs(rpmNow) > conf.maxErpmFbrake {
          state := Running;
        } else {
          FullBrakeLl(true);
        }
      }
    }

    /** set_duty_cycle_hl. */
    method SetDutyCycleHl(duty: real, r: Reading)
      requires Valid() && ValidReading(r)
      modifies `dutySet, `dutyNow, `direction, `output, `brakes, `state
      modifies `commStep, `lastStep, `tachometer, `tachometerAbs, `tachometerForDirection, `moves
      modifies `sensorless, `hasCommutated, `pwmCycles
      ensures Reach() <= old(Reach()) && TachoValid() && old(moves) <= moves && old(brakes) <= brakes
      ensures state != Detecting
      ensures controlMode == Duty || Abs(duty) >= conf.lMinDuty ==> Valid()
      ensures old(state) == Detecting ==>
        && state == Off && dutySet == old(dutySet) && dutyNow == old(dutyNow)
        && output == old(output) && brakes == old(brakes)
      ensures old(state) != Detecting ==> dutySet == Truncate(duty, -conf.lMaxDuty, conf.lMaxDuty)
      ensures old(state) == Running ==> state == Running && dutyNow == old(dutyNow) && brakes == old(brakes)
      ensures old(state) in {Off, FullBrake} && Abs(duty) >= conf.lMinDuty ==>
        && brakes == old(brakes) && Follows(dutyNow) && state == (if old(Starts(r)) then Running else FullBrake)
        && dutyNow == (if Abs(old(dutyNow)) >= conf.lMinDuty then old(dutyNow) else Along(duty, conf.lMinDuty))
      ensures old(state) in {Off, FullBrake} ==> state in {Running, FullBrake}
      ensures old(state) in {Off, FullBrake} && Abs(duty) < conf.lMinDuty ==>
        && dutyNow == old(dutyNow) && output == old(output)
        && (state == FullBrake <==> Brakes())
        && brakes == old(brakes) + (if Brakes() then [Entry(conf, true, controlMode, rpmNow, dutyNow)] else [])
      ensures old(state) in {Off, FullBrake} && Abs(duty) < conf.lMinDuty ==>
        (state == FullBrake <==>
         if conf.motorType == DC then Abs(dutyNow) <= 0.1 else Abs(rpmNow) <= conf.maxErpmFbrake)
    {
      hide Reach, TachoValid, Follows, Starts, AllProper;
      var d := Truncate(duty, -conf.lMaxDuty, conf.lMaxDuty);
      if state == Detecting {
        StopPwmLl();
        return;
      }
      dutySet := d;
      if state != Running {
        StartOrBrake(d, r);
      }
    }

    /** The last part of set_duty_cycle_hl, for a motor that does not run. */
    method StartOrBrake(d: real, r: Reading)
      requires Valid() && ValidReading(r) && state in {Off, FullBrake}
      modifies `dutyNow, `direction, `output, `brakes, `state
      modifies `commStep, `lastStep, `tachometer, `tachometerAbs, `tachometerForDirection, `moves
      modifies `sensorless, `hasCommutated, `pwmCycles
      ensures Reach() <= old(Reach()) && TachoValid() && old(moves) <= moves && old(brakes) <= brakes
      ensures controlMode == Duty || Abs(d) >= conf.lMinDuty ==> Valid()
      ensures Abs(d) >= conf.lMinDuty ==>
        && brakes == old(brakes) && Follows(dutyNow) && state == (if old(Starts(r)) then Running else FullBrake)
        && dutyNow == (if Abs(old(dutyNow)) >= conf.lMinDuty then old(dutyNow) else Along(d, conf.lMinDuty))
      ensures Abs(d) < conf.lMinDuty ==>
        && dutyNow == old(dutyNow) && output == old(output)
        && state == (if Brakes() then FullBrake else Running)
        && brakes == old(brakes) + (if Brakes() then [Entry(conf, true, controlMode, rpmNow, dutyNow)] else [])
    {
      hide Reach, TachoValid, Follows, Starts, Brakes, AllProper;
      if Abs(d) >= conf.lMinDuty {
        if Abs(dutyNow) < conf.lMinDuty {
          dutyNow := Along(d, conf.lMinDuty);
        }
        SetDutyCycleLl(dutyNow, r);
      } else {
        RunOrBrake();
      }
    }

    // ----- commands -----

    /** mcpwm_set_duty. */
    method SetDuty(duty: real, r: Reading)
      requires Valid() && ValidReading(r)
      modifies `controlMode, `dutySet, `dutyNow, `direction, `output, `brakes, `state
      modifies `commStep, `lastStep, `tachometer, `tachometerAbs, `tachometerForDirection, `moves
      modifies `sensorless, `hasCommutated, `pwmCycles
      ensures Valid() && Reach() <= old(Reach()) && old(moves) <= moves && old(brakes) <= brakes
      ensures controlMode == Duty && state != Detecting
      ensures old(state) != Detecting ==> dutySet == Truncate(duty, -conf.lMaxDuty, conf.lMaxDuty) && state != Off
      ensures old(state) == Detecting ==> state == Off && dutySet == old(dutySet)
      ensures old(state) in {Off, FullBrake} && Abs(duty) >= conf.lMinDuty ==>
        state == (if old(Starts(r)) then Running else FullBrake) && brakes == old(brakes)
      ensures old(state) == Running ==> state == Running && dutyNow == old(dutyNow) && brakes == old(brakes)
    {
      hide Reach, TachoValid, Follows, AllProper, Starts;
      controlMode := Duty;
      SetDutyCycleHl(duty, r);
    }

    /**
     mcpwm_set_duty_noramp: a running motor takes the argument as it is, so it is safe exactly for an
     argument in range.
     */
    method SetDutyNoramp(duty: real, r: Reading)
      requires Valid() && ValidReading(r)
      modifies `controlMode, `dutySet, `dutyNow, `direction, `output, `brakes, `state
      modifies `commStep, `lastStep, `tachometer, `tachometerAbs, `tachometerForDirection, `moves
      modifies `sensorless, `hasCommutated, `pwmCycles
      ensures Valid() && old(moves) <= moves && old(brakes) <= brakes && controlMode == Duty
      ensures old(InRange()) ==> (InRange() <==> old(state) != Running || Within(duty, conf.lMaxDuty))
      ensures old(state) != Running ==> Reach() <= old(Reach())
      ensures state != Detecting
      ensures old(state) == Running ==> dutySet == dutyNow == duty
      ensures old(state) in {Off, FullBrake} ==> dutySet == Truncate(duty, -conf.lMaxDuty, conf.lMaxDuty)
      ensures old(state) == Running && Within(duty, conf.lMaxDuty) && Abs(duty) >= conf.lMinDuty ==> Follows(duty)
    {
      hide Reach, TachoValid, Follows, AllProper;
      controlMode := Duty;
      if state != Running {
        SetDutyCycleHl(duty, r);
      } else {
        dutySet := duty;
        dutyNow := duty;
        SetDutyCycleLl(duty, r);
      }
    }

    /** mcpwm_set_pid_speed. */
    method SetPidSpeed(rpm: real)
      modifies `controlMode, `speedSet
      ensures controlMode == Speed && speedSet == rpm
    {
      controlMode := Speed;
      speedSet := rpm;
    }

    /** mcpwm_set_pid_pos. */
    method SetPidPos(r: Reading)
      requires Valid() && ValidReading(r)
      modifies `controlMode, `dutySet, `dutyNow, `direction, `output, `brakes, `state
      modifies `commStep, `lastStep, `tachometer, `tachometerAbs, `tachometerForDirection, `moves
      modifies `sensorless, `hasCommutated, `pwmCycles
      ensures Valid() && Reach() <= old(Reach()) && old(moves) <= moves && brakes == old(brakes)
      ensures controlMode == Pos && state != Detecting
      ensures old(state) == Running ==> state == Running && dutySet == old(dutySet) && dutyNow == old(dutyNow)
      ensures old(state) in {Off, FullBrake} ==>
        && dutySet == conf.lMinDuty && Abs(dutyNow) >= conf.lMinDuty && Follows(dutyNow)
        && state == (if old(Starts(r)) then Running else FullBrake)
    {
      hide Reach, TachoValid, Follows, AllProper, Starts;
      controlMode := Pos;
      if state != Running {
        SetDutyCycleHl(conf.lMinDuty, r);
      }
    }

    /** mcpwm_stop_pwm. */
    method StopPwm()
      modifies `controlMode, `state
      ensures controlMode == NoControl && state == Off
    {
      controlMode := NoControl;
      StopPwmLl();
    }

    /** mcpwm_set_current: starting by current never brakes. */
    method SetCurrent(current: real, r: Reading)
      requires Valid() && ValidReading(r)
      modifies `controlMode, `currentSet, `dutySet, `dutyNow, `direction, `output, `brakes, `state
      modifies `commStep, `lastStep, `tachometer, `tachometerAbs, `tachometerForDirection, `moves
      modifies `sensorless, `hasCommutated, `pwmCycles
      ensures Valid() && Reach() <= old(Reach()) && old(moves) <= moves && brakes == old(brakes) && state != Detecting
      ensures if Abs(current) < conf.ccMinCurrent
        then controlMode == NoControl && state == Off && currentSet == old(currentSet)
        else controlMode == Current && currentSet == Truncate(current, conf.loCurrentMin, conf.loCurrentMax)
      ensures Abs(current) >= conf.ccMinCurrent && old(state) == Running ==>
        state == Running && dutySet == old(dutySet) && dutyNow == old(dutyNow)
      ensures Abs(current) >= conf.ccMinCurrent && old(state) in {Off, FullBrake} ==>
        && dutySet == Along(currentSet, conf.lMinDuty) && Abs(dutyNow) >= conf.lMinDuty && Follows(dutyNow)
        && state == (if old(Starts(r)) then Running else FullBrake)
    {
      hide Reach, TachoValid, Follows, AllProper, Starts;
      if Abs(current) < conf.ccMinCurrent {
        controlMode := NoControl;
        StopPwmLl();
        return;
      }
      var c := Truncate(current, conf.loCurrentMin, conf.loCurrentMax);
      controlMode := Current;
      currentSet := c;
      if state != Running {
        SetDutyCycleHl(Along(c, conf.lMinDuty), r);
      }
    }

    /** mcpwm_set_brake_current: a motor at rest or free-running is braked exactly below the plain speed limit. */
    method SetBrakeCurrent(current: real)
      requires Valid()
      modifies `controlMode, `currentSet, `brakes, `state
      ensures Valid() && old(brakes) <= brakes
      ensures Abs(current) < conf.ccMinCurrent ==> controlMode == NoControl && state == Off && brakes == old(brakes)
      ensures Abs(current) >= conf.ccMinCurrent ==>
        controlMode == CurrentBrake && currentSet == Truncate(current, -Abs(conf.loCurrentMin), Abs(conf.loCurrentMin))
      ensures Abs(current) >= conf.ccMinCurrent && old(state) in {Running, FullBrake} ==>
        state == old(state) && brakes == old(brakes)
      ensures Abs(current) >= conf.ccMinCurrent && old(state) in {Off, Detecting} ==>
        && (state == FullBrake <==> Brakes())
        && state in {Running, FullBrake}
        && brakes == old(brakes) + (if Brakes() then [Entry(conf, true, CurrentBrake, rpmNow, dutyNow)] else [])
      ensures Brakes() <==> if conf.motorType == DC then Abs(dutyNow) <= 0.1 else Abs(rpmNow) <= conf.maxErpmFbrake
    {
      hide TachoValid, AllProper;
      if Abs(current) < conf.ccMinCurrent {
        controlMode := NoControl;
        StopPwmLl();
        return;
      }
      controlMode := CurrentBrake;
      currentSet := Truncate(current, -Abs(conf.loCurrentMin), Abs(conf.loCurrentMin));
      if state != Running && state != FullBrake {
        RunOrBrake();
      }
    }

    /** mcpwm_set_detect; blocked is the answer of mc_interface_try_input. */
    method SetDetect(blocked: bool)
      modifies `controlMode, `state
      ensures if blocked then controlMode == old(controlMode) && state == old(state)
        else controlMode == NoControl && state == Detecting
    {
      if blocked {
        return;
      }
      controlMode := NoControl;
      state := Detecting;
    }

    /** The assignment of a new configuration in mcpwm_set_configuration. */
    method Configure(c: Config)
      requires ValidConfig(c)
      modifies `conf, `detected
      ensures conf == c
      ensures detected <==> old(detected) || c.sensorMode != old(conf).sensorMode
    {
      detected := detected || c.sensorMode != conf.sensorMode;
      conf := c;
    }

    /** mcpwm_set_configuration: stops the motor; the duty cycles are only brought into the new range later. */
    method SetConfiguration(c: Config)
      requires Valid() && ValidConfig(c)
      modifies `conf, `controlMode, `state, `sensorless, `detected
      ensures Valid() && conf == c && controlMode == NoControl && state == Off
      ensures InRange() <==> Within(old(dutyNow), c.lMaxDuty) && Within(old(dutySet), c.lMaxDuty)
      ensures c.lMaxDuty >= old(Reach()) ==> InRange()
      ensures detected <==> old(detected) || c.sensorMode != old(conf).sensorMode
    {
      hide StepsValid, Forwards, AllProper, ValidConfig;
      controlMode := NoControl;
      StopPwmLl();
      Configure(c);
      UpdateSensorMode();
    }

    /** mcpwm_get_tachometer_value. */
    method GetTachometer(reset: bool) returns (val: int)
      requires Valid()
      modifies `tachometer, `netFrom
      ensures Valid() && val == old(tachometer)
      ensures tachometer == (if reset then 0 else val) && netFrom == if reset then |moves| else old(netFrom)
    {
      hide ValidConfig, SensorsValid, AllProper, Congruent, InWindow;
      assert moves[|moves|..] == [];
      val := tachometer;
      if reset {
        tachometer := 0;
        netFrom := |moves|;
      }
    }

    /** mcpwm_get_tachometer_abs_value. */
    method GetTachometerAbs(reset: bool) returns (val: int)
      requires Valid()
      modifies `tachometerAbs, `absFrom
      ensures Valid() && val == old(tachometerAbs)
      ensures tachometerAbs == (if reset then 0 else val) && absFrom == if reset then |moves| else old(absFrom)
    {
      hide ValidConfig, SensorsValid, AllProper, Congruent, InWindow;
      assert moves[|moves|..] == [];
      val := tachometerAbs;
      if reset {
        tachometerAbs := 0;
        absFrom := |moves|;
      }
    }

    // ----- threads and interrupts -----

    /** The speed measurement of rpm_thread: moved when commutations were counted since the last round. */
    method MeasureSpeed(moved: bool, speed: real)
      modifies `rpmNow, `rpmP1
      ensures rpmNow == rpmP1
      ensures 2.0 * rpmNow - old(rpmP1) == if moved || Abs(speed) < Abs(old(rpmNow)) then speed else old(rpmNow)
    {
      if moved || Abs(speed) < Abs(rpmNow) {
        rpmNow := speed;
      }
      rpmNow := (rpmNow + rpmP1) / 2.0;
      rpmP1 := rpmNow;
    }

    /** run_pid_control_speed from the sum of its terms on: never against the requested speed. */
    method RunPidControlSpeed(sum: real, r: Reading)
      requires Valid() && ValidReading(r)
      modifies `controlMode, `dutySet, `dutyNow, `direction, `output, `brakes, `state
      modifies `commStep, `lastStep, `tachometer, `tachometerAbs, `tachometerForDirection, `moves
      modifies `sensorless, `hasCommutated, `pwmCycles
      ensures Valid() && Reach() <= old(Reach()) && old(moves) <= moves && old(brakes) <= brakes
      ensures state == Detecting ==> old(state) == Detecting
      ensures old(controlMode) != Speed ==>
        && controlMode == old(controlMode) && dutySet == old(dutySet) && dutyNow == old(dutyNow)
        && state == old(state) && brakes == old(brakes)
      ensures old(controlMode) == Speed && Abs(speedSet) >= conf.sPidMinErpm && old(state) != Detecting ==>
        && controlMode == Speed && brakes == old(brakes) && Abs(dutySet) >= conf.lMinDuty
        && (speedSet > 0.0 ==> dutySet > 0.0) && (speedSet < 0.0 ==> dutySet < 0.0)
        && (speedSet >= 0.0 && conf.lMinDuty <= sum <= conf.lMaxDuty ==> dutySet == sum)
        && (speedSet <= 0.0 && conf.lMinDuty <= -sum <= conf.lMaxDuty ==> dutySet == sum)
      ensures old(controlMode) == Speed && Abs(speedSet) < conf.sPidMinErpm ==>
        controlMode == Duty && (old(state) != Detecting ==> dutySet == 0.0)
    {
      hide Reach, TachoValid, Follows, AllProper, Starts;
      if controlMode != Speed {
        return;
      }
      if Abs(speedSet) < conf.sPidMinErpm {
        SetDuty(0.0, r);
        return;
      }
      var out := sum;
      if Abs(out) < conf.lMinDuty {
        out := Along(out, conf.lMinDuty);
      }
      if speedSet > 0.0 && out < 0.0 {
        out := conf.lMinDuty;
      } else if speedSet < 0.0 && out > 0.0 {
        out := -conf.lMinDuty;
      }
      SetDutyCycleHl(out, r);
    }

    /** The last lines of run_pid_control_pos: the position loop sets a current. */
    method RunPidControlPos(sum: real)
      modifies `currentSet
      ensures currentSet == if controlMode == Pos then Truncate(sum, -1.0, 1.0) * conf.loCurrentMax else old(currentSet)
    {
      if controlMode == Pos {
        currentSet := Truncate(sum, -1.0, 1.0) * conf.loCurrentMax;
      }
    }

    /** The duty cycle that matches a back-EMF amplitude. */
    method FollowAmplitude(amp: real, supply: real)
      requires ValidConfig(conf) && supply > 0.0
      modifies `dutyNow
      ensures Within(dutyNow, conf.lMaxDuty) && Reach() <= old(Reach())
      ensures amp > 0.0 ==> (direction <==> dutyNow > 0.0)
      ensures Within(amp, Voltage(conf.lMaxDuty, supply)) ==>
        Voltage(dutyNow, supply) == if direction then amp else -amp
    {
      hide Truncate, Reach, Voltage;
      AmplitudeDuty(amp, supply, direction, conf.lMaxDuty);
      dutyNow := Truncate(if direction then amp / supply else -(amp / supply), -conf.lMaxDuty, conf.lMaxDuty);
    }

    /** When the tracked direction of an undriven motor flips. */
    method TrackDirection(uneven: bool)
      modifies `direction, `tachometerForDirection
      ensures direction != old(direction) <==>
        if sensorless then uneven && old(tachometerForDirection) > 12 else old(tachometerForDirection) < -3
      ensures direction != old(direction) ==> tachometerForDirection == 0
    {
      if sensorless {
        if uneven {
          if tachometerForDirection > 12 {
            direction := !direction;
            tachometerForDirection := 0;
          }
        } else {
          tachometerForDirection := 0;
        }
      } else if tachometerForDirection < -3 {
        direction := !direction;
        tachometerForDirection := 0;
      } else if tachometerForDirection > 0 {
        tachometerForDirection := 0;
      }
    }

    /**
     timer_thread: with the output off, dutycycle_now follows the back-EMF. uneven tells whether the
     last commutation times differ too much for the assumed direction.
     */
    method TrackBackEmf(amplitude: real, supply: real, uneven: bool)
      requires Valid() && supply > 0.0
      modifies `direction, `dutyNow, `tachometerForDirection
      ensures Reach() <= old(Reach())
      ensures state != Off ==> dutyNow == old(dutyNow) && direction == old(direction)
      ensures state == Off ==> Within(dutyNow, conf.lMaxDuty)
      ensures state == Off && conf.motorType == DC ==>
        direction == (amplitude <= 0.0) && (amplitude < 0.0 ==> dutyNow > 0.0)
      ensures state == Off && amplitude > 0.0 ==> direction == (dutyNow > 0.0)
      ensures state == Off && Within(amplitude, Voltage(conf.lMaxDuty, supply)) ==>
        Voltage(dutyNow, supply) == if conf.motorType == DC || !direction then -amplitude else amplitude
      ensures state == Off && conf.motorType == BLDC ==>
        (direction != old(direction) <==>
         if sensorless then uneven && old(tachometerForDirection) > 12 else old(tachometerForDirection) < -3)
      ensures state == Off && conf.motorType == BLDC && direction != old(direction) ==> tachometerForDirection == 0
    {
      hide Reach, TachoValid, AllProper, Voltage;
      if state != Off {
        tachometerForDirection := 0;
        return;
      }
      var amp := amplitude;
      if conf.motorType == DC {
        direction := !(amp > 0.0);
        if !(amp > 0.0) {
          amp := -amp;
        }
      } else {
        TrackDirection(uneven);
      }
      FollowAmplitude(amp, supply);
    }

    /** The detection step of mcpwm_adc_inj_int_handler; due when its countdown is over. */
    method InjectedInterrupt(due: bool)
      requires Valid()
      modifies `detectStep, `commStep, `output, `detected
      ensures Valid()
      ensures !(state == Detecting && due) ==> commStep == old(commStep) && detected == old(detected)
      ensures state == Detecting && due ==> detectStep == (old(detectStep) + 1) % 6 && commStep == detectStep + 1
    {
      hide Total, Counted, Congruent, InWindow, Forwards, AllProper;
      if state == Detecting && due {
        SetDutyCycleHw(0.2);
        detectStep := detectStep + 1;
        if detectStep > 5 {
          detectStep := 0;
        }
        commStep := detectStep + 1;
        detected := true;
      }
    }

    /** The commutation part of mcpwm_adc_int_handler with hall sensors. */
    method FollowHall(hall: int)
      requires TachoValid() && 1 <= hall <= 6 && !sensorless && conf.motorType == BLDC
      modifies `commStep, `lastStep, `tachometer, `tachometerAbs, `tachometerForDirection, `moves
      modifies `sensorless, `hasCommutated, `pwmCycles
      ensures TachoValid() && old(moves) <= moves && commStep == hall
      ensures hasCommutated <==> old(hasCommutated) || state == Running
      ensures old(lastStep) == old(commStep) - 1 ==>
        lastStep == commStep - 1 && Nearest(tachometerAbs - old(tachometerAbs), lastStep, old(lastStep))
    {
      hide Total, Net, Counted, Congruent, Nearest, InWindow, Forwards;
      NearestZero(lastStep);
      if commStep != hall {
        commStep := hall;
        UpdateRpmTacho();
        NearestSum(Total(old(moves)), tachometerAbs - old(tachometerAbs), lastStep, old(lastStep));
        Extend(old(moves), Move(tachometerAbs - old(tachometerAbs), direction));
        if state == Running {
          Commutate(0);
        }
      } else if state == Running && !hasCommutated {
        Commutate(0);
      }
    }

    /** Whether an interrupt without sensors looks for a zero crossing. */
    predicate Watching()
      reads `state, `pwmCycles
    {
      (state == Running && pwmCycles >= 2) || state == Off
    }

    /**
     The same without sensors: a stuck motor is kicked by one or two steps; otherwise a zero crossing,
     if it is looked for, advances by one.
     */
    method FollowBackEmf(stuck: bool, crossed: bool)
      requires TachoValid() && sensorless && conf.motorType == BLDC
      modifies `commStep, `lastStep, `tachometer, `tachometerAbs, `tachometerForDirection, `moves
      modifies `sensorless, `hasCommutated, `pwmCycles
      ensures TachoValid() && old(moves) <= moves
      ensures hasCommutated <==>
        old(hasCommutated) || (state == Running && (stuck || (crossed && old(pwmCycles) >= 2)))
      ensures conf.sensorMode == Sensorless && !detected ==>
        tachometerAbs - old(tachometerAbs) ==
        if stuck && state == Running then (if conf.integrate then 2 else 1)
        else if crossed && old(Watching()) then 1 else 0
    {
      hide Total, Net, Counted, Congruent, Nearest, InWindow, Forwards;
      if stuck && state == Running {
        Commutate(if conf.integrate then 2 else 1);
      }
      if crossed && Watching() {
        Commutate(1);
      }
      pwmCycles := pwmCycles + 1;
    }

    /** The commutation part of mcpwm_adc_int_handler. */
    method CommutationPart(s: Sample)
      requires Valid() && ValidSample(s)
      modifies `directionBefore
      modifies `commStep, `lastStep, `tachometer, `tachometerAbs, `tachometerForDirection, `moves
      modifies `sensorless, `hasCommutated, `pwmCycles
      ensures Valid() && old(moves) <= moves
      ensures directionBefore == direction && (hasCommutated ==> state == Running)
      ensures hasCommutated <==>
        && state == Running
        && (|| conf.motorType == DC || !old(sensorless) || (old(hasCommutated) && direction == old(directionBefore))
            || s.stuck || (s.crossed && old(pwmCycles) >= 2))
      ensures conf.motorType == BLDC && conf.sensorMode == Sensored && old(lastStep) == old(commStep) - 1 ==>
        && commStep == s.r.hall && lastStep == commStep - 1
        && Nearest(tachometerAbs - old(tachometerAbs), lastStep, old(lastStep))
      ensures conf.motorType == BLDC && conf.sensorMode == Sensorless && !detected ==>
        tachometerAbs - old(tachometerAbs) ==
        if s.stuck && state == Running then (if conf.integrate then 2 else 1)
        else if s.crossed && old(Watching()) then 1 else 0
    {
      hide StepsValid, Forwards, Nearest, AllProper;
      if !(state == Running && direction == directionBefore) {
        hasCommutated := false;
      }
      directionBefore := direction;
      if conf.motorType == DC {
        if state == Running && !hasCommutated {
          Commutate(0);
        }
      } else if sensorless {
        FollowBackEmf(s.stuck, s.crossed);
      } else {
        FollowHall(s.r.hall);
      }
    }

    // ----- the duty cycle control of mcpwm_adc_int_handler -----

    /** The step of the current controller: limited, rescaled, slowed while recovering, with the error's sign. */
    method CurrentStep(s: Sample, error: real) returns (step: real)
      requires ValidConfig(conf) && ValidSample(s)
      modifies `slowRampingCycles
      ensures Within(step, PerKhz(conf.ccRampStepMax, s.frequency))
      ensures conf.ccGain >= 0.0 ==> (error >= 0.0 ==> step >= 0.0) && (error <= 0.0 ==> step <= 0.0)
      ensures slowRampingCycles == OneLess(old(slowRampingCycles))
      ensures step == CurrentStepOf(conf, s, error, old(slowRampingCycles))
    {
      hide Demand, PerKhz, Truncate;
      StepBound(conf, s, error, slowRampingCycles);
      step := Truncate(Demand(conf, s, error), -conf.ccRampStepMax, conf.ccRampStepMax);
      step := PerKhz(step, s.frequency);
      if slowRampingCycles > 0 {
        slowRampingCycles := slowRampingCycles - 1;
        step := step * 0.1;
      }
    }

    ghost function Controls(): Control
      reads `conf, `controlMode, `direction, `rpmNow, `dutyNow, `dutySet, `currentSet, `slowRampingCycles
    {
      Control(conf, controlMode, direction, rpmNow, dutyNow, dutySet, currentSet, slowRampingCycles)
    }

    /** The first part of current control, before the range and the minimum are applied. */
    method AimForCurrent(s: Sample, ramp: real) returns (target: real)
      requires ValidConfig(conf) && ValidSample(s) && ramp >= 0.0
      modifies `slowRampingCycles
      ensures Within(target - dutyNow, RateOf(conf, ramp, s.frequency))
      ensures Abs(dutyNow) >= StartBoost(conf, s) && conf.ccGain >= 0.0 ==>
        && (CurrentError(currentSet, direction, s) >= 0.0 ==> target >= dutyNow)
        && (CurrentError(currentSet, direction, s) <= 0.0 ==> target <= dutyNow)
      ensures Abs(dutyNow) < StartBoost(conf, s) ==>
        && (currentSet > 0.0 ==> target >= dutyNow)
        && (currentSet <= 0.0 ==> target <= dutyNow)
      ensures target == Aim(old(Controls()), s, ramp) && slowRampingCycles == OneLess(old(slowRampingCycles))
    {
      hide PerKhz, StepTowards, StartBoost, CurrentStepOf;
      AimBound(Controls(), s, ramp);
      target := dutyNow;
      var step := CurrentStep(s, currentSet - (if direction then s.current else -s.current));
      var startBoost := StartBoost(conf, s);
      if Abs(target) < startBoost {
        target := StepTowards(target, if currentSet > 0.0 then startBoost else -startBoost, ramp);
      } else {
        target := target + step;
      }
    }

    /** Current control: the duty cycle moves with the sign of the error, or towards the start-up boost. */
    method RegulateCurrent(s: Sample, ramp: real) returns (target: real)
      requires ValidConfig(conf) && ValidSample(s) && ramp >= 0.0
      modifies `dutySet, `slowRampingCycles
      ensures Reach() <= old(Reach()) && Within(target, conf.lMaxDuty)
      ensures Within(dutyNow, conf.lMaxDuty) ==>
        Within(target - dutyNow, RateOf(conf, ramp, s.frequency)) || Abs(target) == conf.lMinDuty
      ensures dutySet == if target >= 0.0 then conf.lMinDuty else -conf.lMinDuty
      ensures currentSet != 0.0 && Abs(target) < conf.lMinDuty && target != 0.0 ==> (target > 0.0 <==> currentSet > 0.0)
      ensures Within(dutyNow, conf.lMaxDuty) && Abs(dutyNow) >= StartBoost(conf, s) && conf.ccGain >= 0.0 ==>
        && (CurrentError(currentSet, direction, s) >= 0.0 ==> target >= dutyNow || Abs(target) == conf.lMinDuty)
        && (CurrentError(currentSet, direction, s) <= 0.0 ==> target <= dutyNow || Abs(target) == conf.lMinDuty)
      ensures Within(dutyNow, conf.lMaxDuty) && Abs(dutyNow) < StartBoost(conf, s) ==>
        && (currentSet > 0.0 ==> target >= dutyNow)
        && (currentSet <= 0.0 ==> target <= dutyNow || target == conf.lMinDuty)
      ensures target == CurrentTarget(old(Controls()), s, ramp) && slowRampingCycles == OneLess(old(slowRampingCycles))
    {
      hide Aim, Reach, PerKhz, TachoValid, StepTowards, StartBoost, RateOf, CurrentError, CurrentTarget, Within;
      CurrentTargetBound(Controls(), s, ramp);
      target := CurrentInRange(s, ramp);
      HoldMinimum(target >= 0.0);
    }

    /** The same up to the minimum. */
    method CurrentInRange(s: Sample, ramp: real) returns (target: real)
      requires ValidConfig(conf) && ValidSample(s) && ramp >= 0.0
      modifies `slowRampingCycles
      ensures target == CurrentTarget(old(Controls()), s, ramp) && slowRampingCycles == OneLess(old(slowRampingCycles))
    {
      hide Aim, PerKhz, StepTowards, StartBoost, RateOf, CurrentError;
      target := AimForCurrent(s, ramp);
      target := Truncate(target, -conf.lMaxDuty, conf.lMaxDuty);
      if Abs(target) < conf.lMinDuty {
        if target < 0.0 && currentSet > 0.0 {
          target := conf.lMinDuty;
        } else if target > 0.0 && currentSet < 0.0 {
          target := -conf.lMinDuty;
        }
      }
    }

    /** Current control leaves the minimum in dutycycle_set, for the case that it ends. */
    method HoldMinimum(forward: bool)
      requires ValidConfig(conf)
      modifies `dutySet
      ensures dutySet == (if forward then conf.lMinDuty else -conf.lMinDuty) && Reach() <= old(Reach())
    {
      hide Reach;
      dutySet := if forward then conf.lMinDuty else -conf.lMinDuty;
    }

    /** The first part of current braking, before the minimum is applied. */
    method AimForBrake(s: Sample) returns (target: real)
      requires ValidConfig(conf) && ValidSample(s)
      modifies `slowRampingCycles
      ensures target == BrakeAim(old(Controls()), s) && slowRampingCycles == OneLess(old(slowRampingCycles))
    {
      hide CurrentStepOf, PerKhz, Truncate;
      target := dutyNow;
      var step := CurrentStep(s, -Abs(currentSet) - s.current);
      target := target + Along(target, step);
      target := Truncate(target, -conf.lMaxDuty, conf.lMaxDuty);
    }

    /**
     Current braking: the duty cycle is lowered while the motor generates less than the set current,
     raised when it generates more, and ends at zero only below the speed limit.
     */
    method RegulateBrake(s: Sample) returns (target: real)
      requires ValidConfig(conf) && ValidSample(s)
      modifies `dutySet, `slowRampingCycles
      ensures Reach() <= old(Reach()) && Within(target, conf.lMaxDuty)
      ensures Within(dutyNow, conf.lMaxDuty) ==>
        || Within(target - dutyNow, PerKhz(conf.ccRampStepMax, s.frequency))
        || target == 0.0 || Abs(target) == conf.lMinDuty
      ensures Abs(target) < conf.lMinDuty ==> target == 0.0 && dutySet == 0.0 && Abs(rpmNow) < conf.maxErpmFbrakeCc
      ensures Abs(target) > conf.lMinDuty ==> dutySet == old(dutySet)
      ensures Within(dutyNow, conf.lMaxDuty) && Abs(target) > conf.lMinDuty && conf.ccGain >= 0.0 ==>
        && (-s.current <= Abs(currentSet) ==> Along(dutyNow, target - dutyNow) <= 0.0)
        && (-s.current >= Abs(currentSet) ==> Along(dutyNow, target - dutyNow) >= 0.0)
      ensures target == BrakeTarget(old(Controls()), s) && slowRampingCycles == OneLess(old(slowRampingCycles))
      ensures dutySet == if Abs(BrakeAim(old(Controls()), s)) < conf.lMinDuty then target else old(dutySet)
    {
      hide BrakeAim, CurrentStepOf, Reach, PerKhz, TachoValid;
      BrakeTargetBound(Controls(), s);
      target := AimForBrake(s);
      if Abs(target) < conf.lMinDuty {
        if Abs(rpmNow) < conf.maxErpmFbrakeCc {
          target := 0.0;
          dutySet := target;
        } else {
          target := Along(target, conf.lMinDuty);
          dutySet := target;
        }
      }
    }

    /** The duty cycle each control mode moves to next: in range, and a bounded step away unless at the minimum. */
    method Regulate(s: Sample, ramp: real) returns (target: real)
      requires ValidConfig(conf) && ValidSample(s) && ramp >= 0.0
      modifies `dutySet, `slowRampingCycles
      ensures Reach() <= old(Reach()) && Within(target, Reach())
      ensures Within(dutyNow, conf.lMaxDuty) && Within(dutySet, conf.lMaxDuty) ==> Within(target, conf.lMaxDuty)
      ensures Within(dutyNow, conf.lMaxDuty) ==>
        Within(target - dutyNow, RateOf(conf, ramp, s.frequency)) || target == 0.0 || Abs(target) == conf.lMinDuty
      ensures controlMode !in {Current, CurrentBrake, Pos} ==>
        target == StepTowards(dutyNow, dutySet, ramp) && dutySet == old(dutySet)
      ensures controlMode in {Current, Pos} ==> dutySet == if target >= 0.0 then conf.lMinDuty else -conf.lMinDuty
      ensures controlMode == CurrentBrake && Abs(target) < conf.lMinDuty ==>
        target == 0.0 && dutySet == 0.0 && Abs(rpmNow) < conf.maxErpmFbrakeCc
      ensures target == Target(old(Controls()), s, ramp) && dutySet == SetAfter(old(Controls()), s, ramp)
      ensures slowRampingCycles == SlowAfter(old(Controls()))
    {
      hide CurrentTarget, BrakeTarget, BrakeAim, Reach, PerKhz, TachoValid, StepTowards;
      if controlMode == Current || controlMode == Pos {
        target := RegulateCurrent(s, ramp);
      } else if controlMode == CurrentBrake {
        target := RegulateBrake(s);
      } else {
        StepTowardsSpec(dutyNow, dutySet, ramp);
        target := StepTowards(dutyNow, dutySet, ramp);
      }
    }

    /** The current limits, in priority order; tells whether one of them acts. */
    method LimitCurrent(s: Sample, ramp: real) returns (hit: bool)
      requires ValidConfig(conf) && ramp >= 0.0 && limitDelay == 0
      modifies `dutyNow, `limitDelay
      ensures match LimitOf(conf, direction, s, old(dutyNow))
        case Towards(goal, excess) =>
          && hit && limitDelay == 1 && Between(dutyNow, old(dutyNow), goal)
          && dutyNow == StepTowards(old(dutyNow), goal, Backoff(ramp, excess, conf.currentBackoffGain))
        case NoLimit => !hit && limitDelay == 0 && dutyNow == old(dutyNow)
    {
      hide Backoff, StepTowards, Between;
      var input := s.current * Abs(dutyNow);
      var outer := if direction then conf.lMaxDuty else -conf.lMaxDuty;
      ghost var limit := LimitOf(conf, direction, s, dutyNow);
      hit := true;
      if s.current > conf.loCurrentMax {
        assert limit == Towards(0.0, s.current - conf.loCurrentMax);
        Back(ramp, s.current - conf.loCurrentMax, 0.0);
      } else if s.current < conf.loCurrentMin {
        assert limit == Towards(outer, s.current - conf.loCurrentMin);
        Back(ramp, s.current - conf.loCurrentMin, outer);
      } else if input > conf.loInCurrentMax {
        assert limit == Towards(0.0, input - conf.loInCurrentMax);
        Back(ramp, input - conf.loInCurrentMax, 0.0);
      } else if input < conf.loInCurrentMin {
        assert limit == Towards(outer, input - conf.loInCurrentMin);
        Back(ramp, input - conf.loInCurrentMin, outer);
      } else {
        hit := false;
      }
    }

    /**
     The limits in priority order. Any current limit replaces the regulator: drawing too much moves the
     duty cycle towards zero, generating too much moves it outwards.
     */
    method ApplyLimits(s: Sample, target: real, ramp: real)
      requires ValidConfig(conf) && Within(target, Reach()) && ramp >= 0.0 && limitDelay == 0
      modifies `dutyNow, `limitDelay, `slowRampingCycles
      ensures Reach() <= old(Reach()) && limitDelay == 0
      ensures match LimitOf(conf, direction, s, old(dutyNow))
        case Towards(goal, excess) =>
          && dutyNow == StepTowards(old(dutyNow), goal, Backoff(ramp, excess, conf.currentBackoffGain))
          && Between(dutyNow, old(dutyNow), goal) && slowRampingCycles == old(slowRampingCycles)
        case NoLimit =>
          if TooFast(conf, Rpm(), s, old(dutyNow), target)
          then dutyNow == StepTowards(old(dutyNow), 0.0, conf.dutyRampStepRpmLim) && slowRampingCycles == 500
          else dutyNow == target && slowRampingCycles == old(slowRampingCycles)
      ensures (dutyNow, slowRampingCycles) == Limited(old(Controls()), s, target, ramp)
    {
      hide Reach, Backoff, StepTowards;
      var duty := dutyNow;
      GoalInRange(s, duty);
      var hit := LimitCurrent(s, ramp);
      if !hit {
        if Rpm() > conf.maxErpm {
          if (conf.rpmLimNegTorque || s.r.currentFiltered > -1.0) && duty <= target {
            SlowDown();
          }
        } else if Rpm() < conf.minErpm {
          if (conf.rpmLimNegTorque || s.r.currentFiltered > -1.0) && duty >= target {
            SlowDown();
          }
        }
      }
      if limitDelay > 0 {
        limitDelay := limitDelay - 1;
      } else {
        dutyNow := target;
      }
    }

    lemma GoalInRange(s: Sample, duty: real)
      requires ValidConfig(conf)
      ensures var limit := LimitOf(conf, direction, s, duty);
        limit.Towards? ==> Within(limit.goal, conf.lMaxDuty)
    {
    }

    method Back(ramp: real, excess: real, goal: real)
      requires ValidConfig(conf) && ramp >= 0.0
      modifies `dutyNow, `limitDelay
      ensures dutyNow == StepTowards(old(dutyNow), goal, Backoff(ramp, excess, conf.currentBackoffGain))
      ensures Between(dutyNow, old(dutyNow), goal) && limitDelay == 1
    {
      BackoffNonNegative(ramp, excess, conf.currentBackoffGain);
      StepTowardsSpec(dutyNow, goal, Backoff(ramp, excess, conf.currentBackoffGain));
      dutyNow := StepTowards(dutyNow, goal, Backoff(ramp, excess, conf.currentBackoffGain));
      limitDelay := 1;
    }

    method SlowDown()
      requires ValidConfig(conf)
      modifies `dutyNow, `limitDelay, `slowRampingCycles
      ensures dutyNow == StepTowards(old(dutyNow), 0.0, conf.dutyRampStepRpmLim) && Between(dutyNow, old(dutyNow), 0.0)
      ensures limitDelay == 1 && slowRampingCycles == 500
    {
      StepTowardsSpec(dutyNow, 0.0, conf.dutyRampStepRpmLim);
      dutyNow := StepTowards(dutyNow, 0.0, conf.dutyRampStepRpmLim);
      limitDelay := 1;
      slowRampingCycles := 500;
    }

    /** A stopped motor is restarted in the set direction, but never against a fast rotation. */
    method Restart()
      requires ValidConfig(conf)
      modifies `dutyNow
      ensures Reach() <= old(Reach()) && (dutyNow == old(dutyNow) || Abs(dutyNow) == conf.lMinDuty)
      ensures Abs(dutyNow) < conf.lMinDuty ==> Abs(dutySet) < conf.lMinDuty
      ensures Within(Rpm(), conf.maxErpmFbrake) ==>
        dutyNow == if Abs(old(dutyNow)) >= conf.lMinDuty || Abs(dutySet) < conf.lMinDuty then old(dutyNow)
                   else Along(dutySet, conf.lMinDuty)
      ensures conf.maxErpmFbrake >= 0.0 && Rpm() < -conf.maxErpmFbrake ==> dutyNow < conf.lMinDuty
      ensures conf.maxErpmFbrake >= 0.0 && Rpm() > conf.maxErpmFbrake ==> dutyNow > -conf.lMinDuty
      ensures dutyNow == Restarted(conf, old(dutyNow), dutySet, Rpm())
    {
      hide Reach;
      var rpm := Rpm();
      if Abs(dutyNow) < conf.lMinDuty {
        if dutySet >= conf.lMinDuty {
          dutyNow := conf.lMinDuty;
        } else if dutySet <= -conf.lMinDuty {
          dutyNow := -conf.lMinDuty;
        }
      }
      if dutyNow >= conf.lMinDuty && rpm < -conf.maxErpmFbrake {
        dutyNow := -conf.lMinDuty;
      } else if dutyNow <= -conf.lMinDuty && rpm > conf.maxErpmFbrake {
        dutyNow := conf.lMinDuty;
      }
    }

    /** The new duty cycle of a running motor: regulator, limits, then restart. */
    method RampDuty(s: Sample)
      requires ValidConfig(conf) && ValidSample(s) && limitDelay == 0
      modifies `dutySet, `dutyNow, `slowRampingCycles, `limitDelay
      ensures Reach() <= old(Reach()) && limitDelay == 0
      ensures s.current > conf.loCurrentMax ==> Between(dutyNow, 0.0, old(dutyNow)) || Abs(dutyNow) == conf.lMinDuty
      ensures Within(old(dutyNow), conf.lMaxDuty) && LimitOf(conf, direction, s, old(dutyNow)) == NoLimit ==>
        conf.minErpm <= Rpm() <= conf.maxErpm ==>
        || Within(dutyNow - old(dutyNow), RateOf(conf, PerKhz(conf.dutyRampStep, s.frequency), s.frequency))
        || dutyNow == 0.0 || Abs(dutyNow) == conf.lMinDuty
      ensures conf.maxErpmFbrake >= 0.0 && Rpm() < -conf.maxErpmFbrake ==> dutyNow < conf.lMinDuty
      ensures conf.maxErpmFbrake >= 0.0 && Rpm() > conf.maxErpmFbrake ==> dutyNow > -conf.lMinDuty
      ensures Controls() == Next(old(Controls()), s)
    {
      hide Next, Reach, LimitOf, RateOf, PerKhz;
      NextBound(Controls(), s);
      ControlStep(s);
    }

    /** Regulator, limits and restart, as one step on values. */
    method ControlStep(s: Sample)
      requires ValidConfig(conf) && ValidSample(s) && limitDelay == 0
      modifies `dutySet, `dutyNow, `slowRampingCycles, `limitDelay
      ensures Reach() <= old(Reach()) && limitDelay == 0 && Controls() == Next(old(Controls()), s)
    {
      hide Target, SetAfter, SlowAfter, Limited, Restarted, Reach, PerKhz, StepTowards, Backoff, LimitOf, RateOf;
      hide TooFast;
      hide Between, Within;
      RampStepBound(Controls(), s);
      var rampStepNoLim := PerKhz(conf.dutyRampStep, s.frequency);
      var rampStep := rampStepNoLim;
      if slowRampingCycles > 0 {
        slowRampingCycles := slowRampingCycles - 1;
        rampStep := rampStep * 0.1;
      }
      var target := Regulate(s, rampStep);
      ApplyLimits(s, target, rampStepNoLim);
      Restart();
    }

    /** One control step of a running motor. */
    method DutyControl(s: Sample)
      requires Valid() && ValidSample(s) && state == Running
      modifies `dutySet, `dutyNow, `slowRampingCycles, `limitDelay, `direction, `output, `brakes, `state
      modifies `commStep, `lastStep, `tachometer, `tachometerAbs, `tachometerForDirection, `moves
      modifies `sensorless, `hasCommutated, `pwmCycles
      ensures Valid() && Reach() <= old(Reach()) && old(moves) <= moves && old(brakes) <= brakes
      ensures Abs(dutyNow) >= conf.lMinDuty ==> state == Running && Follows(dutyNow) && brakes == old(brakes)
      ensures state in {Running, FullBrake}
      ensures conf.motorType == BLDC ==>
        && commStep == old(commStep) && lastStep == old(lastStep)
        && tachometerAbs == old(tachometerAbs) && moves == old(moves)
      ensures Abs(dutyNow) < conf.lMinDuty ==>
        && direction == old(direction)
        && (state == FullBrake <==> Abs(rpmNow) <= ModeLimit(conf, controlMode))
        && (state == Running ==> output == conf.lMinDuty)
      ensures s.current > conf.loCurrentMax ==> Between(dutyNow, 0.0, old(dutyNow)) || Abs(dutyNow) == conf.lMinDuty
      ensures Within(old(dutyNow), conf.lMaxDuty) && old(LimitOf(conf, direction, s, dutyNow)) == NoLimit ==>
        conf.minErpm <= old(Rpm()) <= conf.maxErpm ==>
        || Within(dutyNow - old(dutyNow), RateOf(conf, PerKhz(conf.dutyRampStep, s.frequency), s.frequency))
        || dutyNow == 0.0 || Abs(dutyNow) == conf.lMinDuty
      ensures conf.maxErpmFbrake >= 0.0 && old(Rpm()) < -conf.maxErpmFbrake ==> dutyNow < conf.lMinDuty
      ensures conf.maxErpmFbrake >= 0.0 && old(Rpm()) > conf.maxErpmFbrake ==> dutyNow > -conf.lMinDuty
      ensures ControlStepped(old(Controls()), s)
    {
      hide Next, Reach, TachoValid, PerKhz, AllProper, RateOf, LimitOf;
      RampDuty(s);
      SetDutyCycleLl(dutyNow, s.r);
    }

    lemma SensorsNow()
      requires TachoValid()
      ensures conf.sensorMode == Sensored ==> !sensorless
    {
    }

    lemma ConfigNow()
      requires Valid()
      ensures ValidConfig(conf)
    {
    }

    /** mcpwm_adc_int_handler. */
    method AdcInterrupt(s: Sample)
      requires Valid() && ValidSample(s)
      modifies `directionBefore, `dutySet, `dutyNow, `slowRampingCycles, `limitDelay, `direction, `output
      modifies `brakes, `state
      modifies `commStep, `lastStep, `tachometer, `tachometerAbs, `tachometerForDirection, `moves
      modifies `sensorless, `hasCommutated, `pwmCycles
      ensures Valid() && Reach() <= old(Reach()) && old(moves) <= moves && old(brakes) <= brakes
      ensures old(state) != Running ==>
        state == old(state) && dutyNow == old(dutyNow) && dutySet == old(dutySet) && brakes == old(brakes)
      ensures old(state) != Running ==> direction == old(direction)
      ensures old(state) == Running ==>
        state == Running || (state == FullBrake && Abs(rpmNow) <= ModeLimit(conf, controlMode))
      ensures conf.motorType == BLDC && conf.sensorMode == Sensored && old(lastStep) == old(commStep) - 1 ==>
        && commStep == s.r.hall && lastStep == commStep - 1
        && Nearest(tachometerAbs - old(tachometerAbs), lastStep, old(lastStep))
      ensures conf.motorType == BLDC && conf.sensorMode == Sensorless && !detected ==>
        tachometerAbs - old(tachometerAbs) ==
        if s.stuck && old(state) == Running then (if conf.integrate then 2 else 1)
        else if s.crossed && old(Watching()) then 1 else 0
      ensures old(state) == Running ==>
        if conf.motorType == DC || !old(sensorless) || (old(hasCommutated) && old(direction) == old(directionBefore))
           || s.stuck || (s.crossed && old(pwmCycles) >= 2)
        then ControlStepped(old(Controls()), s)
        else state == Running && Controls() == old(Controls()) && brakes == old(brakes)
    {
      hide Reach, TachoValid, AllProper, Nearest, Next, ModeLimit, ControlStepped, Controls;
      CommutationPart(s);
      if state == Running && hasCommutated {
        DutyControl(s);
      }
    }

    /** A control step was taken from k: its values are in place, and the timer follows or the motor brakes. */
    ghost predicate ControlStepped(k: Control, s: Sample)
      requires s.inputVoltage > 0.0 && s.frequency > 0.0
      reads `conf, `controlMode, `direction, `rpmNow, `dutyNow, `dutySet, `currentSet, `slowRampingCycles
      reads `state, `output
    {
      && Controls() == Next(k, s).(direction := direction)
      && (Abs(dutyNow) >= conf.lMinDuty ==>
            && state == Running && direction == (dutyNow > 0.0)
            && output == if Abs(dutyNow) > conf.lMaxDuty then conf.lMaxDuty else Abs(dutyNow))
      && (Abs(dutyNow) < conf.lMinDuty ==>
            && direction == k.direction
            && state == if Abs(rpmNow) <= ModeLimit(conf, controlMode) then FullBrake else Running)
    }
  }

  // ----- runs -----

  /** Everything that can happen to the controller after mcpwm_init, with the readings it uses. */
  datatype Event =
    | OnSetDuty(duty: real, r: Reading)
    | OnSetDutyNoramp(duty: real, r: Reading)
    | OnSetPidSpeed(rpm: real)
    | OnSetPidPos(r: Reading)
    | OnSetCurrent(current: real, r: Reading)
    | OnSetBrakeCurrent(current: real)
    | OnStopPwm
    | OnSetDetect(blocked: bool)
    | OnSetConfiguration(c: Config)
    | OnGetTachometer(reset: bool)
    | OnGetTachometerAbs(reset: bool)
    | OnRpmThread(moved: bool, speed: real, sum: real, r: Reading)
    | OnPosLoop(sum: real)
    | OnTimerThread(amplitude: real, supply: real, uneven: bool)
    | OnInjectedInterrupt(due: bool)
    | OnAdcInterrupt(s: Sample)

  /** Readings exist, and configurations are valid. */
  ghost predicate Admissible(e: Event) {
    match e
    case OnSetDuty(_, r) => ValidReading(r)
    case OnSetDutyNoramp(_, r) => ValidReading(r)
    case OnSetPidPos(r) => ValidReading(r)
    case OnSetCurrent(_, r) => ValidReading(r)
    case OnSetConfiguration(c) => ValidConfig(c)
    case OnRpmThread(_, _, _, r) => ValidReading(r)
    case OnTimerThread(_, supply, _) => supply > 0.0
    case OnAdcInterrupt(s) => ValidSample(s)
    case _ => true
  }

  /** What an event does to the duty cycles: only two kinds of event can move one of them outwards. */
  ghost predicate DutyStep(a: Duties, e: Event, b: Duties) {
    match e
    case OnSetConfiguration(c) => b == Duties(false, c.lMaxDuty, a.dutyNow, a.dutySet)
    case OnSetDutyNoramp(duty, _) =>
      b.max == a.max && (if a.running then b.dutyNow == b.dutySet == duty else ReachOf(b) <= ReachOf(a))
    case _ => b.max == a.max && ReachOf(b) <= ReachOf(a)
  }

  /** Whether the event leaves duty cycles in range that are in range before it, judged before it. */
  ghost predicate Harmless(a: Duties, e: Event) {
    match e
    case OnSetConfiguration(c) => Within(a.dutyNow, c.lMaxDuty) && Within(a.dutySet, c.lMaxDuty)
    case OnSetDutyNoramp(duty, _) => a.running ==> Within(duty, a.max)
    case _ => true
  }

  lemma StepInRange(a: Duties, e: Event, b: Duties)
    requires DutyStep(a, e, b) && DutiesInRange(a)
    ensures DutiesInRange(b) <==> Harmless(a, e)
  {
  }

  /** The duty cycles before each event of a run and after the last. */
  ghost predicate History(trace: seq<Duties>, events: seq<Event>) {
    |trace| == |events| + 1 && forall i :: 0 <= i < |events| ==> DutyStep(trace[i], events[i], trace[i + 1])
  }

  /**
   The duty cycles stay in range throughout a run if and only if they are in range at its start and every
   event is harmless when it comes.
   */
  lemma {:induction false} InRangeIff(trace: seq<Duties>, events: seq<Event>)
    requires History(trace, events)
    ensures (forall d <- trace :: DutiesInRange(d)) <==>
      DutiesInRange(trace[0]) && forall i :: 0 <= i < |events| ==> Harmless(trace[i], events[i])
    decreases |events|
  {
    hide DutyStep, DutiesInRange, Harmless;
    var n := |events|;
    assert trace[0] in trace;
    if n == 0 {
      assert trace == [trace[0]];
    } else {
      InRangeIff(trace[..n], events[..n - 1]);
      assert trace == trace[..n] + [trace[n]];
      assert trace[n - 1] == trace[..n][n - 1] && trace[n - 1] in trace[..n];
      assert events[..n - 1] + [events[n - 1]] == events;
      if DutiesInRange(trace[n - 1]) {
        StepInRange(trace[n - 1], events[n - 1], trace[n]);
      }
      assert forall i :: 0 <= i < n - 1 ==> events[..n - 1][i] == events[i] && trace[..n][i] == trace[i];
    }
  }

  /** No configuration, and no command that skips the ramp, allows or asks for more than top. */
  ghost predicate AsksAtMost(events: seq<Event>, top: real) {
    forall e <- events ::
      (e.OnSetConfiguration? ==> e.c.lMaxDuty <= top) && (e.OnSetDutyNoramp? ==> Within(e.duty, top))
  }

  /** Then nothing exceeds top over the whole run. */
  lemma {:induction false} ReachBounded(trace: seq<Duties>, events: seq<Event>, top: real)
    requires History(trace, events) && AsksAtMost(events, top) && ReachOf(trace[0]) <= top
    ensures forall d <- trace :: ReachOf(d) <= top
    decreases |events|
  {
    var n := |events|;
    if n == 0 {
      assert trace == [trace[0]];
    } else {
      ReachBounded(trace[..n], events[..n - 1], top);
      assert trace == trace[..n] + [trace[n]];
      assert trace[n - 1] == trace[..n][n - 1] && trace[n - 1] in trace[..n] && events[n - 1] in events;
      assert DutyStep(trace[n - 1], events[n - 1], trace[n]);
    }
  }

  /** Configurations never lower the maximum, and commands that skip the ramp respect it. */
  ghost predicate Rising(max: real, events: seq<Event>)
    decreases |events|
  {
    events == [] ||
    match events[0]
    case OnSetConfiguration(c) => c.lMaxDuty >= max && Rising(c.lMaxDuty, events[1..])
    case OnSetDutyNoramp(duty, _) => Within(duty, max) && Rising(max, events[1..])
    case _ => Rising(max, events[1..])
  }

  lemma {:induction false} RisingInRange(trace: seq<Duties>, events: seq<Event>)
    requires History(trace, events) && DutiesInRange(trace[0]) && Rising(trace[0].max, events)
    ensures forall d <- trace :: DutiesInRange(d)
    decreases |events|
  {
    if events == [] {
      assert trace == [trace[0]];
    } else {
      assert DutyStep(trace[0], events[0], trace[1]);
      StepInRange(trace[0], events[0], trace[1]);
      forall i | 0 <= i < |events| - 1 ensures DutyStep(trace[1..][i], events[1..][i], trace[1..][i + 1]) {
        assert DutyStep(trace[i + 1], events[i + 1], trace[i + 2]);
      }
      RisingInRange(trace[1..], events[1..]);
      assert trace == [trace[0]] + trace[1..];
    }
  }

  /** Neither phase detection nor a change of the sensor mode. */
  predicate KeepsSteps(mode: SensorMode, e: Event) {
    !e.OnSetDetect? && (e.OnSetConfiguration? ==> e.c.sensorMode == mode)
  }

  predicate IsCommand(e: Event) {
    || e.OnSetDuty? || e.OnSetPidSpeed? || e.OnSetPidPos? || e.OnSetCurrent? || e.OnSetBrakeCurrent?
    || e.OnStopPwm? || e.OnSetDetect?
  }

  predicate IsBackground(e: Event) {
    e.OnRpmThread? || e.OnPosLoop? || e.OnTimerThread? || e.OnInjectedInterrupt? || e.OnAdcInterrupt?
  }

  /** One round of a thread, or one interrupt. */
  method HandleBackground(m: Motor, e: Event)
    requires m.Valid() && IsBackground(e) && Admissible(e)
    modifies m
    ensures m.Valid() && m.Reach() <= old(m.Reach())
    ensures old(m.moves) <= m.moves && old(m.brakes) <= m.brakes && m.conf == old(m.conf)
    ensures m.netFrom == old(m.netFrom) && m.absFrom == old(m.absFrom)
    ensures old(m.state) != Detecting ==> m.state != Detecting && m.detected == old(m.detected)
  {
    hide AllProper, Motor.TachoValid, Motor.Valid, Motor.Reach, Motor.Follows, Motor.Watching, Motor.Rpm;
    hide Motor.ControlStepped, Motor.Controls;
    hide ValidConfig, ValidReading, ValidSample, Truncate, ModeLimit, Nearest, Total, Net, Abs, Sign;
    match e {
      case OnRpmThread(moved, speed, sum, r) =>
        m.MeasureSpeed(moved, speed);
        m.RunPidControlSpeed(sum, r);
      case OnPosLoop(sum) => m.RunPidControlPos(sum);
      case OnTimerThread(amplitude, supply, uneven) => m.TrackBackEmf(amplitude, supply, uneven);
      case OnInjectedInterrupt(due) => m.InjectedInterrupt(due);
      case OnAdcInterrupt(s) => m.AdcInterrupt(s);
    }
  }

  /** One command that starts, stops or steers the motor along its ramps. */
  method HandleCommand(m: Motor, e: Event)
    requires m.Valid() && IsCommand(e) && Admissible(e)
    modifies m
    ensures m.Valid() && m.Reach() <= old(m.Reach())
    ensures old(m.moves) <= m.moves && old(m.brakes) <= m.brakes && m.conf == old(m.conf)
    ensures m.netFrom == old(m.netFrom) && m.absFrom == old(m.absFrom) && m.detected == old(m.detected)
    ensures old(m.state) != Detecting && !e.OnSetDetect? ==> m.state != Detecting
  {
    hide AllProper, Motor.TachoValid, Motor.Valid, Motor.Reach, Motor.Follows, Motor.Starts, Motor.Brakes;
    hide ValidConfig, ValidReading, Truncate, Abs, Sign;
    match e {
      case OnSetDuty(duty, r) => m.SetDuty(duty, r);
      case OnSetPidSpeed(rpm) => m.SetPidSpeed(rpm);
      case OnSetPidPos(r) => m.SetPidPos(r);
      case OnSetCurrent(current, r) => m.SetCurrent(current, r);
      case OnSetBrakeCurrent(current) => m.SetBrakeCurrent(current);
      case OnStopPwm => m.StopPwm();
      case OnSetDetect(blocked) => m.SetDetect(blocked);
    }
  }

  /** Any event. */
  method Handle(m: Motor, e: Event)
    requires m.Valid() && Admissible(e)
    modifies m
    ensures m.Valid() && DutyStep(old(m.DutiesNow()), e, m.DutiesNow())
    ensures old(m.moves) <= m.moves && old(m.brakes) <= m.brakes
    ensures m.conf == if e.OnSetConfiguration? then e.c else old(m.conf)
    ensures !e.OnGetTachometer? ==> m.netFrom == old(m.netFrom)
    ensures !e.OnGetTachometerAbs? ==> m.absFrom == old(m.absFrom)
    ensures !old(m.detected) && old(m.state) != Detecting && KeepsSteps(old(m.conf.sensorMode), e) ==>
      !m.detected && m.state != Detecting && m.conf.sensorMode == old(m.conf.sensorMode)
  {
    hide AllProper, Motor.TachoValid, Motor.Valid, ReachOf, Motor.Follows, Motor.Starts, Motor.Brakes;
    hide ValidConfig, ValidReading, ValidSample, Truncate, Abs, Sign;
    if IsCommand(e) {
      HandleCommand(m, e);
    } else if IsBackground(e) {
      HandleBackground(m, e);
    } else {
      match e {
        case OnSetDutyNoramp(duty, r) => m.SetDutyNoramp(duty, r);
        case OnSetConfiguration(c) => m.SetConfiguration(c);
        case OnGetTachometer(reset) => var _ := m.GetTachometer(reset);
        case OnGetTachometerAbs(reset) => var _ := m.GetTachometerAbs(reset);
      }
    }
  }

  lemma EntriesRespectMode(es: seq<Entry>)
    requires AllProper(es)
    ensures forall e <- es :: e.conf.motorType == BLDC ==> RespectsMode(e)
  {
  }

  /**
   Any run of commands, configuration changes, threads and interrupts. `trace` has the duty cycles before
   each event and after the last: they stay within the configured maximum exactly as long as every event
   is harmless when it comes, and never exceed what was asked for. Every full brake entry respects the
   limit of its mode (or comes from the brake command), and the counters are the sums, since their last
   reset, of differences congruent to the step. Without sensors, and without phase detection or a change
   of the sensor mode, no difference counts backwards.
   */
  method Run(m: Motor, events: seq<Event>) returns (ghost trace: seq<Duties>)
    requires m.Valid() && forall e <- events :: Admissible(e)
    modifies m
    ensures m.Valid() && History(trace, events)
    ensures trace[0] == old(m.DutiesNow()) && trace[|events|] == m.DutiesNow()
    ensures (forall d <- trace :: DutiesInRange(d)) <==>
      old(m.InRange()) && forall i :: 0 <= i < |events| ==> Harmless(trace[i], events[i])
    ensures old(m.InRange()) && Rising(old(m.conf.lMaxDuty), events) ==> m.InRange()
    ensures forall top :: old(m.Reach()) <= top && AsksAtMost(events, top) ==> m.Reach() <= top
    ensures old(m.InRange()) && AsksAtMost(events, old(m.conf.lMaxDuty)) ==>
      Within(m.dutyNow, old(m.conf.lMaxDuty)) && Within(m.dutySet, old(m.conf.lMaxDuty))
    ensures old(m.moves) <= m.moves && old(m.brakes) <= m.brakes
    ensures forall e <- m.brakes :: e.conf.motorType == BLDC ==> RespectsMode(e)
    ensures (forall e <- events :: !e.OnGetTachometerAbs?) ==>
      m.tachometerAbs == old(m.tachometerAbs) + Total(m.moves[|old(m.moves)|..])
    ensures (forall e <- events :: !e.OnGetTachometer?) ==>
      m.tachometer == old(m.tachometer) + Net(m.moves[|old(m.moves)|..])
    ensures m.conf.sensorMode == Sensorless && !m.detected ==>
      && m.commStep == m.lastStep + 1
      && 0 <= Total(m.moves[|old(m.moves)|..])
      && -Total(m.moves[|old(m.moves)|..]) <= Net(m.moves[|old(m.moves)|..]) <= Total(m.moves[|old(m.moves)|..])
    ensures !old(m.detected) && old(m.state) != Detecting ==>
      (forall e <- events :: KeepsSteps(old(m.conf.sensorMode), e)) ==>
      !m.detected && m.conf.sensorMode == old(m.conf.sensorMode)
  {
    hide AllProper, Admissible, Nearest, Congruent, KeepsSteps, DutyStep;
    var i := 0;
    trace := [m.DutiesNow()];
    while i < |events|
      invariant 0 <= i <= |events| && m.Valid()
      invariant |trace| == i + 1 && trace[0] == old(m.DutiesNow()) && trace[i] == m.DutiesNow()
      invariant forall k :: 0 <= k < i ==> DutyStep(trace[k], events[k], trace[k + 1])
      invariant old(m.moves) <= m.moves && old(m.brakes) <= m.brakes
      invariant (forall e <- events :: !e.OnGetTachometerAbs?) ==> m.absFrom == old(m.absFrom)
      invariant (forall e <- events :: !e.OnGetTachometer?) ==> m.netFrom == old(m.netFrom)
      invariant !old(m.detected) && old(m.state) != Detecting ==>
        (forall e <- events :: KeepsSteps(old(m.conf.sensorMode), e)) ==>
        !m.detected && m.state != Detecting && m.conf.sensorMode == old(m.conf.sensorMode)
    {
      assert events[i] in events;
      Handle(m, events[i]);
      trace := trace + [m.DutiesNow()];
      i := i + 1;
    }
    RunDuties(trace, events);
    EntriesRespectMode(m.brakes);
    RunCounts(old(m.moves), m.moves, old(m.absFrom), old(m.netFrom));
  }

  lemma RunDuties(trace: seq<Duties>, events: seq<Event>)
    requires History(trace, events)
    ensures (forall d <- trace :: DutiesInRange(d)) <==>
      DutiesInRange(trace[0]) && forall i :: 0 <= i < |events| ==> Harmless(trace[i], events[i])
    ensures DutiesInRange(trace[0]) && Rising(trace[0].max, events) ==> DutiesInRange(trace[|events|])
    ensures forall top :: ReachOf(trace[0]) <= top && AsksAtMost(events, top) ==> ReachOf(trace[|events|]) <= top
  {
    InRangeIff(trace, events);
    assert trace[|events|] in trace;
    if DutiesInRange(trace[0]) && Rising(trace[0].max, events) {
      RisingInRange(trace, events);
    }
    forall top | ReachOf(trace[0]) <= top && AsksAtMost(events, top) ensures ReachOf(trace[|events|]) <= top {
      ReachBounded(trace, events, top);
    }
  }

  /** What a longer history adds. */
  lemma RunCounts(before: seq<Move>, now: seq<Move>, absFrom: nat, netFrom: nat)
    requires before <= now && absFrom <= |before| && netFrom <= |before|
    ensures Total(now[absFrom..]) == Total(before[absFrom..]) + Total(now[|before|..])
    ensures Net(now[netFrom..]) == Net(before[netFrom..]) + Net(now[|before|..])
    ensures Forwards(now) ==>
      && 0 <= Total(now[|before|..])
      && -Total(now[|before|..]) <= Net(now[|before|..]) <= Total(now[|before|..])
  {
    var added := now[|before|..];
    assert now[absFrom..] == before[absFrom..] + added && now[netFrom..] == before[netFrom..] + added;
    TotalConcat(before[absFrom..], added);
    TotalConcat(before[netFrom..], added);
    if Forwards(now) {
      assert forall m <- added :: m in now;
      TotalMonotone(added);
    }
  }

  // ----- hall sensors along a rotation -----

  /** The position as the controller counts it in its direction of rotation. */
  function Frame(direction: bool, position: int): int {
    if direction then position else -position
  }

  /** mcpwm_read_hall_phase at a rotor position, whose phase in the forward direction is the position modulo 6. */
  function HallPhase(direction: bool, position: int): (phase: int)
    ensures 1 <= phase <= 6
  {
    Frame(direction, position) % 6 + 1
  }

  /** The half of the hall table for the reverse direction is fwd_to_rev of the other half. */
  lemma ReversePhase(position: int)
    ensures HallPhase(false, position) == [-1, 1, 6, 5, 4, 3, 2][HallPhase(true, position)]
  {
  }

  /**
   Interrupts along any rotation, with hall sensors. `frames` has the positions as seen in the direction
   that was current when the sensors were read. As long as these never move by more than -2..3 steps, the
   absolute counter follows them exactly; while the motor does not run the direction is fixed.
   */
  method FollowRotation(m: Motor, positions: seq<int>, samples: seq<Sample>) returns (ghost frames: seq<int>)
    requires m.Valid() && m.conf.motorType == BLDC && m.conf.sensorMode == Sensored
    requires |positions| == |samples| > 0 && m.lastStep == m.commStep - 1 == Frame(m.direction, positions[0]) % 6
    requires forall s <- samples :: ValidSample(s)
    modifies m
    ensures m.Valid() && |frames| == |positions| && frames[0] == old(Frame(m.direction, positions[0]))
    ensures forall i :: 0 <= i < |frames| ==> frames[i] in {positions[i], -positions[i]}
    ensures old(m.state) != Running ==> m.direction == old(m.direction)
    ensures old(m.state) != Running ==>
      forall i :: 0 <= i < |frames| ==> frames[i] == old(Frame(m.direction, positions[i]))
    ensures Followed(frames) ==> m.tachometerAbs - old(m.tachometerAbs) == frames[|frames| - 1] - frames[0]
    ensures m.commStep == frames[|frames| - 1] % 6 + 1
  {
    hide AllProper, Motor.TachoValid, Nearest, Motor.ControlStepped, Motor.Controls;
    frames := [Frame(m.direction, positions[0])];
    var i := 1;
    while i < |positions|
      invariant 1 <= i <= |positions| && |frames| == i && frames[0] == old(Frame(m.direction, positions[0]))
      invariant m.Valid() && m.conf.motorType == BLDC && m.conf.sensorMode == Sensored
      invariant m.lastStep == m.commStep - 1 == frames[i - 1] % 6
      invariant forall k :: 0 <= k < i ==> frames[k] in {positions[k], -positions[k]}
      invariant old(m.state) != Running ==> m.state != Running && m.direction == old(m.direction)
      invariant old(m.state) != Running ==>
        forall k :: 0 <= k < i ==> frames[k] == old(Frame(m.direction, positions[k]))
      invariant Followed(frames) ==> m.tachometerAbs - old(m.tachometerAbs) == frames[i - 1] - frames[0]
    {
      label Before:
      ghost var next := Frame(m.direction, positions[i]);
      var s := samples[i];
      assert s in samples;
      m.AdcInterrupt(s.(r := s.r.(hall := HallPhase(m.direction, positions[i]))));
      UnwrapExact(frames[i - 1], next, m.tachometerAbs - old@Before(m.tachometerAbs));
      FollowedStep(frames, next);
      frames := frames + [next];
      i := i + 1;
    }
  }

  lemma FollowedStep(frames: seq<int>, next: int)
    requires frames != []
    ensures Followed(frames + [next]) <==> Followed(frames) && -2 <= next - frames[|frames| - 1] <= 3
  {
    var all := frames + [next];
    if Followed(all) {
      assert all[|frames|] - all[|frames| - 1] <= 3;
      forall i | 0 < i < |frames| ensures -2 <= frames[i] - frames[i - 1] <= 3 {
        assert all[i] == frames[i] && all[i - 1] == frames[i - 1];
      }
    }
  }

  // ----- duty cycle control over a run -----

  /** The ramp step at a switching frequency. */
  function RampOf(c: Config, s: Sample): real
    requires ValidSample(s)
  {
    c.dutyRampStep / (s.frequency / 1000.0)
  }

  /** What the ramp can cover in these interrupts. */
  function RampSum(c: Config, samples: seq<Sample>): real
    requires forall i :: 0 <= i < |samples| ==> ValidSample(samples[i])
  {
    if samples == [] then 0.0 else RampSum(c, samples[..|samples| - 1]) + RampOf(c, samples[|samples| - 1])
  }

  /** At a constant switching frequency, that is the number of interrupts times the step. */
  lemma {:induction false} RampSumConstant(c: Config, samples: seq<Sample>, frequency: real)
    requires forall i :: 0 <= i < |samples| ==> ValidSample(samples[i]) && samples[i].frequency == frequency
    requires frequency > 0.0
    ensures RampSum(c, samples) == |samples| as real * (c.dutyRampStep / (frequency / 1000.0))
  {
    if samples != [] {
      var n, step := |samples| - 1, c.dutyRampStep / (frequency / 1000.0);
      RampSumConstant(c, samples[..n], frequency);
      OneMore(n, step);
    }
  }

  lemma OneMore(n: nat, step: real)
    ensures n as real * step + step == (n + 1) as real * step
  {
  }

  /** One interrupt of a running motor that commutates in every one: the control step, then output or brake. */
  method ControlInterrupt(m: Motor, s: Sample)
    requires m.Valid() && m.state == Running && ValidSample(s)
    requires m.conf.motorType == DC || m.conf.sensorMode == Sensored
    modifies m
    ensures m.Valid() && m.conf == old(m.conf) && m.controlMode == old(m.controlMode) && m.rpmNow == old(m.rpmNow)
    ensures var next := Next(old(m.Controls()), s);
      m.dutyNow == next.dutyNow && m.dutySet == next.dutySet && m.slowRampingCycles == next.slow
    ensures m.conf.lMinDuty <= Abs(m.dutyNow) ==>
      && m.state == Running && m.direction == (m.dutyNow > 0.0)
      && m.output == if Abs(m.dutyNow) > m.conf.lMaxDuty then m.conf.lMaxDuty else Abs(m.dutyNow)
    ensures m.conf.lMinDuty > Abs(m.dutyNow) ==>
      && m.direction == old(m.direction)
      && (m.state == FullBrake <==> Abs(m.rpmNow) <= ModeLimit(m.conf, m.controlMode))
  {
    hide Motor.TachoValid, AllProper, Next, Nearest, Motor.Reach, Total, ModeLimit;
    m.SensorsNow();
    m.AdcInterrupt(s);
  }

  /** The same with too much motor current: the duty cycle goes towards zero, in proportion to the excess. */
  method OvercurrentInterrupt(m: Motor, s: Sample) returns (ghost k: Control, ghost duty: real, ghost excess: real)
    requires m.Valid() && m.state == Running && ValidSample(s) && s.current > m.conf.loCurrentMax
    requires m.conf.motorType == DC || m.conf.sensorMode == Sensored
    modifies m
    ensures m.Valid() && m.conf == old(m.conf) && k == old(m.Controls())
    ensures k.conf == m.conf && k.dutyNow == old(m.dutyNow) && excess == s.current - m.conf.loCurrentMax
    ensures var step := k.conf.dutyRampStep / (s.frequency / 1000.0);
      Moved(k.dutyNow, duty, 0.0, step * excess * k.conf.currentBackoffGain)
    ensures m.conf.lMinDuty <= Abs(duty) && Abs(m.rpmNow) <= m.conf.maxErpmFbrake ==> m.dutyNow == duty
  {
    hide Motor.Valid, Moved, Next, ModeLimit, Restarted;
    k := m.Controls();
    m.ConfigNow();
    duty, excess := OvercurrentLaw(k, s);
    if k.conf.lMinDuty <= Abs(duty) && Abs(k.rpmNow) <= k.conf.maxErpmFbrake {
      KeptUnlessSmall(k, duty, Next(k, s).dutySet);
    }
    ControlInterrupt(m, s);
  }

  lemma KeptUnlessSmall(k: Control, duty: real, goal: real)
    requires k.conf.lMinDuty <= Abs(duty) && Abs(k.rpmNow) <= k.conf.maxErpmFbrake
    ensures Restarted(k.conf, duty, goal, RpmOf(k)) == duty
  {
  }

  /** One interrupt of a running motor in duty cycle mode, with no limit acting. */
  method CalmInterrupt(m: Motor, s: Sample)
    requires m.Valid() && m.InRange() && m.state == Running && m.controlMode == Duty && m.slowRampingCycles == 0
    requires m.conf.motorType == DC || m.conf.sensorMode == Sensored
    requires m.conf.lMinDuty <= Abs(m.dutySet) && ValidSample(s) && Calm(m.conf, m.rpmNow, s)
    modifies m
    ensures m.Valid() && m.InRange() && m.state == Running && m.controlMode == Duty && m.slowRampingCycles == 0
    ensures m.conf == old(m.conf) && m.rpmNow == old(m.rpmNow) && m.dutySet == old(m.dutySet)
    ensures m.output == Abs(m.dutyNow) && m.direction == (m.dutyNow > 0.0)
    ensures Nearer(old(m.Controls()), m.dutyNow, RampOf(m.conf, s)) && RampOf(m.conf, s) >= 0.0
  {
    hide Motor.TachoValid, AllProper, Next, Nearest, Calm, Motor.Reach, Total, Distance;
    m.SensorsNow();
    RampNonNegative(m.conf, s);
    CalmStep(m.Controls(), s);
    DistanceIs(m.Controls());
    DistanceIs(Next(m.Controls(), s));
    m.AdcInterrupt(s);
  }

  lemma DistanceIs(k: Control)
    ensures Distance(k) == Abs(k.dutySet - k.dutyNow)
  {
  }

  /** The distance to dutycycle_set is smaller by step, or zero. */
  ghost predicate Nearer(k: Control, duty: real, step: real) {
    var far := Abs(k.dutySet - k.dutyNow);
    && Abs(k.dutySet - duty) <= (if far <= step then 0.0 else far - step)
    && (SameSide(k, k.dutyNow) ==>
          Abs(k.dutySet - duty) == (if far <= step then 0.0 else far - step) && SameSide(k, duty))
  }

  /**
   A running motor in duty cycle mode, with a commutation in every interrupt and no limit acting: the distance
   from dutycycle_now to dutycycle_set shrinks by the whole ramp step of each interrupt, until it is zero, and the
   timer runs the duty cycle. Started on the same side of zero, it shrinks by exactly that.
   */
  method RampUp(m: Motor, samples: seq<Sample>)
    requires m.Valid() && m.InRange() && m.state == Running && m.controlMode == Duty && m.slowRampingCycles == 0
    requires m.conf.motorType == DC || m.conf.sensorMode == Sensored
    requires m.conf.lMinDuty <= Abs(m.dutySet)
    requires forall i :: 0 <= i < |samples| ==> ValidSample(samples[i]) && Calm(m.conf, m.rpmNow, samples[i])
    modifies m
    ensures m.Valid() && m.state == Running && m.dutySet == old(m.dutySet) && m.conf == old(m.conf)
    ensures var far, run := Abs(m.dutySet - old(m.dutyNow)), RampSum(m.conf, samples);
      && Abs(m.dutySet - m.dutyNow) <= (if far <= run then 0.0 else far - run)
      && (far <= run ==> m.dutyNow == m.dutySet)
      && (old(m.dutyNow) * m.dutySet > 0.0 && Abs(old(m.dutyNow)) >= m.conf.lMinDuty ==>
            Abs(m.dutySet - m.dutyNow) == if far <= run then 0.0 else far - run)
    ensures samples != [] ==> m.output == Abs(m.dutyNow) && m.direction == (m.dutyNow > 0.0)
  {
    hide Motor.TachoValid, AllProper, Next, Nearest, Calm, Motor.Valid, RampOf, SameSide, ValidSample, Nearer;
    var i := 0;
    ghost var k := m.Controls();
    NearerStart(k);
    while i < |samples|
      invariant 0 <= i <= |samples| && m.Valid() && m.InRange() && m.state == Running
      invariant m.conf == k.conf && m.rpmNow == k.rpmNow && m.dutySet == k.dutySet && m.slowRampingCycles == 0
      invariant m.controlMode == Duty
      invariant Nearer(k, m.dutyNow, RampSum(k.conf, samples[..i]))
      invariant RampSum(k.conf, samples[..i]) >= 0.0
      invariant i > 0 ==> m.output == Abs(m.dutyNow) && m.direction == (m.dutyNow > 0.0)
    {
      assert samples[..i + 1][..i] == samples[..i];
      ghost var before := m.Controls();
      CalmInterrupt(m, samples[i]);
      NearerStep(k, before, m.dutyNow, RampSum(k.conf, samples[..i]), RampOf(k.conf, samples[i]));
      i := i + 1;
    }
    assert samples[..|samples|] == samples;
    NearerMeans(k, m.dutyNow, RampSum(k.conf, samples));
  }

  lemma RampNonNegative(c: Config, s: Sample)
    requires ValidConfig(c) && ValidSample(s)
    ensures RampOf(c, s) >= 0.0
  {
    PerKhzBound(0.0, c.dutyRampStep, s.frequency);
  }

  lemma NearerStart(k: Control)
    ensures Nearer(k, k.dutyNow, 0.0)
  {
    hide SameSide;
  }

  lemma NearerStep(k: Control, before: Control, after: real, run: real, step: real)
    requires run >= 0.0 && step >= 0.0 && before.conf == k.conf && before.dutySet == k.dutySet
    requires Nearer(k, before.dutyNow, run) && Nearer(before, after, step)
    ensures Nearer(k, after, run + step)
  {
  }

  lemma NearerMeans(k: Control, duty: real, run: real)
    requires Nearer(k, duty, run)
    ensures var far := Abs(k.dutySet - k.dutyNow);
      && Abs(k.dutySet - duty) <= (if far <= run then 0.0 else far - run)
      && (far <= run ==> duty == k.dutySet)
      && (k.dutyNow * k.dutySet > 0.0 && Abs(k.dutyNow) >= k.conf.lMinDuty ==>
            Abs(k.dutySet - duty) == if far <= run then 0.0 else far - run)
  {
  }

  ghost predicate SameSide(k: Control, duty: real) {
    duty * k.dutySet > 0.0 && Abs(duty) >= k.conf.lMinDuty
  }

  // ----- what the code does not exclude -----

  /** A smaller maximum leaves a set duty cycle above it. */
  method SmallerMaximum(c: Config, smaller: Config, r: Reading) returns (m: Motor)
    requires ValidConfig(c) && ValidConfig(smaller) && smaller.lMaxDuty < c.lMaxDuty && ValidReading(r)
    ensures fresh(m) && m.Valid() && m.conf == smaller
    ensures m.dutySet == c.lMaxDuty > m.conf.lMaxDuty && !m.InRange()
  {
    m := new Motor(c);
    m.SetDuty(c.lMaxDuty, r);
    m.SetConfiguration(smaller);
  }

  /** A running motor takes any duty cycle from mcpwm_set_duty_noramp. */
  method UnboundedDuty(c: Config, duty: real, r: Reading) returns (m: Motor)
    requires ValidConfig(c) && ValidReading(r) && !Within(duty, c.lMaxDuty)
    ensures fresh(m) && m.Valid() && m.conf == c && m.dutySet == m.dutyNow == duty && !m.InRange()
  {
    m := new Motor(c);
    m.SetDuty(c.lMaxDuty, r);
    m.SetDutyNoramp(duty, r);
  }

  /** The brake command of a new motor braked above the limit of its control mode, when the plain limit allows more. */
  method BrakeAboveModeLimit(conf: Config, rpm: real) returns (m: Motor)
    requires ValidConfig(conf) && conf.motorType == BLDC
    requires conf.maxErpmFbrakeCc < rpm <= conf.maxErpmFbrake && rpm >= 0.0
    ensures fresh(m) && m.Valid() && m.conf == conf
    ensures |m.brakes| == 1 && m.brakes[0].mode == CurrentBrake && Abs(m.brakes[0].rpm) > ModeLimit(conf, CurrentBrake)
  {
    m := new Motor(conf);
    m.MeasureSpeed(true, 2.0 * rpm);
    m.SetBrakeCurrent(if conf.ccMinCurrent >= 0.0 then conf.ccMinCurrent else 0.0);
  }
}
