/** The decisions one charging cycle takes from a telemetry sample: the
    thermal cooldown rule and the charge-limit rule. */
module Policy {
  import opened Sysfs

  /** One successful batch of reads. The temperature stays in the tenths of a
      degree Celsius the kernel reports: the service divides by ten in single
      precision and compares with 39.5 and 38.5, which are exact in binary, so
      `t / 10f >= 39.5` holds exactly when `t >= 395` and `t / 10f <= 38.5`
      exactly when `t <= 385`. */
  datatype Sample = Sample(
    tempTenths: int32,
    capacity: int32,
    coolDown: int32,
    currentMa: int32,
    chargingEnable: int32)

  const HOT_TENTHS: int32 := 395
  const COOL_TENTHS: int32 := 385
  /** The cooldown level auto mode engages. */
  const THROTTLED: int32 := 2
  const UNTHROTTLED: int32 := 0

  /** The thermal rule: the cooldown level to write this cycle, if any.
      `chargingSpeed` is the system setting; 0 selects auto mode. */
  function ThermalDecision(s: Sample, chargingSpeed: int32, coolDownAvailable: bool): (w: Option<int32>)
    ensures w.Some? ==> coolDownAvailable && s.chargingEnable == 1
    ensures w.Some? ==> w.value != s.coolDown
    ensures w.Some? && chargingSpeed == 0 ==> w.value in {UNTHROTTLED, THROTTLED}
  {
    if coolDownAvailable && s.chargingEnable == 1 then
      if chargingSpeed != 0 && s.coolDown != chargingSpeed then Some(chargingSpeed)
      else if chargingSpeed == 0 then
        if s.tempTenths >= HOT_TENTHS && s.coolDown != THROTTLED && s.coolDown == UNTHROTTLED then Some(THROTTLED)
        else if s.tempTenths <= COOL_TENTHS && s.coolDown != UNTHROTTLED && s.coolDown == THROTTLED then Some(UNTHROTTLED)
        else None
      else None
    else None
  }

  /** An explicit speed setting is written exactly when the cooldown level
      differs from it. */
  lemma SpeedOverride(s: Sample, chargingSpeed: int32)
    requires chargingSpeed != 0 && s.chargingEnable == 1
    ensures ThermalDecision(s, chargingSpeed, true) == Some(chargingSpeed) <==> s.coolDown != chargingSpeed
    ensures ThermalDecision(s, chargingSpeed, true) == None <==> s.coolDown == chargingSpeed
  {
  }

  /** Auto mode engages throttling at 39.5 degrees or more from level 0,
      releases it at 38.5 degrees or less from level 2, and otherwise writes
      nothing. */
  lemma AutoHysteresis(s: Sample)
    requires s.chargingEnable == 1
    ensures ThermalDecision(s, 0, true) == Some(THROTTLED) <==> s.tempTenths >= HOT_TENTHS && s.coolDown == UNTHROTTLED
    ensures ThermalDecision(s, 0, true) == Some(UNTHROTTLED) <==> s.tempTenths <= COOL_TENTHS && s.coolDown == THROTTLED
    ensures ThermalDecision(s, 0, true) == None <==>
      !(s.tempTenths >= HOT_TENTHS && s.coolDown == UNTHROTTLED) && !(s.tempTenths <= COOL_TENTHS && s.coolDown == THROTTLED)
  {
  }

  /** The cooldown level after the thermal rule has run. */
  function CoolDownAfter(s: Sample, chargingSpeed: int32, coolDownAvailable: bool): int32
  {
    match ThermalDecision(s, chargingSpeed, coolDownAvailable)
    case Some(v) => v
    case None => s.coolDown
  }

  /** The cooldown levels successive auto-mode thermal decisions choose for
      the temperatures `temps`, starting from level `level`, each decision
      reading back the level the previous one chose, with charging enabled.
      A real cycle performs this read-back only when it does not stop at the
      limit and the resolved cooldown file accepts writes (see
      Cycle.AutoCycleStep): a stop forces level 0, and a write to an
      unwritable resolved file is lost even when the other cooldown location
      makes cooldown available. */
  function AutoLevels(level: int32, temps: seq<int32>): (levels: seq<int32>)
    ensures |levels| == |temps|
    decreases |temps|
  {
    if temps == [] then []
    else
      var next := CoolDownAfter(Sample(temps[0], 0, level, 0, 1), 0, true);
      [next] + AutoLevels(next, temps[1..])
  }

  /** One auto-mode cycle from level `before` at temperature `temp` that ends
      at level `after` obeys the hysteresis band. */
  ghost predicate HysteresisStep(before: int32, temp: int32, after: int32)
  {
    && (after == UNTHROTTLED || after == THROTTLED)
    && (temp >= HOT_TENTHS ==> after == THROTTLED)
    && (temp <= COOL_TENTHS ==> after == UNTHROTTLED)
    && (COOL_TENTHS < temp < HOT_TENTHS ==> after == before)
  }

  /** Hysteresis: starting from level 0 or 2, every cycle at 39.5 degrees or
      more ends throttled, every cycle at 38.5 degrees or less ends
      unthrottled, and a cycle in between keeps the previous level. */
  lemma {:induction false} AutoLevelsHysteresis(level: int32, temps: seq<int32>)
    requires level == UNTHROTTLED || level == THROTTLED
    ensures forall i {:trigger temps[i]} :: 0 <= i < |temps| ==>
      HysteresisStep(if i == 0 then level else AutoLevels(level, temps)[i - 1], temps[i], AutoLevels(level, temps)[i])
    decreases |temps|
  {
    if temps != [] {
      var next := CoolDownAfter(Sample(temps[0], 0, level, 0, 1), 0, true);
      var rest := AutoLevels(next, temps[1..]);
      var levels := AutoLevels(level, temps);
      assert levels == [next] + rest;
      AutoLevelsHysteresis(next, temps[1..]);
      forall i | 0 <= i < |temps|
        ensures HysteresisStep(if i == 0 then level else AutoLevels(level, temps)[i - 1], temps[i], AutoLevels(level, temps)[i])
      {
        if i == 0 {
          assert levels[0] == next;
        } else {
          assert levels[i] == rest[i - 1];
          assert temps[i] == temps[1..][i - 1];
          assert levels[i - 1] == if i - 1 == 0 then next else rest[i - 2];
        }
      }
    }
  }

  /** Auto mode only ever moves between levels 0 and 2: any other level (one
      an explicit speed setting left behind, say) is never rewritten by it. */
  lemma AutoStuck(s: Sample, coolDownAvailable: bool)
    requires s.coolDown != UNTHROTTLED && s.coolDown != THROTTLED
    ensures ThermalDecision(s, 0, coolDownAvailable) == None
  {
  }

  /** Over any sequence of auto-mode cycles, a level other than 0 and 2
      stays as it is. */
  lemma {:induction false} AutoLevelsStuck(level: int32, temps: seq<int32>)
    requires level != UNTHROTTLED && level != THROTTLED
    ensures forall i :: 0 <= i < |temps| ==> AutoLevels(level, temps)[i] == level
    decreases |temps|
  {
    if temps != [] {
      AutoStuck(Sample(temps[0], 0, level, 0, 1), true);
      AutoLevelsStuck(level, temps[1..]);
      var levels := AutoLevels(level, temps);
      assert levels == [level] + AutoLevels(level, temps[1..]);
    }
  }

  /** 39.6, 39.0 and 38.4 degrees from level 0: engage, hold, release. */
  lemma HysteresisScenario()
    ensures AutoLevels(UNTHROTTLED, [396, 390, 384]) == [THROTTLED, THROTTLED, UNTHROTTLED]
  {
  }

  /** What the charge-limit rule does to the charging flag. */
  datatype LimitAction = StopCharging | ResumeCharging | Unchanged

  /** The charge-limit rule. Reaching the limit exactly counts as reached. The
      flag is compared with 0 and 1 only, so any other value it holds is
      rewritten by whichever direction the capacity calls for. */
  function LimitDecision(capacity: int32, userLimit: int32, chargingEnable: int32): (d: LimitAction)
    ensures d == StopCharging <==> capacity >= userLimit && chargingEnable != 0
    ensures d == ResumeCharging <==> capacity < userLimit && chargingEnable != 1
    ensures d == Unchanged <==>
      (capacity >= userLimit && chargingEnable == 0) || (capacity < userLimit && chargingEnable == 1)
  {
    if (userLimit == capacity || userLimit < capacity) && chargingEnable != 0 then StopCharging
    else if userLimit > capacity && chargingEnable != 1 then ResumeCharging
    else Unchanged
  }

  /** The charging flag once the decision has been written. */
  function EnableAfter(chargingEnable: int32, d: LimitAction): int32
  {
    match d
    case StopCharging => 0
    case ResumeCharging => 1
    case Unchanged => chargingEnable
  }

  /** Deciding again on the flag the first decision wrote changes nothing. */
  lemma LimitIdempotent(capacity: int32, userLimit: int32, chargingEnable: int32)
    ensures var d := LimitDecision(capacity, userLimit, chargingEnable);
      LimitDecision(capacity, userLimit, EnableAfter(chargingEnable, d)) == Unchanged
  {
  }
}
