/** The service object: the sysfs files it reads and writes, the log of what
    it has done, the listener flag of the connection receiver and the stored
    preferences. Its methods are the charging cycle and the connection
    receiver, each proved to do what the value model in `Cycle` and
    `Session` says. */
module Service {
  import opened Sysfs
  import opened Policy
  import opened Cycle
  import opened Session

  /** One (event, state) step: the state after `trace + [e]` is the state
      after `trace` with `e` applied. */
  lemma ApplyTraceSnoc(fs: Fs, trace: seq<Event>, e: Event)
    ensures ApplyTrace(fs, trace + [e]) == Apply(ApplyTrace(fs, trace), e)
  {
    assert (trace + [e])[..|trace + [e]| - 1] == trace;
  }

  lemma SeqAssoc(a: seq<Event>, b: seq<Event>, c: seq<Event>)
    ensures (a + b) + c == a + (b + c)
  {
  }

  class SmartChargingService {
    /** The sysfs files: what each holds, which exist, which accept writes. */
    var contents: map<Path, int>
    var existing: set<Path>
    var writable: set<Path>
    /** Every read, write, pause, notification and listener change so far. */
    var log: seq<Event>
    /** Whether the battery listener is registered (`mconnectionInfoReceiver`). */
    var batteryListenerRegistered: bool
    var prefs: Prefs

    /** The sysfs state the service sees. */
    function State(): Fs
      reads this`contents, this`existing, this`writable
    {
      Fs(contents, existing, writable)
    }

    constructor(fs: Fs, prefs: Prefs)
      ensures State() == fs && this.prefs == prefs
      ensures log == [] && !batteryListenerRegistered
    {
      contents := fs.contents;
      existing := fs.existing;
      writable := fs.writable;
      this.prefs := prefs;
      log := [];
      batteryListenerRegistered := false;
    }

    /** Reads and parses the file of `a` at its resolved path; the paths in
        `fault` are garbled on this read. */
    method ReadAttribute(a: Attr, fault: set<Path>) returns (r: Option<int32>)
      modifies this`log
      ensures r == ReadAttr(State(), a, fault)
      ensures log == old(log) + [Read(ResolvePath(existing, a))]
    {
      log := log + [Read(ResolvePath(existing, a))];
      r := ReadAttr(State(), a, fault);
    }

    /** Writes `v` to the resolved file of `a`; a file that does not accept
        writes keeps its contents. */
    method WriteValue(a: Attr, v: int32)
      modifies this`log, this`contents
      ensures log == old(log) + [Write(ResolvePath(existing, a), v)]
      ensures State() == Apply(old(State()), Write(ResolvePath(existing, a), v))
    {
      var p := ResolvePath(existing, a);
      log := log + [Write(p, v)];
      if p in writable {
        contents := contents[p := v as int];
      }
    }

    /** An event that does not touch sysfs: a pause, a notification, a
        listener change or a statistics reset. */
    method Record(e: Event)
      requires !e.Read? && !e.Write?
      modifies this`log
      ensures log == old(log) + [e]
    {
      log := log + [e];
    }

    /** One attempt: the five reads in order, abandoned at the first value
        that does not parse. */
    method ReadBatch(fault: set<Path>) returns (b: Batch)
      modifies this`log
      ensures b == Attempt(State(), fault)
      ensures log == old(log) + b.trace
    {
      var e0 := Read(ResolvePath(existing, Temperature));
      var e1 := Read(ResolvePath(existing, Capacity));
      var e2 := Read(ResolvePath(existing, CoolDown));
      var e3 := Read(ResolvePath(existing, Current));
      var e4 := Read(ResolvePath(existing, ChargingEnable));
      var temp := ReadAttribute(Temperature, fault);
      if temp.None? {
        return Batch(None, [e0]);
      }
      var capacity := ReadAttribute(Capacity, fault);
      if capacity.None? {
        return Batch(None, [e0, e1]);
      }
      var coolDown := ReadAttribute(CoolDown, fault);
      if coolDown.None? {
        return Batch(None, [e0, e1, e2]);
      }
      var current := ReadAttribute(Current, fault);
      if current.None? {
        return Batch(None, [e0, e1, e2, e3]);
      }
      var enable := ReadAttribute(ChargingEnable, fault);
      if enable.None? {
        return Batch(None, [e0, e1, e2, e3, e4]);
      }
      b := Batch(Some([temp.value, capacity.value, coolDown.value, current.value, enable.value]), [e0, e1, e2, e3, e4]);
    }

    /** The thermal rule: writes the cooldown level it decides on. */
    method ApplyThermalRule(s: Sample, chargingSpeed: int32)
      modifies this`log, this`contents
      ensures log == old(log) + ThermalEvents(old(State()), s, chargingSpeed)
      ensures State() == ApplyTrace(old(State()), ThermalEvents(old(State()), s, chargingSpeed))
    {
      ghost var fs0 := State();
      assert ApplyTrace(fs0, []) == fs0;
      if CoolDownAvailable(writable) && s.chargingEnable == 1 {
        if chargingSpeed != 0 && s.coolDown != chargingSpeed {
          WriteValue(CoolDown, chargingSpeed);
          ApplyTraceSnoc(fs0, [], Write(ResolvePath(existing, CoolDown), chargingSpeed));
        } else if chargingSpeed == 0 {
          if s.tempTenths >= HOT_TENTHS && s.coolDown != THROTTLED && s.coolDown == UNTHROTTLED {
            WriteValue(CoolDown, THROTTLED);
            ApplyTraceSnoc(fs0, [], Write(ResolvePath(existing, CoolDown), THROTTLED));
          } else if s.tempTenths <= COOL_TENTHS && s.coolDown != UNTHROTTLED && s.coolDown == THROTTLED {
            WriteValue(CoolDown, UNTHROTTLED);
            ApplyTraceSnoc(fs0, [], Write(ResolvePath(existing, CoolDown), UNTHROTTLED));
          }
        }
      }
    }

    /** The charge-limit rule: stops charging at or above the limit (forcing
        the cooldown level to 0 first when cooldown is available), resumes it
        below, and notifies when power is connected. */
    method ApplyLimitRule(s: Sample, userLimit: int32, powerConnected: bool)
      modifies this`log, this`contents
      ensures log == old(log) + LimitEvents(old(State()), s, userLimit, powerConnected)
      ensures State() == ApplyTrace(old(State()), LimitEvents(old(State()), s, userLimit, powerConnected))
    {
      ghost var fs0 := State();
      ghost var issued: seq<Event> := [];
      assert ApplyTrace(fs0, issued) == fs0;
      if (userLimit == s.capacity || userLimit < s.capacity) && s.chargingEnable != 0 {
        assert LimitDecision(s.capacity, userLimit, s.chargingEnable) == StopCharging;
        if CoolDownAvailable(writable) {
          WriteValue(CoolDown, 0);
          ApplyTraceSnoc(fs0, issued, Write(ResolvePath(existing, CoolDown), 0));
          issued := issued + [Write(ResolvePath(existing, CoolDown), 0)];
        }
        WriteValue(ChargingEnable, 0);
        ApplyTraceSnoc(fs0, issued, Write(ResolvePath(existing, ChargingEnable), 0));
        issued := issued + [Write(ResolvePath(existing, ChargingEnable), 0)];
        if powerConnected {
          Record(Notify(ChargingStopped));
          ApplyTraceSnoc(fs0, issued, Notify(ChargingStopped));
          issued := issued + [Notify(ChargingStopped)];
        }
        assert issued == LimitEvents(fs0, s, userLimit, powerConnected);
      } else if userLimit > s.capacity && s.chargingEnable != 1 {
        assert LimitDecision(s.capacity, userLimit, s.chargingEnable) == ResumeCharging;
        WriteValue(ChargingEnable, 1);
        ApplyTraceSnoc(fs0, issued, Write(ResolvePath(existing, ChargingEnable), 1));
        issued := issued + [Write(ResolvePath(existing, ChargingEnable), 1)];
        if powerConnected {
          Record(Notify(ChargingStatus));
          ApplyTraceSnoc(fs0, issued, Notify(ChargingStatus));
          issued := issued + [Notify(ChargingStatus)];
        }
        assert issued == LimitEvents(fs0, s, userLimit, powerConnected);
      } else {
        assert LimitDecision(s.capacity, userLimit, s.chargingEnable) == Unchanged;
      }
    }

    /** The retry loop of a charging cycle: up to three attempts at reading
        a sample, 500 ms apart, each from the first read; `None` once the
        third attempt has failed. `faults` holds the garbled reads of each
        attempt. */
    method ReadWithRetries(faults: seq<set<Path>>) returns (sample: Option<Sample>)
      modifies this`log
      ensures sample == ReadTelemetry(State(), faults, 0).sample
      ensures log == old(log) + ReadTelemetry(State(), faults, 0).trace
    {
      ghost var fs := State();
      ghost var t := ReadTelemetry(fs, faults, 0);
      var retryCount: nat := 0;
      while retryCount < MAX_RETRIES
        invariant retryCount < MAX_RETRIES
        invariant log + ReadTelemetry(fs, faults, retryCount).trace == old(log) + t.trace
        invariant ReadTelemetry(fs, faults, retryCount).sample == t.sample
        decreases MAX_RETRIES - retryCount
      {
        ghost var here := ReadTelemetry(fs, faults, retryCount);
        ghost var logBefore := log;
        assert logBefore + here.trace == old(log) + t.trace;
        assert here.sample == t.sample;
        var b := ReadBatch(FaultAt(faults, retryCount));
        if b.values.Some? {
          TelemetrySucceeds(fs, faults, retryCount);
          return Some(SampleOf(b.values.value));
        }
        TelemetryFails(fs, faults, retryCount);
        retryCount := retryCount + 1;
        if retryCount >= MAX_RETRIES {
          return None;
        }
        Record(Sleep(RETRY_PAUSE_MS));
        ghost var rest := ReadTelemetry(fs, faults, retryCount);
        ghost var step := b.trace + [Sleep(RETRY_PAUSE_MS)];
        SeqAssoc(logBefore, b.trace, [Sleep(RETRY_PAUSE_MS)]);
        SeqAssoc(logBefore, step, rest.trace);
        assert log == logBefore + step;
        assert here.trace == step + rest.trace;
        assert log + rest.trace == logBefore + (step + rest.trace);
        assert rest.sample == here.sample;
      }
      return None;
    }

    /** One charging cycle, run when the battery state changes: the retry
        loop; nothing more if it gives up; otherwise the thermal rule, then
        the charge-limit rule against the stored limit. `chargingSpeed` is
        the `charging_speed` system setting (0 when unset), `powerConnected`
        what the power state reports. */
    method UpdateChargingStatus(faults: seq<set<Path>>, chargingSpeed: int32, powerConnected: bool)
      modifies this`log, this`contents
      ensures log == old(log) + CycleTrace(old(State()), faults, UserLimit(prefs), chargingSpeed, powerConnected)
      ensures State() == ApplyTrace(old(State()), CycleTrace(old(State()), faults, UserLimit(prefs), chargingSpeed, powerConnected))
    {
      ghost var fs0 := State();
      ghost var log0 := log;
      ghost var t := ReadTelemetry(fs0, faults, 0);
      var userLimit := UserLimit(prefs);
      var sample := ReadWithRetries(faults);
      assert log == log0 + t.trace;
      TelemetryIsSilent(fs0, faults);
      if sample.None? {
        assert CycleTrace(fs0, faults, userLimit, chargingSpeed, powerConnected) == t.trace;
        return;
      }
      var s := sample.value;
      ghost var thermal := ThermalEvents(fs0, s, chargingSpeed);
      ghost var limit := LimitEvents(fs0, s, userLimit, powerConnected);
      ApplyThermalRule(s, chargingSpeed);
      ghost var fs1 := State();
      ghost var log1 := log;
      assert fs1 == ApplyTrace(fs0, thermal);
      assert log1 == log0 + t.trace + thermal;
      assert LimitEvents(fs1, s, userLimit, powerConnected) == limit;
      ApplyLimitRule(s, userLimit, powerConnected);
      assert log == log1 + limit;
      assert State() == ApplyTrace(fs1, limit);
      CycleSplit(fs0, faults, userLimit, chargingSpeed, powerConnected);
      assert CycleTrace(fs0, faults, userLimit, chargingSpeed, powerConnected) == t.trace + thermal + limit;
      ghost var cycle := t.trace + thermal + limit;
      SeqAssoc(log0, t.trace + thermal, limit);
      SeqAssoc(log0, t.trace, thermal);
      assert log == log0 + cycle;
      ApplyTraceAppend(fs0, t.trace, thermal);
      assert ApplyTrace(fs0, t.trace + thermal) == fs1;
      ApplyTraceAppend(fs0, t.trace + thermal, limit);
      assert State() == ApplyTrace(fs0, cycle);
    }

    /** The connection receiver, for one broadcast; the paths in `fault` are
        garbled on its capacity read. */
    method OnConnectionEvent(action: PowerAction, fault: set<Path>, powerConnected: bool)
      modifies this`log, this`batteryListenerRegistered
      ensures var r := OnConnection(State(), fault, action, old(batteryListenerRegistered), prefs, powerConnected);
        log == old(log) + r.trace && batteryListenerRegistered == r.registered
    {
      var capacity := ReadAttribute(Capacity, fault);
      if capacity.None? {
        // The parse error escapes the handler.
        return;
      }
      if action == PowerConnected {
        if !batteryListenerRegistered {
          Record(RegisterBatteryListener);
          batteryListenerRegistered := true;
        }
        if powerConnected {
          Record(Notify(ChargingStatus));
        }
      } else {
        if ResetStatsEnabled(prefs) && UserLimit(prefs) == capacity.value {
          Record(ResetStats);
        }
        if batteryListenerRegistered {
          Record(UnregisterBatteryListener);
          batteryListenerRegistered := false;
        }
        Record(CancelNotice);
      }
    }
  }
}
