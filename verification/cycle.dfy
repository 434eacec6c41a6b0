/** One charging cycle as a value: the reads with their bounded retry, the
    writes and notifications the decisions call for, in the order the service
    issues them, and what those writes leave in sysfs. */
module Cycle {
  import opened Sysfs
  import opened Policy

  /** The notifications the service posts on its one channel. */
  datatype Notice =
    | ChargingStatus   // "smart charging" status text, no body
    | ChargingStopped  // title plus "charging stopped" body

  /** Everything observable the service does. Writes are recorded as issued,
      whether or not the file accepted them. */
  datatype Event =
    | Read(path: Path)
    | Write(path: Path, value: int32)
    | Sleep(millis: nat)
    | Notify(notice: Notice)
    | CancelNotice
    | ResetStats
    | RegisterBatteryListener
    | UnregisterBatteryListener

  const MAX_RETRIES: nat := 3
  const RETRY_PAUSE_MS: nat := 500

  /** The order of the reads in one attempt. */
  const READ_ORDER: seq<Attr> := [Temperature, Capacity, CoolDown, Current, ChargingEnable]

  /** The paths whose read is garbled on attempt `attempt`; none past the list. */
  function FaultAt(faults: seq<set<Path>>, attempt: nat): set<Path>
  {
    if attempt < |faults| then faults[attempt] else {}
  }

  datatype Batch = Batch(values: Option<seq<int32>>, trace: seq<Event>)

  /** The reads of the first `k` attributes of `READ_ORDER`. */
  function Reads(existing: set<Path>, k: nat): (trace: seq<Event>)
    requires k <= |READ_ORDER|
    ensures |trace| == k
  {
    seq(k, i requires 0 <= i < k => Read(ResolvePath(existing, READ_ORDER[i])))
  }

  /** One attempt: the five reads in `READ_ORDER`, abandoned right after the
      first value that does not parse. Its events are the reads of a prefix
      of `READ_ORDER`, all five when it succeeds. */
  function Attempt(fs: Fs, fault: set<Path>): (b: Batch)
    ensures 1 <= |b.trace| <= |READ_ORDER| && b.trace == Reads(fs.existing, |b.trace|)
    ensures b.values.Some? ==> |b.values.value| == |b.trace| == |READ_ORDER|
  {
    match ReadAttr(fs, Temperature, fault)
    case None => Batch(None, Reads(fs.existing, 1))
    case Some(temp) =>
      match ReadAttr(fs, Capacity, fault)
      case None => Batch(None, Reads(fs.existing, 2))
      case Some(capacity) =>
        match ReadAttr(fs, CoolDown, fault)
        case None => Batch(None, Reads(fs.existing, 3))
        case Some(coolDown) =>
          match ReadAttr(fs, Current, fault)
          case None => Batch(None, Reads(fs.existing, 4))
          case Some(current) =>
            match ReadAttr(fs, ChargingEnable, fault)
            case None => Batch(None, Reads(fs.existing, 5))
            case Some(enable) => Batch(Some([temp, capacity, coolDown, current, enable]), Reads(fs.existing, 5))
  }

  /** An attempt gets through exactly when all five values parse, and then
      carries them in order; one that fails stops at the first value that
      does not parse, every earlier one having parsed. */
  lemma AttemptStopsAtFirstFailure(fs: Fs, fault: set<Path>)
    ensures var b := Attempt(fs, fault);
      && (b.values.Some? <==> forall i :: 0 <= i < |READ_ORDER| ==> ReadAttr(fs, READ_ORDER[i], fault).Some?)
      && (b.values.Some? ==> forall i :: 0 <= i < |READ_ORDER| ==> ReadAttr(fs, READ_ORDER[i], fault) == Some(b.values.value[i]))
      && (b.values.None? ==>
            && ReadAttr(fs, READ_ORDER[|b.trace| - 1], fault).None?
            && forall i :: 0 <= i < |b.trace| - 1 ==> ReadAttr(fs, READ_ORDER[i], fault).Some?)
  {
    var b := Attempt(fs, fault);
    var r := [ReadAttr(fs, Temperature, fault), ReadAttr(fs, Capacity, fault), ReadAttr(fs, CoolDown, fault),
              ReadAttr(fs, Current, fault), ReadAttr(fs, ChargingEnable, fault)];
    assert forall i :: 0 <= i < |READ_ORDER| ==> ReadAttr(fs, READ_ORDER[i], fault) == r[i];
    if b.values.Some? {
      assert b.values.value == [r[0].value, r[1].value, r[2].value, r[3].value, r[4].value];
    } else {
      assert r[|b.trace| - 1].None?;
    }
  }

  /** The sample built from the five values in `READ_ORDER`; the current is
      negated, as the service does to report charge current as positive. */
  function SampleOf(vals: seq<int32>): (s: Sample)
    requires |vals| == |READ_ORDER|
    ensures s.tempTenths == vals[0] && s.capacity == vals[1] && s.coolDown == vals[2] && s.chargingEnable == vals[4]
    ensures Neg32(s.currentMa) == vals[3]
  {
    Sample(vals[0], vals[1], vals[2], Neg32(vals[3]), vals[4])
  }

  /** What the retry loop produced: the sample of the attempt that got through
      (none if all failed), the events, and how many attempts were made. */
  datatype Telemetry = Telemetry(sample: Option<Sample>, trace: seq<Event>, attempts: nat)

  /** The retry loop from the attempt numbered `retryCount` on: a failed
      attempt is followed by a pause and a fresh attempt from the first
      attribute, until the third failure ends the cycle. */
  function ReadTelemetry(fs: Fs, faults: seq<set<Path>>, retryCount: nat): (t: Telemetry)
    requires retryCount < MAX_RETRIES
    ensures retryCount < t.attempts <= MAX_RETRIES
    ensures t.sample.None? ==> t.attempts == MAX_RETRIES
    decreases MAX_RETRIES - retryCount
  {
    var b := Attempt(fs, FaultAt(faults, retryCount));
    if b.values.Some? then Telemetry(Some(SampleOf(b.values.value)), b.trace, retryCount + 1)
    else if retryCount + 1 >= MAX_RETRIES then Telemetry(None, b.trace, retryCount + 1)
    else
      var rest := ReadTelemetry(fs, faults, retryCount + 1);
      Telemetry(rest.sample, b.trace + [Sleep(RETRY_PAUSE_MS)] + rest.trace, rest.attempts)
  }

  /** A turn of the retry loop whose attempt gets through ends the loop with
      that attempt's sample. */
  lemma TelemetrySucceeds(fs: Fs, faults: seq<set<Path>>, retryCount: nat)
    requires retryCount < MAX_RETRIES
    requires Attempt(fs, FaultAt(faults, retryCount)).values.Some?
    ensures var b := Attempt(fs, FaultAt(faults, retryCount));
      var t := ReadTelemetry(fs, faults, retryCount);
      |b.values.value| == |READ_ORDER| && t.sample == Some(SampleOf(b.values.value)) && t.trace == b.trace
  {
  }

  /** A turn of the retry loop whose attempt fails gives up after the third
      attempt, and otherwise pauses and starts over. */
  lemma TelemetryFails(fs: Fs, faults: seq<set<Path>>, retryCount: nat)
    requires retryCount < MAX_RETRIES
    requires Attempt(fs, FaultAt(faults, retryCount)).values.None?
    ensures var b := Attempt(fs, FaultAt(faults, retryCount));
      var t := ReadTelemetry(fs, faults, retryCount);
      && (retryCount + 1 >= MAX_RETRIES ==> t.sample.None? && t.trace == b.trace)
      && (retryCount + 1 < MAX_RETRIES ==>
            && t.sample == ReadTelemetry(fs, faults, retryCount + 1).sample
            && t.trace == b.trace + [Sleep(RETRY_PAUSE_MS)] + ReadTelemetry(fs, faults, retryCount + 1).trace)
  {
  }

  /** The write of the thermal rule, if any. */
  function ThermalEvents(fs: Fs, s: Sample, chargingSpeed: int32): (r: seq<Event>)
    ensures |r| <= 1
    ensures r == [] <==> ThermalDecision(s, chargingSpeed, CoolDownAvailable(fs.writable)).None?
    ensures r != [] ==>
      && r[0].Write? && r[0].path == ResolvePath(fs.existing, CoolDown)
      && r[0].value != s.coolDown && CoolDownAvailable(fs.writable) && s.chargingEnable == 1
    ensures forall v :: Write(ResolvePath(fs.existing, CoolDown), v) in r <==>
      ThermalDecision(s, chargingSpeed, CoolDownAvailable(fs.writable)) == Some(v)
  {
    match ThermalDecision(s, chargingSpeed, CoolDownAvailable(fs.writable))
    case Some(v) => [Write(ResolvePath(fs.existing, CoolDown), v)]
    case None => []
  }

  /** The writes and the notification of the charge-limit rule. Stopping also
      forces the cooldown level back to 0 when cooldown is available. */
  function LimitEvents(fs: Fs, s: Sample, userLimit: int32, powerConnected: bool): (r: seq<Event>)
    ensures |r| <= 3
    ensures r == [] <==> LimitDecision(s.capacity, userLimit, s.chargingEnable) == Unchanged
  {
    var enablePath := ResolvePath(fs.existing, ChargingEnable);
    match LimitDecision(s.capacity, userLimit, s.chargingEnable)
    case StopCharging =>
      (if CoolDownAvailable(fs.writable) then [Write(ResolvePath(fs.existing, CoolDown), 0)] else [])
      + [Write(enablePath, 0)]
      + (if powerConnected then [Notify(ChargingStopped)] else [])
    case ResumeCharging =>
      [Write(enablePath, 1)]
      + (if powerConnected then [Notify(ChargingStatus)] else [])
    case Unchanged => []
  }

  /** Every event of one cycle: `userLimit` is the user's charge limit,
      `chargingSpeed` the speed setting, `powerConnected` what the power
      state reports, `faults` the garbled reads of each attempt. */
  function CycleTrace(fs: Fs, faults: seq<set<Path>>, userLimit: int32, chargingSpeed: int32, powerConnected: bool): (r: seq<Event>)
    ensures |ReadTelemetry(fs, faults, 0).trace| <= |r| <= |ReadTelemetry(fs, faults, 0).trace| + 4
    ensures r[..|ReadTelemetry(fs, faults, 0).trace|] == ReadTelemetry(fs, faults, 0).trace
    ensures ReadTelemetry(fs, faults, 0).sample.None? ==> r == ReadTelemetry(fs, faults, 0).trace
  {
    var t := ReadTelemetry(fs, faults, 0);
    match t.sample
    case None => t.trace
    case Some(s) => t.trace + ThermalEvents(fs, s, chargingSpeed) + LimitEvents(fs, s, userLimit, powerConnected)
  }

  /** The effect of one event on sysfs. */
  function Apply(fs: Fs, e: Event): Fs
  {
    if e.Write? then WriteAt(fs, e.path, e.value) else fs
  }

  /** The sysfs state after the events of `trace`, applied in order. */
  function ApplyTrace(fs: Fs, trace: seq<Event>): (r: Fs)
    ensures r.existing == fs.existing && r.writable == fs.writable
    decreases |trace|
  {
    if trace == [] then fs
    else Apply(ApplyTrace(fs, trace[..|trace| - 1]), trace[|trace| - 1])
  }

  /** The value of the last write to `p` in `trace`, if any. */
  function LastWrite(trace: seq<Event>, p: Path): Option<int32>
    decreases |trace|
  {
    if trace == [] then None
    else
      var e := trace[|trace| - 1];
      if e.Write? && e.path == p then Some(e.value) else LastWrite(trace[..|trace| - 1], p)
  }

  /** `fs` and `fs'` agree on the contents of `p`. */
  ghost predicate SameAt(fs: Fs, fs': Fs, p: Path)
  {
    (p in fs.contents <==> p in fs'.contents) && (p in fs.contents ==> fs.contents[p] == fs'.contents[p])
  }

  /** The kinds of event the cycle lemmas count. */
  datatype Kind = AttemptStart | Pause | AnyWrite | AnyNotice | Registration | Unregistration | StatsReset

  /** `e` is of kind `k`; an attempt starts with the temperature read. */
  predicate IsKind(e: Event, k: Kind)
  {
    match k
    case AttemptStart => e.Read? && e.path.attr == Temperature
    case Pause => e.Sleep?
    case AnyWrite => e.Write?
    case AnyNotice => e.Notify?
    case Registration => e.RegisterBatteryListener?
    case Unregistration => e.UnregisterBatteryListener?
    case StatsReset => e.ResetStats?
  }

  /** How many events of `trace` are of kind `k`. */
  function Count(trace: seq<Event>, k: Kind): nat
    decreases |trace|
  {
    if trace == [] then 0 else (if IsKind(trace[0], k) then 1 else 0) + Count(trace[1..], k)
  }

  /** `trace` holds only reads of resolved paths and 500 ms pauses. */
  ghost predicate SamplingOnly(fs: Fs, trace: seq<Event>)
  {
    forall e :: e in trace ==>
      (e.Read? && e.path == ResolvePath(fs.existing, e.path.attr)) || e == Sleep(RETRY_PAUSE_MS)
  }

  // ---------------------------------------------------------------------
  // Facts about the helpers

  lemma {:induction false} CountAppend(a: seq<Event>, b: seq<Event>, k: Kind)
    ensures Count(a + b, k) == Count(a, k) + Count(b, k)
    decreases |a|
  {
    if a != [] {
      assert (a + b)[1..] == a[1..] + b;
      CountAppend(a[1..], b, k);
    } else {
      assert a + b == b;
    }
  }

  lemma {:induction false} CountNone(a: seq<Event>, k: Kind)
    requires forall i :: 0 <= i < |a| ==> !IsKind(a[i], k)
    ensures Count(a, k) == 0
    decreases |a|
  {
    if a != [] {
      CountNone(a[1..], k);
    }
  }

  /** Each attempt reads the temperature first, reads only resolved paths,
      and so starts exactly one attempt and never pauses. */
  lemma BatchShape(fs: Fs, fault: set<Path>)
    ensures var b := Attempt(fs, fault);
      && b.trace[0] == Read(ResolvePath(fs.existing, Temperature))
      && (forall e :: e in b.trace ==> e.Read? && e.path == ResolvePath(fs.existing, e.path.attr))
      && Count(b.trace, AttemptStart) == 1
      && Count(b.trace, Pause) == 0
  {
    var b := Attempt(fs, fault);
    BatchCounts(b.trace, fs.existing);
  }

  /** A trace of reads that begins with the temperature read and then reads
      the other attributes starts one attempt and has no pause. */
  lemma BatchCounts(trace: seq<Event>, existing: set<Path>)
    requires |trace| >= 1 && trace[0] == Read(ResolvePath(existing, Temperature))
    requires forall i :: 1 <= i < |trace| ==> trace[i].Read? && trace[i].path.attr != Temperature
    ensures Count(trace, AttemptStart) == 1
    ensures Count(trace, Pause) == 0
  {
    assert forall i :: 0 <= i < |trace[1..]| ==> trace[1..][i] == trace[i + 1];
    CountNone(trace[1..], AttemptStart);
    CountNone(trace, Pause);
  }

  lemma {:induction false} ApplyTraceAppend(fs: Fs, a: seq<Event>, b: seq<Event>)
    ensures ApplyTrace(fs, a + b) == ApplyTrace(ApplyTrace(fs, a), b)
    decreases |b|
  {
    if b == [] {
      assert a + b == a;
    } else {
      assert (a + b)[..|a + b| - 1] == a + b[..|b| - 1];
      ApplyTraceAppend(fs, a, b[..|b| - 1]);
    }
  }

  lemma {:induction false} LastWriteAppend(a: seq<Event>, b: seq<Event>, p: Path)
    ensures LastWrite(a + b, p) == if LastWrite(b, p).Some? then LastWrite(b, p) else LastWrite(a, p)
    decreases |b|
  {
    if b == [] {
      assert a + b == a;
    } else {
      assert (a + b)[..|a + b| - 1] == a + b[..|b| - 1];
      LastWriteAppend(a, b[..|b| - 1], p);
    }
  }

  /** What a trace leaves at one path: the last value written there if the
      path is writable, the old contents otherwise. */
  lemma {:induction false} ApplyTraceAt(fs: Fs, trace: seq<Event>, p: Path)
    ensures var r := ApplyTrace(fs, trace);
      match LastWrite(trace, p)
      case Some(v) => (p in fs.writable ==> p in r.contents && r.contents[p] == v as int)
                      && (p !in fs.writable ==> SameAt(fs, r, p))
      case None => SameAt(fs, r, p)
    decreases |trace|
  {
    if trace != [] {
      ApplyTraceAt(fs, trace[..|trace| - 1], p);
    }
  }

  lemma {:induction false} NoWritesNoChange(fs: Fs, trace: seq<Event>)
    requires forall i :: 0 <= i < |trace| ==> !trace[i].Write?
    ensures ApplyTrace(fs, trace) == fs
    ensures forall p :: LastWrite(trace, p) == None
    decreases |trace|
  {
    if trace != [] {
      NoWritesNoChange(fs, trace[..|trace| - 1]);
    }
  }

  // ---------------------------------------------------------------------
  // The retry loop

  /** The retry loop only reads resolved paths and pauses, and it begins
      with the read of the first attribute. */
  lemma {:induction false} TelemetrySamplingOnly(fs: Fs, faults: seq<set<Path>>, retryCount: nat)
    requires retryCount < MAX_RETRIES
    ensures var t := ReadTelemetry(fs, faults, retryCount);
      && SamplingOnly(fs, t.trace)
      && |t.trace| >= 1 && t.trace[0] == Read(ResolvePath(fs.existing, Temperature))
    decreases MAX_RETRIES - retryCount
  {
    BatchShape(fs, FaultAt(faults, retryCount));
    var b := Attempt(fs, FaultAt(faults, retryCount));
    if b.values.None? && retryCount + 1 < MAX_RETRIES {
      TelemetrySamplingOnly(fs, faults, retryCount + 1);
    }
  }

  /** At most three attempts; each begins with the temperature read, so there
      are exactly as many temperature reads as attempts, and one 500 ms pause
      between consecutive attempts. */
  lemma {:induction false} TelemetryCounts(fs: Fs, faults: seq<set<Path>>, retryCount: nat)
    requires retryCount < MAX_RETRIES
    ensures var t := ReadTelemetry(fs, faults, retryCount);
      && 1 <= t.attempts - retryCount <= MAX_RETRIES
      && Count(t.trace, AttemptStart) == t.attempts - retryCount
      && Count(t.trace, Pause) == t.attempts - retryCount - 1
    decreases MAX_RETRIES - retryCount
  {
    var b := Attempt(fs, FaultAt(faults, retryCount));
    BatchCountsOf(fs, FaultAt(faults, retryCount));
    if b.values.None? && retryCount + 1 < MAX_RETRIES {
      var rest := ReadTelemetry(fs, faults, retryCount + 1);
      TelemetryCounts(fs, faults, retryCount + 1);
      assert ReadTelemetry(fs, faults, retryCount).trace == b.trace + [Sleep(RETRY_PAUSE_MS)] + rest.trace;
      CountRetry(b.trace, rest.trace, AttemptStart);
      CountRetry(b.trace, rest.trace, Pause);
    }
  }

  /** One attempt's counts. */
  lemma BatchCountsOf(fs: Fs, fault: set<Path>)
    ensures Count(Attempt(fs, fault).trace, AttemptStart) == 1
    ensures Count(Attempt(fs, fault).trace, Pause) == 0
  {
    BatchShape(fs, fault);
  }

  /** Counting over a failed attempt, a pause and the attempts after it. */
  lemma CountRetry(b: seq<Event>, rest: seq<Event>, k: Kind)
    ensures Count(b + [Sleep(RETRY_PAUSE_MS)] + rest, k)
      == Count(b, k) + (if k == Pause then 1 else 0) + Count(rest, k)
  {
    CountAppend(b + [Sleep(RETRY_PAUSE_MS)], rest, k);
    CountAppend(b, [Sleep(RETRY_PAUSE_MS)], k);
    assert [Sleep(RETRY_PAUSE_MS)][1..] == [];
  }

  /** Every pause in `trace` is directly followed by `first`. */
  ghost predicate PausesRestart(trace: seq<Event>, first: Event)
    decreases |trace|
  {
    trace != [] ==>
      && (trace[0].Sleep? ==> |trace| >= 2 && trace[1] == first)
      && PausesRestart(trace[1..], first)
  }

  /** Prefixing a pause-free attempt and a pause to a trace that begins with
      `first` keeps every pause followed by `first`. */
  lemma {:induction false} RestartJoin(b: seq<Event>, rest: seq<Event>, first: Event)
    requires forall e :: e in b ==> !e.Sleep?
    requires |rest| >= 1 && rest[0] == first
    requires PausesRestart(rest, first)
    ensures PausesRestart(b + [Sleep(RETRY_PAUSE_MS)] + rest, first)
    decreases |b|
  {
    var t := b + [Sleep(RETRY_PAUSE_MS)] + rest;
    if b == [] {
      assert t == [Sleep(RETRY_PAUSE_MS)] + rest;
      assert t[1..] == rest;
    } else {
      assert b[0] in b;
      RestartJoin(b[1..], rest, first);
      assert t[1..] == b[1..] + [Sleep(RETRY_PAUSE_MS)] + rest;
    }
  }

  /** A trace without pauses trivially has every pause followed by `first`. */
  lemma {:induction false} NoPausesRestart(b: seq<Event>, first: Event)
    requires forall e :: e in b ==> !e.Sleep?
    ensures PausesRestart(b, first)
    decreases |b|
  {
    if b != [] {
      assert b[0] in b;
      NoPausesRestart(b[1..], first);
    }
  }

  /** A retry restarts the batch: every pause is followed by the read of the
      first attribute. */
  lemma {:induction false} TelemetryRestarts(fs: Fs, faults: seq<set<Path>>, retryCount: nat)
    requires retryCount < MAX_RETRIES
    ensures PausesRestart(ReadTelemetry(fs, faults, retryCount).trace, Read(ResolvePath(fs.existing, Temperature)))
    decreases MAX_RETRIES - retryCount
  {
    var b := Attempt(fs, FaultAt(faults, retryCount));
    BatchShape(fs, FaultAt(faults, retryCount));
    if b.values.None? && retryCount + 1 < MAX_RETRIES {
      TelemetryRestarts(fs, faults, retryCount + 1);
      TelemetrySamplingOnly(fs, faults, retryCount + 1);
      RestartJoin(b.trace, ReadTelemetry(fs, faults, retryCount + 1).trace, Read(ResolvePath(fs.existing, Temperature)));
      assert ReadTelemetry(fs, faults, retryCount).trace
        == b.trace + [Sleep(RETRY_PAUSE_MS)] + ReadTelemetry(fs, faults, retryCount + 1).trace;
    } else {
      NoPausesRestart(b.trace, Read(ResolvePath(fs.existing, Temperature)));
    }
  }

  /** A sample that gets through carries what sysfs holds at the five
      resolved paths (the current negated). */
  lemma {:induction false} TelemetryReadsFs(fs: Fs, faults: seq<set<Path>>, retryCount: nat)
    requires retryCount < MAX_RETRIES
    ensures var t := ReadTelemetry(fs, faults, retryCount);
      t.sample.Some? ==>
        var s := t.sample.value;
        && ResolvePath(fs.existing, Temperature) in fs.contents
        && ResolvePath(fs.existing, Capacity) in fs.contents
        && ResolvePath(fs.existing, CoolDown) in fs.contents
        && ResolvePath(fs.existing, Current) in fs.contents
        && ResolvePath(fs.existing, ChargingEnable) in fs.contents
        && s.tempTenths as int == fs.contents[ResolvePath(fs.existing, Temperature)]
        && s.capacity as int == fs.contents[ResolvePath(fs.existing, Capacity)]
        && s.coolDown as int == fs.contents[ResolvePath(fs.existing, CoolDown)]
        && Neg32(s.currentMa) as int == fs.contents[ResolvePath(fs.existing, Current)]
        && s.chargingEnable as int == fs.contents[ResolvePath(fs.existing, ChargingEnable)]
    decreases MAX_RETRIES - retryCount
  {
    var fault := FaultAt(faults, retryCount);
    var b := Attempt(fs, fault);
    AttemptStopsAtFirstFailure(fs, fault);
    if b.values.Some? {
      var v := b.values.value;
      assert ReadAttr(fs, READ_ORDER[0], fault) == Some(v[0]);
      assert ReadAttr(fs, READ_ORDER[1], fault) == Some(v[1]);
      assert ReadAttr(fs, READ_ORDER[2], fault) == Some(v[2]);
      assert ReadAttr(fs, READ_ORDER[3], fault) == Some(v[3]);
      assert ReadAttr(fs, READ_ORDER[4], fault) == Some(v[4]);
      assert Neg32(Neg32(v[3])) == v[3];
    } else if retryCount + 1 < MAX_RETRIES {
      TelemetryReadsFs(fs, faults, retryCount + 1);
    }
  }

  /** When the resolved cooldown file holds no integer, every attempt fails
      at the cooldown read, so the retry loop from any attempt on gives up. */
  lemma {:induction false} UnreadableCoolDownFails(fs: Fs, faults: seq<set<Path>>, retryCount: nat)
    requires retryCount < MAX_RETRIES
    requires ResolvePath(fs.existing, CoolDown) !in fs.contents
    ensures ReadTelemetry(fs, faults, retryCount).sample.None?
    decreases MAX_RETRIES - retryCount
  {
    var fault := FaultAt(faults, retryCount);
    assert ReadAttr(fs, CoolDown, fault).None?;
    assert Attempt(fs, fault).values.None?;
    if retryCount + 1 < MAX_RETRIES {
      UnreadableCoolDownFails(fs, faults, retryCount + 1);
    }
  }

  // ---------------------------------------------------------------------
  // The whole cycle

  /** After the third failed attempt the cycle ends silently: three attempts,
      two pauses, no write, no notification, sysfs untouched. */
  lemma ExhaustedCycleIsSilent(fs: Fs, faults: seq<set<Path>>, userLimit: int32, chargingSpeed: int32, powerConnected: bool)
    requires ReadTelemetry(fs, faults, 0).sample.None?
    ensures var trace := CycleTrace(fs, faults, userLimit, chargingSpeed, powerConnected);
      && Count(trace, AttemptStart) == MAX_RETRIES
      && Count(trace, Pause) == MAX_RETRIES - 1
      && Count(trace, AnyWrite) == 0
      && Count(trace, AnyNotice) == 0
      && ApplyTrace(fs, trace) == fs
  {
    var trace := CycleTrace(fs, faults, userLimit, chargingSpeed, powerConnected);
    assert trace == ReadTelemetry(fs, faults, 0).trace;
    TelemetryCounts(fs, faults, 0);
    TelemetryIsSilent(fs, faults);
    CountNone(trace, AnyWrite);
    CountNone(trace, AnyNotice);
    NoWritesNoChange(fs, trace);
  }

  /** A cooldown file that holds no integer disables the whole cycle, the
      charge limit included: no sample, no write, no notification. Only an
      unwritable cooldown file is tolerated (it skips the cooldown writes). */
  lemma UnreadableCoolDownBlocksLimit(fs: Fs, faults: seq<set<Path>>, userLimit: int32, chargingSpeed: int32, powerConnected: bool)
    requires ResolvePath(fs.existing, CoolDown) !in fs.contents
    ensures ReadTelemetry(fs, faults, 0).sample.None?
    ensures var trace := CycleTrace(fs, faults, userLimit, chargingSpeed, powerConnected);
      Count(trace, AnyWrite) == 0 && Count(trace, AnyNotice) == 0 && ApplyTrace(fs, trace) == fs
  {
    UnreadableCoolDownFails(fs, faults, 0);
    ExhaustedCycleIsSilent(fs, faults, userLimit, chargingSpeed, powerConnected);
  }

  /** `e` touches only the resolved path of its attribute; a write happens
      only once a sample got through and goes to the cooldown level or the
      charging flag, the flag only with 0 or 1, and the cooldown level only
      when cooldown is available and the flag read this cycle is not 0. */
  ghost predicate ControlledAccess(fs: Fs, sample: Option<Sample>, e: Event)
  {
    && ((e.Read? || e.Write?) ==> e.path == ResolvePath(fs.existing, e.path.attr))
    && (e.Write? ==> sample.Some? && (e.path.attr == CoolDown || e.path.attr == ChargingEnable))
    && (e.Write? && e.path.attr == ChargingEnable ==> e.value == 0 || e.value == 1)
    && (e.Write? && e.path.attr == CoolDown ==> CoolDownAvailable(fs.writable) && sample.value.chargingEnable != 0)
  }

  /** Every event of `trace` keeps to the controls. */
  ghost predicate AllControlled(fs: Fs, sample: Option<Sample>, trace: seq<Event>)
  {
    forall i :: 0 <= i < |trace| ==> ControlledAccess(fs, sample, trace[i])
  }

  lemma ControlledAppend(fs: Fs, sample: Option<Sample>, a: seq<Event>, b: seq<Event>)
    requires AllControlled(fs, sample, a) && AllControlled(fs, sample, b)
    ensures AllControlled(fs, sample, a + b)
  {
    assert forall i :: |a| <= i < |a + b| ==> (a + b)[i] == b[i - |a|];
  }

  /** The decisions' events of a cycle keep to the controls. */
  lemma DecisionsControlled(fs: Fs, s: Sample, userLimit: int32, chargingSpeed: int32, powerConnected: bool)
    ensures AllControlled(fs, Some(s), ThermalEvents(fs, s, chargingSpeed))
    ensures AllControlled(fs, Some(s), LimitEvents(fs, s, userLimit, powerConnected))
  {
  }

  /** The retry loop's reads keep to the controls. */
  lemma TelemetryControlled(fs: Fs, faults: seq<set<Path>>)
    ensures var t := ReadTelemetry(fs, faults, 0);
      AllControlled(fs, t.sample, t.trace)
  {
    var t := ReadTelemetry(fs, faults, 0);
    TelemetrySamplingOnly(fs, faults, 0);
    assert forall i :: 0 <= i < |t.trace| ==> t.trace[i] in t.trace;
  }

  /** Every event of a cycle keeps to the controls. */
  lemma CycleWritesOnlyControls(fs: Fs, faults: seq<set<Path>>, userLimit: int32, chargingSpeed: int32, powerConnected: bool)
    ensures AllControlled(fs, ReadTelemetry(fs, faults, 0).sample, CycleTrace(fs, faults, userLimit, chargingSpeed, powerConnected))
  {
    var t := ReadTelemetry(fs, faults, 0);
    TelemetryControlled(fs, faults);
    if t.sample.Some? {
      var s := t.sample.value;
      var thermal := ThermalEvents(fs, s, chargingSpeed);
      var limit := LimitEvents(fs, s, userLimit, powerConnected);
      DecisionsControlled(fs, s, userLimit, chargingSpeed, powerConnected);
      ControlledAppend(fs, t.sample, t.trace, thermal);
      ControlledAppend(fs, t.sample, t.trace + thermal, limit);
      CycleSplit(fs, faults, userLimit, chargingSpeed, powerConnected);
    }
  }

  /** The limit rule's own events: the flag is written to 0 exactly when
      the capacity has reached the limit and the flag is not 0, to 1 exactly
      when the capacity is below the limit and the flag is not 1, and each
      notification goes with its write when power is connected; stopping
      writes cooldown 0 exactly when cooldown is available. */
  lemma LimitEventsSpec(fs: Fs, s: Sample, userLimit: int32, powerConnected: bool)
    ensures var events := LimitEvents(fs, s, userLimit, powerConnected);
      var enablePath := ResolvePath(fs.existing, ChargingEnable);
      && (Write(enablePath, 0) in events <==> s.capacity >= userLimit && s.chargingEnable != 0)
      && (Write(enablePath, 1) in events <==> s.capacity < userLimit && s.chargingEnable != 1)
      && (Notify(ChargingStopped) in events <==> powerConnected && s.capacity >= userLimit && s.chargingEnable != 0)
      && (Notify(ChargingStatus) in events <==> powerConnected && s.capacity < userLimit && s.chargingEnable != 1)
      && (Write(ResolvePath(fs.existing, CoolDown), 0) in events <==>
            s.capacity >= userLimit && s.chargingEnable != 0 && CoolDownAvailable(fs.writable))
  {
  }

  /** The limit rule writes only the cooldown level and the charging flag,
      each at its resolved path. */
  lemma LimitWritesControls(fs: Fs, s: Sample, userLimit: int32, powerConnected: bool)
    ensures var events := LimitEvents(fs, s, userLimit, powerConnected);
      forall i :: 0 <= i < |events| && events[i].Write? ==>
        events[i].path == ResolvePath(fs.existing, CoolDown) || events[i].path == ResolvePath(fs.existing, ChargingEnable)
  {
  }

  /** A cycle whose limit rule leaves the flag alone writes no flag. */
  lemma UnchangedWritesNoFlag(fs: Fs, faults: seq<set<Path>>, userLimit: int32, chargingSpeed: int32, powerConnected: bool)
    requires ReadTelemetry(fs, faults, 0).sample.Some?
    requires var s := ReadTelemetry(fs, faults, 0).sample.value;
      LimitDecision(s.capacity, userLimit, s.chargingEnable) == Unchanged
    ensures forall e :: e in CycleTrace(fs, faults, userLimit, chargingSpeed, powerConnected) ==>
      !(e.Write? && e.path.attr == ChargingEnable)
  {
    var t := ReadTelemetry(fs, faults, 0);
    var thermal := ThermalEvents(fs, t.sample.value, chargingSpeed);
    CycleSplit(fs, faults, userLimit, chargingSpeed, powerConnected);
    TelemetryIsSilent(fs, faults);
    assert CycleTrace(fs, faults, userLimit, chargingSpeed, powerConnected) == t.trace + thermal;
    assert forall e :: e in t.trace ==> exists i :: 0 <= i < |t.trace| && t.trace[i] == e;
    assert forall e :: e in thermal ==> exists i :: 0 <= i < |thermal| && thermal[i] == e;
  }

  /** The events of a cycle that read a sample: the reads and pauses, then
      the thermal write, then the limit rule's events. */
  lemma CycleSplit(fs: Fs, faults: seq<set<Path>>, userLimit: int32, chargingSpeed: int32, powerConnected: bool)
    requires ReadTelemetry(fs, faults, 0).sample.Some?
    ensures var t := ReadTelemetry(fs, faults, 0);
      var s := t.sample.value;
      var thermal := ThermalEvents(fs, s, chargingSpeed);
      && CycleTrace(fs, faults, userLimit, chargingSpeed, powerConnected)
           == t.trace + thermal + LimitEvents(fs, s, userLimit, powerConnected)
      && (forall i :: 0 <= i < |thermal| ==> thermal[i] == Write(ResolvePath(fs.existing, CoolDown), thermal[i].value))
  {
  }

  /** The retry loop writes nothing and notifies nobody. */
  lemma TelemetryIsSilent(fs: Fs, faults: seq<set<Path>>)
    ensures forall i :: 0 <= i < |ReadTelemetry(fs, faults, 0).trace| ==>
      !ReadTelemetry(fs, faults, 0).trace[i].Write? && !ReadTelemetry(fs, faults, 0).trace[i].Notify?
    ensures forall p :: LastWrite(ReadTelemetry(fs, faults, 0).trace, p) == None
    ensures ApplyTrace(fs, ReadTelemetry(fs, faults, 0).trace) == fs
  {
    var t := ReadTelemetry(fs, faults, 0);
    TelemetrySamplingOnly(fs, faults, 0);
    assert forall i :: 0 <= i < |t.trace| ==> t.trace[i] in t.trace;
    NoWritesNoChange(fs, t.trace);
  }

  /** The charge-limit rule as seen in the cycle's log (see LimitEventsSpec). */
  lemma CycleLimitEvents(fs: Fs, faults: seq<set<Path>>, userLimit: int32, chargingSpeed: int32, powerConnected: bool)
    requires ReadTelemetry(fs, faults, 0).sample.Some?
    ensures var s := ReadTelemetry(fs, faults, 0).sample.value;
      var trace := CycleTrace(fs, faults, userLimit, chargingSpeed, powerConnected);
      var enablePath := ResolvePath(fs.existing, ChargingEnable);
      && (Write(enablePath, 0) in trace <==> s.capacity >= userLimit && s.chargingEnable != 0)
      && (Write(enablePath, 1) in trace <==> s.capacity < userLimit && s.chargingEnable != 1)
      && (Notify(ChargingStopped) in trace <==> powerConnected && s.capacity >= userLimit && s.chargingEnable != 0)
      && (Notify(ChargingStatus) in trace <==> powerConnected && s.capacity < userLimit && s.chargingEnable != 1)
  {
    var t := ReadTelemetry(fs, faults, 0);
    var s := t.sample.value;
    CycleSplit(fs, faults, userLimit, chargingSpeed, powerConnected);
    TelemetryIsSilent(fs, faults);
    LimitEventsSpec(fs, s, userLimit, powerConnected);
    var thermal := ThermalEvents(fs, s, chargingSpeed);
    assert forall e :: e in t.trace || e in thermal ==> !e.Notify? && !(e.Write? && e.path.attr == ChargingEnable) by {
      assert forall e :: e in t.trace ==> exists i :: 0 <= i < |t.trace| && t.trace[i] == e;
      assert forall e :: e in thermal ==> exists i :: 0 <= i < |thermal| && thermal[i] == e;
    }
  }

  /** Stopping at the limit leaves the cooldown level at 0 whatever the
      thermal rule wrote earlier in the cycle, when the resolved cooldown file
      is writable. */
  lemma StopLeavesCoolDownZero(fs: Fs, faults: seq<set<Path>>, userLimit: int32, chargingSpeed: int32, powerConnected: bool)
    requires ReadTelemetry(fs, faults, 0).sample.Some?
    requires var s := ReadTelemetry(fs, faults, 0).sample.value;
      s.capacity >= userLimit && s.chargingEnable != 0
    requires ResolvePath(fs.existing, CoolDown) in fs.writable
    ensures var after := ApplyTrace(fs, CycleTrace(fs, faults, userLimit, chargingSpeed, powerConnected));
      var p := ResolvePath(fs.existing, CoolDown);
      p in after.contents && after.contents[p] == 0
  {
    var t := ReadTelemetry(fs, faults, 0);
    var s := t.sample.value;
    var p := ResolvePath(fs.existing, CoolDown);
    var q := ResolvePath(fs.existing, ChargingEnable);
    var thermal := ThermalEvents(fs, s, chargingSpeed);
    var notice := if powerConnected then [Notify(ChargingStopped)] else [];
    var tail := [Write(q, 0)] + notice;
    var trace := CycleTrace(fs, faults, userLimit, chargingSpeed, powerConnected);
    assert CoolDownAvailable(fs.writable);
    assert trace == (t.trace + thermal) + [Write(p, 0)] + tail;
    assert LastWrite(tail, p) == None by {
      NoWritesNoChange(fs, notice);
      LastWriteAppend([Write(q, 0)], notice, p);
      assert [Write(q, 0)][..0] == [];
    }
    assert LastWrite([Write(p, 0)], p) == Some(0);
    LastWriteAppend((t.trace + thermal) + [Write(p, 0)], tail, p);
    LastWriteAppend(t.trace + thermal, [Write(p, 0)], p);
    ApplyTraceAt(fs, trace, p);
  }

  /** A cycle never writes the capacity file. */
  lemma CycleKeepsCapacity(fs: Fs, faults: seq<set<Path>>, userLimit: int32, chargingSpeed: int32, powerConnected: bool)
    ensures LastWrite(CycleTrace(fs, faults, userLimit, chargingSpeed, powerConnected), ResolvePath(fs.existing, Capacity)) == None
  {
    var t := ReadTelemetry(fs, faults, 0);
    var capPath := ResolvePath(fs.existing, Capacity);
    TelemetryIsSilent(fs, faults);
    if t.sample.Some? {
      var s := t.sample.value;
      var thermal := ThermalEvents(fs, s, chargingSpeed);
      var limit := LimitEvents(fs, s, userLimit, powerConnected);
      CycleSplit(fs, faults, userLimit, chargingSpeed, powerConnected);
      LastWriteAppend(t.trace + thermal, limit, capPath);
      LastWriteAppend(t.trace, thermal, capPath);
      LastWriteNotTo(thermal, capPath);
      LimitWritesControls(fs, s, userLimit, powerConnected);
      LastWriteNotTo(limit, capPath);
      assert LastWrite(t.trace, capPath) == None;
      assert LastWrite(t.trace + thermal, capPath) == None;
    } else {
      assert LastWrite(t.trace, capPath) == None;
    }
  }

  /** The last flag write of a cycle is the flag the limit rule decided on,
      if it decided to change it. */
  lemma CycleLeavesFlag(fs: Fs, faults: seq<set<Path>>, userLimit: int32, chargingSpeed: int32, powerConnected: bool)
    requires ReadTelemetry(fs, faults, 0).sample.Some?
    ensures var s := ReadTelemetry(fs, faults, 0).sample.value;
      var d := LimitDecision(s.capacity, userLimit, s.chargingEnable);
      LastWrite(CycleTrace(fs, faults, userLimit, chargingSpeed, powerConnected), ResolvePath(fs.existing, ChargingEnable))
        == if d == Unchanged then None else Some(EnableAfter(s.chargingEnable, d))
  {
    var t := ReadTelemetry(fs, faults, 0);
    var s := t.sample.value;
    var enablePath := ResolvePath(fs.existing, ChargingEnable);
    var thermal := ThermalEvents(fs, s, chargingSpeed);
    var limit := LimitEvents(fs, s, userLimit, powerConnected);
    CycleSplit(fs, faults, userLimit, chargingSpeed, powerConnected);
    TelemetryIsSilent(fs, faults);
    LastWriteAppend(t.trace + thermal, limit, enablePath);
    LastWriteAppend(t.trace, thermal, enablePath);
    LastWriteNotTo(thermal, enablePath);
    LimitLastWrite(fs, s, userLimit, powerConnected);
  }

  /** The capacity the next cycle reads is the one this cycle read: no cycle
      writes it. */
  lemma NextCapacity(fs: Fs, faults: seq<set<Path>>, faults': seq<set<Path>>,
                     userLimit: int32, chargingSpeed: int32, powerConnected: bool)
    requires ReadTelemetry(fs, faults, 0).sample.Some?
    requires var fs' := ApplyTrace(fs, CycleTrace(fs, faults, userLimit, chargingSpeed, powerConnected));
      ReadTelemetry(fs', faults', 0).sample.Some?
    ensures var fs' := ApplyTrace(fs, CycleTrace(fs, faults, userLimit, chargingSpeed, powerConnected));
      ReadTelemetry(fs', faults', 0).sample.value.capacity == ReadTelemetry(fs, faults, 0).sample.value.capacity
  {
    var trace := CycleTrace(fs, faults, userLimit, chargingSpeed, powerConnected);
    TelemetryReadsFs(fs, faults, 0);
    TelemetryReadsFs(ApplyTrace(fs, trace), faults', 0);
    CycleKeepsCapacity(fs, faults, userLimit, chargingSpeed, powerConnected);
    ApplyTraceAt(fs, trace, ResolvePath(fs.existing, Capacity));
  }

  /** The flag the next cycle reads is the one this cycle's limit rule left,
      when the flag file accepts writes. */
  lemma NextFlag(fs: Fs, faults: seq<set<Path>>, faults': seq<set<Path>>,
                 userLimit: int32, chargingSpeed: int32, powerConnected: bool)
    requires ReadTelemetry(fs, faults, 0).sample.Some?
    requires ResolvePath(fs.existing, ChargingEnable) in fs.writable
    requires var fs' := ApplyTrace(fs, CycleTrace(fs, faults, userLimit, chargingSpeed, powerConnected));
      ReadTelemetry(fs', faults', 0).sample.Some?
    ensures var s := ReadTelemetry(fs, faults, 0).sample.value;
      var fs' := ApplyTrace(fs, CycleTrace(fs, faults, userLimit, chargingSpeed, powerConnected));
      ReadTelemetry(fs', faults', 0).sample.value.chargingEnable
        == EnableAfter(s.chargingEnable, LimitDecision(s.capacity, userLimit, s.chargingEnable))
  {
    FlagAfterCycle(fs, faults, userLimit, chargingSpeed, powerConnected);
    TelemetryReadsFs(ApplyTrace(fs, CycleTrace(fs, faults, userLimit, chargingSpeed, powerConnected)), faults', 0);
  }

  /** What the flag file holds after a cycle that read a sample, when it
      accepts writes. */
  lemma FlagAfterCycle(fs: Fs, faults: seq<set<Path>>, userLimit: int32, chargingSpeed: int32, powerConnected: bool)
    requires ReadTelemetry(fs, faults, 0).sample.Some?
    requires ResolvePath(fs.existing, ChargingEnable) in fs.writable
    ensures var s := ReadTelemetry(fs, faults, 0).sample.value;
      var fs' := ApplyTrace(fs, CycleTrace(fs, faults, userLimit, chargingSpeed, powerConnected));
      var q := ResolvePath(fs.existing, ChargingEnable);
      q in fs'.contents && fs'.contents[q] == EnableAfter(s.chargingEnable, LimitDecision(s.capacity, userLimit, s.chargingEnable)) as int
  {
    var trace := CycleTrace(fs, faults, userLimit, chargingSpeed, powerConnected);
    TelemetryReadsFs(fs, faults, 0);
    CycleLeavesFlag(fs, faults, userLimit, chargingSpeed, powerConnected);
    ApplyTraceAt(fs, trace, ResolvePath(fs.existing, ChargingEnable));
  }

  /** What the resolved cooldown file holds after a cycle that read a sample
      and did not stop at the limit, when that file accepts writes: the level
      the thermal rule chose, or the level it read if it chose none. */
  lemma CoolDownAfterCycle(fs: Fs, faults: seq<set<Path>>, userLimit: int32, chargingSpeed: int32, powerConnected: bool)
    requires ReadTelemetry(fs, faults, 0).sample.Some?
    requires var s := ReadTelemetry(fs, faults, 0).sample.value;
      LimitDecision(s.capacity, userLimit, s.chargingEnable) != StopCharging
    requires ResolvePath(fs.existing, CoolDown) in fs.writable
    ensures var s := ReadTelemetry(fs, faults, 0).sample.value;
      var fs' := ApplyTrace(fs, CycleTrace(fs, faults, userLimit, chargingSpeed, powerConnected));
      var p := ResolvePath(fs.existing, CoolDown);
      p in fs'.contents && fs'.contents[p] == CoolDownAfter(s, chargingSpeed, true) as int
  {
    var t := ReadTelemetry(fs, faults, 0);
    var s := t.sample.value;
    var p := ResolvePath(fs.existing, CoolDown);
    var thermal := ThermalEvents(fs, s, chargingSpeed);
    var limit := LimitEvents(fs, s, userLimit, powerConnected);
    var trace := CycleTrace(fs, faults, userLimit, chargingSpeed, powerConnected);
    assert CoolDownAvailable(fs.writable);
    TelemetryReadsFs(fs, faults, 0);
    TelemetryIsSilent(fs, faults);
    CycleSplit(fs, faults, userLimit, chargingSpeed, powerConnected);
    LimitWritesControls(fs, s, userLimit, powerConnected);
    LastWriteNotTo(limit, p);
    LastWriteAppend(t.trace + thermal, limit, p);
    LastWriteAppend(t.trace, thermal, p);
    ApplyTraceAt(fs, trace, p);
  }

  /** The cooldown level the next cycle reads is the one this cycle's thermal
      rule left, when the cycle did not stop at the limit and the resolved
      cooldown file accepts writes. The next cycle runs on any state `fs''`
      with the same files that agrees with the one this cycle left at the
      cooldown file: the kernel may have changed the temperature, the
      capacity, the current or the flag in between. */
  lemma NextCoolDown(fs: Fs, fs'': Fs, faults: seq<set<Path>>, faults': seq<set<Path>>,
                     userLimit: int32, chargingSpeed: int32, powerConnected: bool)
    requires ReadTelemetry(fs, faults, 0).sample.Some?
    requires var s := ReadTelemetry(fs, faults, 0).sample.value;
      LimitDecision(s.capacity, userLimit, s.chargingEnable) != StopCharging
    requires ResolvePath(fs.existing, CoolDown) in fs.writable
    requires fs''.existing == fs.existing
    requires SameAt(ApplyTrace(fs, CycleTrace(fs, faults, userLimit, chargingSpeed, powerConnected)), fs'',
                    ResolvePath(fs.existing, CoolDown))
    requires ReadTelemetry(fs'', faults', 0).sample.Some?
    ensures var s := ReadTelemetry(fs, faults, 0).sample.value;
      ReadTelemetry(fs'', faults', 0).sample.value.coolDown == CoolDownAfter(s, chargingSpeed, true)
  {
    CoolDownAfterCycle(fs, faults, userLimit, chargingSpeed, powerConnected);
    TelemetryReadsFs(fs'', faults', 0);
  }

  /** An auto-mode cycle with charging enabled, below the limit and with a
      writable resolved cooldown file is one step of `AutoLevels`: the next
      cycle, whatever temperature it reads, starts from the level `AutoLevels`
      gives for this cycle's temperature. */
  lemma AutoCycleStep(fs: Fs, fs'': Fs, faults: seq<set<Path>>, faults': seq<set<Path>>,
                      userLimit: int32, powerConnected: bool)
    requires ReadTelemetry(fs, faults, 0).sample.Some?
    requires var s := ReadTelemetry(fs, faults, 0).sample.value;
      s.chargingEnable == 1 && s.capacity < userLimit
    requires ResolvePath(fs.existing, CoolDown) in fs.writable
    requires fs''.existing == fs.existing
    requires SameAt(ApplyTrace(fs, CycleTrace(fs, faults, userLimit, 0, powerConnected)), fs'',
                    ResolvePath(fs.existing, CoolDown))
    requires ReadTelemetry(fs'', faults', 0).sample.Some?
    ensures var s := ReadTelemetry(fs, faults, 0).sample.value;
      ReadTelemetry(fs'', faults', 0).sample.value.coolDown == AutoLevels(s.coolDown, [s.tempTenths])[0]
  {
    var s := ReadTelemetry(fs, faults, 0).sample.value;
    NextCoolDown(fs, fs'', faults, faults', userLimit, 0, powerConnected);
    assert AutoLevels(s.coolDown, [s.tempTenths])[0] == CoolDownAfter(Sample(s.tempTenths, 0, s.coolDown, 0, 1), 0, true);
  }

  /** Idempotence of the limit rule: a cycle run on the state the previous
      cycle left (same limit, capacity unchanged) writes no charging flag,
      provided the flag file accepted the previous write. */
  lemma CycleIdempotent(fs: Fs, faults: seq<set<Path>>, faults': seq<set<Path>>,
                        userLimit: int32, chargingSpeed: int32, chargingSpeed': int32,
                        powerConnected: bool, powerConnected': bool)
    requires ReadTelemetry(fs, faults, 0).sample.Some?
    requires ResolvePath(fs.existing, ChargingEnable) in fs.writable
    requires var fs' := ApplyTrace(fs, CycleTrace(fs, faults, userLimit, chargingSpeed, powerConnected));
      ReadTelemetry(fs', faults', 0).sample.Some?
    ensures var fs' := ApplyTrace(fs, CycleTrace(fs, faults, userLimit, chargingSpeed, powerConnected));
      var trace' := CycleTrace(fs', faults', userLimit, chargingSpeed', powerConnected');
      forall e :: e in trace' ==> !(e.Write? && e.path.attr == ChargingEnable)
  {
    var s := ReadTelemetry(fs, faults, 0).sample.value;
    var trace := CycleTrace(fs, faults, userLimit, chargingSpeed, powerConnected);
    var fs' := ApplyTrace(fs, trace);
    var s' := ReadTelemetry(fs', faults', 0).sample.value;
    NextCapacity(fs, faults, faults', userLimit, chargingSpeed, powerConnected);
    NextFlag(fs, faults, faults', userLimit, chargingSpeed, powerConnected);
    LimitIdempotent(s.capacity, userLimit, s.chargingEnable);
    UnchangedWritesNoFlag(fs', faults', userLimit, chargingSpeed', powerConnected');
  }

  /** A trace none of whose writes go to `p` has no last write there. */
  lemma {:induction false} LastWriteNotTo(trace: seq<Event>, p: Path)
    requires forall i :: 0 <= i < |trace| && trace[i].Write? ==> trace[i].path != p
    ensures LastWrite(trace, p) == None
    decreases |trace|
  {
    if trace != [] {
      LastWriteNotTo(trace[..|trace| - 1], p);
    }
  }

  /** The last flag write of the limit rule is the flag it decided on. */
  lemma LimitLastWrite(fs: Fs, s: Sample, userLimit: int32, powerConnected: bool)
    ensures var d := LimitDecision(s.capacity, userLimit, s.chargingEnable);
      LastWrite(LimitEvents(fs, s, userLimit, powerConnected), ResolvePath(fs.existing, ChargingEnable))
        == if d == Unchanged then None else Some(EnableAfter(s.chargingEnable, d))
  {
    var q := ResolvePath(fs.existing, ChargingEnable);
    var p := ResolvePath(fs.existing, CoolDown);
    var d := LimitDecision(s.capacity, userLimit, s.chargingEnable);
    var events := LimitEvents(fs, s, userLimit, powerConnected);
    if d == StopCharging {
      var tail := if powerConnected then [Notify(ChargingStopped)] else [];
      LastWriteNotTo(tail, q);
      assert [Write(q, 0)][..0] == [];
      LastWriteAppend([Write(q, 0)], tail, q);
      var head := if CoolDownAvailable(fs.writable) then [Write(p, 0)] else [];
      assert events == head + ([Write(q, 0)] + tail);
      LastWriteAppend(head, [Write(q, 0)] + tail, q);
    } else if d == ResumeCharging {
      var tail := if powerConnected then [Notify(ChargingStatus)] else [];
      LastWriteNotTo(tail, q);
      assert [Write(q, 1)][..0] == [];
      LastWriteAppend([Write(q, 1)], tail, q);
      assert events == [Write(q, 1)] + tail;
    }
  }
}
